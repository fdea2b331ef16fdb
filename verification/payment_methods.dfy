/** The closed set of payment methods, each with its symbolic constant name
    (written to the data file) and its display label (shown to users). */
module PaymentMethods {
  import opened Wrappers
  import opened Text

  datatype PaymentMethod = Cash | CreditCard | DebitCard | BankTransfer | DigitalWallet {

    /** `Enum.name()`: the constant's identifier. */
    function Name(): string {
      match this
      case Cash => "CASH"
      case CreditCard => "CREDIT_CARD"
      case DebitCard => "DEBIT_CARD"
      case BankTransfer => "BANK_TRANSFER"
      case DigitalWallet => "DIGITAL_WALLET"
    }

    /** `getDisplayName()`: the label given in the constant's declaration. */
    function DisplayName(): string {
      match this
      case Cash => "Cash"
      case CreditCard => "Credit Card"
      case DebitCard => "Debit Card"
      case BankTransfer => "Bank Transfer"
      case DigitalWallet => "Digital Wallet"
    }

    /** `toString()` is overridden to give the display label. */
    function ToString(): string {
      DisplayName()
    }

    /** The string equals the constant's name or its label, ignoring case. */
    predicate MatchesIgnoringCase(s: string) {
      EqualsIgnoreCase(Name(), s) || EqualsIgnoreCase(DisplayName(), s)
    }
  }

  /** `PaymentMethod.values()`: the constants in declaration order. */
  const Values: seq<PaymentMethod> := [Cash, CreditCard, DebitCard, BankTransfer, DigitalWallet]

  /** There are five constants, each listed once. */
  lemma ValuesEnumerateAll()
    ensures |Values| == 5
    ensures forall m: PaymentMethod :: m in Values
    ensures forall i, j :: 0 <= i < j < |Values| ==> Values[i] != Values[j]
  {
    forall m: PaymentMethod ensures m in Values {
      match m
      case Cash => assert Values[0] == m;
      case CreditCard => assert Values[1] == m;
      case DebitCard => assert Values[2] == m;
      case BankTransfer => assert Values[3] == m;
      case DigitalWallet => assert Values[4] == m;
    }
  }

  /** Names are pairwise distinct, labels are pairwise distinct, and no string
      matches two constants ignoring case: a constant's name and label have the
      same length, and that length differs from constant to constant. */
  lemma NamesAndLabelsAreUnambiguous(m: PaymentMethod, n: PaymentMethod, s: string)
    ensures m != n ==> m.Name() != n.Name() && m.DisplayName() != n.DisplayName()
    ensures m != n ==> !EqualsIgnoreCase(m.DisplayName(), n.Name())
    ensures m.MatchesIgnoringCase(s) && n.MatchesIgnoringCase(s) ==> m == n
  {
  }

  /** `Enum.valueOf`: the constant whose name is exactly `name`, case included. */
  function ValueOf(name: string): (r: Option<PaymentMethod>)
    ensures forall m: PaymentMethod :: r == Some(m) <==> m.Name() == name
  {
    if name == "CASH" then Some(Cash)
    else if name == "CREDIT_CARD" then Some(CreditCard)
    else if name == "DEBIT_CARD" then Some(DebitCard)
    else if name == "BANK_TRANSFER" then Some(BankTransfer)
    else if name == "DIGITAL_WALLET" then Some(DigitalWallet)
    else None
  }

  /** The first of `methods` that `s` matches ignoring case. */
  function FirstMatch(methods: seq<PaymentMethod>, s: string): (r: Option<PaymentMethod>)
    ensures r.Some? ==> r.value in methods && r.value.MatchesIgnoringCase(s)
    ensures r.None? ==> forall m :: m in methods ==> !m.MatchesIgnoringCase(s)
  {
    if methods == [] then None
    else if methods[0].MatchesIgnoringCase(s) then Some(methods[0])
    else FirstMatch(methods[1..], s)
  }
}
