/**
  The "Nuevo movimiento" form: its state, the two effects that keep it
  consistent (reset when shown, signed amount preview), the amount
  sanitiser on input, and the guard chain of the save button that either
  reports one error message or hands the entry to the transaction store.
 */
module TransactionForm {
  import opened AmountText
  import opened NumberFormat
  import opened Transactions

  datatype Option<T> = None | Some(value: T)

  /**
    WhiteSpace and LineTerminator code points of ECMA-262 (sections 12.2
    and 12.3), the characters String.prototype.trim removes.
   */
  predicate IsJsWhiteSpace(c: char)
  {
    || c == '\t' || c == '\U{000B}' || c == '\U{000C}' || c == ' ' || c == '\U{00A0}'
    || c == '\U{FEFF}' || c == '\U{1680}' || ('\U{2000}' <= c <= '\U{200A}')
    || c == '\U{202F}' || c == '\U{205F}' || c == '\U{3000}'
    || c == '\n' || c == '\r' || c == '\U{2028}' || c == '\U{2029}'
  }

  predicate AllSpace(s: string)
  {
    forall i :: 0 <= i < |s| ==> IsJsWhiteSpace(s[i])
  }

  function TrimStart(s: string): (r: string)
    ensures |r| <= |s|
    ensures r == "" || !IsJsWhiteSpace(r[0])
  {
    if s != [] && IsJsWhiteSpace(s[0]) then TrimStart(s[1..]) else s
  }

  function TrimEnd(s: string): (r: string)
    ensures |r| <= |s|
    ensures r == "" || !IsJsWhiteSpace(r[|r| - 1])
  {
    if s != [] && IsJsWhiteSpace(s[|s| - 1]) then TrimEnd(s[..|s| - 1]) else s
  }

  /** String.prototype.trim. */
  function Trim(s: string): (r: string)
    ensures |r| <= |s|
  {
    TrimEnd(TrimStart(s))
  }

  lemma {:induction false} TrimStartEmpty(s: string)
    ensures TrimStart(s) == "" <==> AllSpace(s)
  {
    if s != [] && IsJsWhiteSpace(s[0]) {
      TrimStartEmpty(s[1..]);
      assert AllSpace(s) <==> AllSpace(s[1..]) by {
        if AllSpace(s[1..]) {
          forall i | 0 <= i < |s|
            ensures IsJsWhiteSpace(s[i])
          {
            if i > 0 {
              assert s[i] == s[1..][i - 1];
            }
          }
        }
      }
    }
  }

  lemma {:induction false} TrimEndEmpty(s: string)
    ensures TrimEnd(s) == "" <==> AllSpace(s)
  {
    if s != [] && IsJsWhiteSpace(s[|s| - 1]) {
      var p := s[..|s| - 1];
      TrimEndEmpty(p);
      assert AllSpace(s) <==> AllSpace(p) by {
        if AllSpace(p) {
          forall i | 0 <= i < |s|
            ensures IsJsWhiteSpace(s[i])
          {
            if i < |s| - 1 {
              assert s[i] == p[i];
            }
          }
        }
      }
    }
  }

  /** A text trims to nothing exactly when every character of it is white space. */
  lemma TrimEmptyIffAllSpace(s: string)
    ensures Trim(s) == "" <==> AllSpace(s)
  {
    TrimStartEmpty(s);
    TrimEndEmpty(TrimStart(s));
  }

  /** Amount text has no white space, so trimming leaves it as it is. */
  lemma {:induction false} TrimAmountText(s: string)
    requires IsAmountText(s)
    ensures Trim(s) == s
  {
    if s != [] {
      assert IsAmountChar(s[0]) && IsAmountChar(s[|s| - 1]);
    }
  }

  /** The four ways the save button can refuse, in the order they are checked. */
  datatype FormError = MissingBoth | MissingTitle | MissingAmount | InvalidAmount

  /** The message shown for each refusal. */
  function Message(e: FormError): (m: string)
    ensures m != ""
  {
    match e
    case MissingBoth => "\U{1F6A8} T\U{ED}tulo y monto son obligatorios!"
    case MissingTitle => "\U{26A0}\U{FE0F} No olvides poner un t\U{ED}tulo!"
    case MissingAmount => "\U{1F4B0} El monto no puede estar vac\U{ED}o!"
    case InvalidAmount => "\U{274C} El monto debe ser un n\U{FA}mero v\U{E1}lido!"
  }

  /** The messages tell the refusals apart. */
  lemma MessagesDistinct(e1: FormError, e2: FormError)
    ensures Message(e1) == Message(e2) <==> e1 == e2
  {
    if e1 != e2 {
      var c1, c2 := Message(e1)[0], Message(e2)[0];
      assert c1 != c2;
    }
  }

  /** The guard chain of the save button: the first failing check decides. */
  function Validate(title: string, amount: string): (e: Option<FormError>)
    requires IsAmountText(amount)
  {
    if Trim(title) == "" && Trim(amount) == "" then Some(MissingBoth)
    else if Trim(title) == "" then Some(MissingTitle)
    else if Trim(amount) == "" then Some(MissingAmount)
    else if NumberOf(amount).NaN? then Some(InvalidAmount)
    else None
  }

  /**
    The decision table of the save button, stated on the inputs alone: which
    refusal (if any) each combination of blank title, empty amount and
    malformed amount gets.
   */
  lemma ValidateDecisionTable(title: string, amount: string)
    requires IsAmountText(amount)
    ensures Validate(title, amount) == Some(MissingBoth) <==> AllSpace(title) && amount == ""
    ensures Validate(title, amount) == Some(MissingTitle) <==> AllSpace(title) && amount != ""
    ensures Validate(title, amount) == Some(MissingAmount) <==> !AllSpace(title) && amount == ""
    ensures Validate(title, amount) == Some(InvalidAmount) <==>
      !AllSpace(title) && amount != "" && !(HasDigit(amount) && Count(amount, '.') <= 1)
    ensures Validate(title, amount) == None <==>
      !AllSpace(title) && HasDigit(amount) && Count(amount, '.') <= 1
  {
    TrimEmptyIffAllSpace(title);
    TrimAmountText(amount);
    NumberOfNaN(amount);
    if amount == "" {
      assert !HasDigit(amount);
    }
  }

  /**
    An accepted entry is stored with a finite amount: parseFloat in the store
    reads the same value that Number() accepted in the form, with the sign of
    the chosen kind.
   */
  lemma AcceptedAmountIsStored(id: string, title: string, amount: string, kind: Kind, date: Date)
    requires IsAmountText(amount) && Validate(title, amount) == None
    ensures NumberOf(amount).Finite?
    ensures NewTransaction(id, title, amount, kind, date).amount ==
      (if kind == Gasto then Negate(NumberOf(amount)) else NumberOf(amount))
  {
    TrimAmountText(amount);
    ParseFloatAgreesWithNumber(amount);
  }

  function SignChar(kind: Kind): char
  {
    if kind == Ingreso then '+' else '-'
  }

  /** Math.abs(x) || 0: the absolute value, with NaN (and zero) shown as 0. */
  function Magnitude(x: Number): (r: Number)
    ensures r.Finite? && r.units >= 0
  {
    match x
    case NaN => Finite(0, 0)
    case Finite(u, s) => if u < 0 then Finite(-u, s) else x
  }

  /** The preview of the amount field: empty, or a sign followed by the number. */
  function DisplayAmount(amount: string, kind: Kind): (d: string)
    requires IsAmountText(amount)
  {
    if amount == "" then "" else [SignChar(kind)] + NumberToString(Magnitude(NumberOf(amount)))
  }

  /** The preview is empty only for an empty amount, and otherwise starts with the sign of the kind. */
  lemma DisplaySign(amount: string, kind: Kind)
    requires IsAmountText(amount)
    ensures DisplayAmount(amount, kind) == "" <==> amount == ""
    ensures amount != "" ==> DisplayAmount(amount, kind)[0] == (if kind == Ingreso then '+' else '-')
  {
  }

  /**
    For an amount Number() accepts, the preview after the sign reads back,
    through Number(), as the typed value (unless toString switches to
    exponent notation).
   */
  lemma DisplayShowsValue(amount: string, kind: Kind)
    requires IsAmountText(amount) && amount != "" && NumberOf(amount).Finite?
    requires NumberOf(amount).units == 0 ||
      -6 < DecimalExponent(NumberOf(amount).units, NumberOf(amount).scale) <= 21
    ensures var shown := DisplayAmount(amount, kind)[1..];
      IsAmountText(shown) && Normalize(NumberOf(shown)) == Normalize(NumberOf(amount))
  {
    ParseFloatAgreesWithNumber(amount);
    var x := NumberOf(amount);
    assert Magnitude(x) == x;
    NumberToStringRoundTrip(x);
  }

  /** An amount Number() rejects (say "1.2.3" or ".") is previewed as zero. */
  lemma DisplayMalformedAsZero(amount: string, kind: Kind)
    requires IsAmountText(amount) && amount != "" && NumberOf(amount).NaN?
    ensures DisplayAmount(amount, kind) == [SignChar(kind), '0']
  {
  }

  /**
    A point typed after whole digits does not survive: the preview of "12."
    is the preview of "12", and that preview is what the field shows next.
   */
  lemma TrailingPointNotShown(digits: string, kind: Kind)
    requires AllDigits(digits) && digits != ""
    ensures IsAmountText(digits + ".") && IsAmountText(digits)
    ensures DisplayAmount(digits + ".", kind) == DisplayAmount(digits, kind)
  {
    NumberOfDotted(digits, "");
    NumberOfDigits(digits);
    assert digits + "" == digits;
  }

  /** The arguments onSave receives. */
  datatype SaveCall = SaveCall(title: string, amount: string, kind: Kind, date: Date)

  /** The state of the form while it is mounted. */
  class TransactionModal {
    var title: string
    var amount: string
    var displayAmount: string
    var kind: Kind
    var date: Date
    var showDatePicker: bool
    var error: string

    /** The amount only ever holds sanitised text, and the preview follows amount and kind. */
    predicate Valid()
      reads this
    {
      IsAmountText(amount) && displayAmount == DisplayAmount(amount, kind)
    }

    /** Initial state; `today` stands for new Date(). */
    constructor(today: Date)
      ensures Valid()
      ensures title == "" && amount == "" && displayAmount == "" && kind == Gasto
      ensures date == today && !showDatePicker && error == ""
    {
      title, amount, displayAmount := "", "", "";
      kind, date := Gasto, today;
      showDatePicker, error := false, "";
    }

    /** The effect on `visible`: showing the form clears it; hiding it keeps everything. */
    method OnVisibleChange(visible: bool, today: Date)
      requires Valid()
      modifies this
      ensures Valid()
      ensures visible ==>
        && title == "" && amount == "" && displayAmount == "" && kind == Gasto
        && date == today && !showDatePicker && error == ""
      ensures !visible ==> unchanged(this)
    {
      if visible {
        title := "";
        amount := "";
        displayAmount := "";
        kind := Gasto;
        date := today;
        showDatePicker := false;
        error := "";
      }
    }

    method ChangeTitle(text: string)
      requires Valid()
      modifies this
      ensures Valid()
      ensures title == text
      ensures amount == old(amount) && displayAmount == old(displayAmount) && kind == old(kind)
      ensures date == old(date) && showDatePicker == old(showDatePicker) && error == old(error)
    {
      title := text;
    }

    /** Editing the amount field: keep only digits and points, then refresh the preview. */
    method ChangeAmountText(text: string)
      requires Valid()
      modifies this
      ensures Valid()
      ensures amount == Sanitize(text) && displayAmount == DisplayAmount(Sanitize(text), kind)
      ensures title == old(title) && kind == old(kind)
      ensures date == old(date) && showDatePicker == old(showDatePicker) && error == old(error)
    {
      amount := Sanitize(text);
      if amount == "" {
        displayAmount := "";
      } else {
        var numericValue := Magnitude(NumberOf(amount));
        displayAmount := [SignChar(kind)] + NumberToString(numericValue);
      }
    }

    /** The Ingreso and Gasto buttons; the preview changes its sign. */
    method SelectType(k: Kind)
      requires Valid()
      modifies this
      ensures Valid()
      ensures kind == k && displayAmount == DisplayAmount(amount, k)
      ensures title == old(title) && amount == old(amount)
      ensures date == old(date) && showDatePicker == old(showDatePicker) && error == old(error)
    {
      kind := k;
      if amount == "" {
        displayAmount := "";
      } else {
        var numericValue := Magnitude(NumberOf(amount));
        displayAmount := [SignChar(kind)] + NumberToString(numericValue);
      }
    }

    method OpenDatePicker()
      requires Valid()
      modifies this
      ensures Valid()
      ensures showDatePicker
      ensures title == old(title) && amount == old(amount) && displayAmount == old(displayAmount)
      ensures kind == old(kind) && date == old(date) && error == old(error)
    {
      showDatePicker := true;
    }

    /** The picker closes; a chosen date replaces the current one, a dismissal keeps it. */
    method PickDate(selected: Option<Date>)
      requires Valid()
      modifies this
      ensures Valid()
      ensures !showDatePicker
      ensures date == (if selected.Some? then selected.value else old(date))
      ensures title == old(title) && amount == old(amount) && displayAmount == old(displayAmount)
      ensures kind == old(kind) && error == old(error)
    {
      showDatePicker := false;
      if selected.Some? {
        date := selected.value;
      }
    }

    /**
      The save button. Exactly one outcome: either an error message and no
      call, or the error cleared and onSave called with the untrimmed fields.
     */
    method HandleSave() returns (call: Option<SaveCall>)
      requires Valid()
      modifies this
      ensures Valid()
      ensures Validate(title, amount).Some? ==>
        call == None && error == Message(Validate(title, amount).value)
      ensures Validate(title, amount) == None ==>
        call == Some(SaveCall(title, amount, kind, date)) && error == ""
      ensures call.Some? <==> error == ""
      ensures title == old(title) && amount == old(amount) && displayAmount == old(displayAmount)
      ensures kind == old(kind) && date == old(date) && showDatePicker == old(showDatePicker)
    {
      if Trim(title) == "" && Trim(amount) == "" {
        error := Message(MissingBoth);
        return None;
      }
      if Trim(title) == "" {
        error := Message(MissingTitle);
        return None;
      }
      if Trim(amount) == "" {
        error := Message(MissingAmount);
        return None;
      }
      if NumberOf(amount).NaN? {
        error := Message(InvalidAmount);
        return None;
      }
      error := "";
      call := Some(SaveCall(title, amount, kind, date));
    }
  }

  /**
    The transactions screen's onSave: an accepted entry is added to the store
    under `id` and the form is closed; a refused one changes neither.
   */
  method SubmitForm(form: TransactionModal, store: TransactionsStore, id: string) returns (close: bool)
    requires form.Valid()
    modifies form, store
    ensures form.Valid()
    ensures form.title == old(form.title) && form.amount == old(form.amount)
    ensures form.displayAmount == old(form.displayAmount) && form.kind == old(form.kind)
    ensures form.date == old(form.date) && form.showDatePicker == old(form.showDatePicker)
    ensures close <==> Validate(old(form.title), old(form.amount)) == None
    ensures close ==> form.error == ""
    ensures close ==>
      store.transactions == [NewTransaction(id, old(form.title), old(form.amount), old(form.kind), old(form.date))] + old(store.transactions)
    ensures !close ==> form.error == Message(Validate(old(form.title), old(form.amount)).value)
    ensures !close ==> store.transactions == old(store.transactions)
  {
    var call := form.HandleSave();
    close := false;
    if call.Some? {
      var c := call.value;
      store.AddTransaction(id, c.title, c.amount, c.kind, c.date);
      close := true;
    }
  }
}
