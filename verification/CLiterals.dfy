// Where the evaluator reads a literal as C does (ISO C11, section 6.4.4.1), and what that means for a whole expression.

module CLiterals {
  import opened Wrappers
  import opened CEnum

  predicate OctalDigits(text: string) {
    forall i :: 0 <= i < |text| ==> '0' <= text[i] <= '7'
  }

  predicate ZerosBeforeLast(text: string) {
    forall i :: 0 <= i < |text| - 1 ==> text[i] == '0'
  }

  lemma {:induction false} ZeroExactlyWhen(text: string)
    requires OctalDigits(text)
    ensures InBase(text, 10) == 0 <==> forall i :: 0 <= i < |text| ==> text[i] == '0'
  {
    if text != "" {
      ZeroExactlyWhen(text[..|text| - 1]);
    }
  }

  /** Octal digits read as decimal keep their value exactly when all but the last are zeros. */
  lemma {:induction false} LeadingZeroReadsAsDecimal(text: string)
    requires OctalDigits(text)
    ensures InBase(text, 8) <= InBase(text, 10)
    ensures InBase(text, 10) == InBase(text, 8) <==> InBase(text, 10) < 8
    ensures InBase(text, 10) == InBase(text, 8) <==> ZerosBeforeLast(text)
  {
    if text != "" {
      var front := text[..|text| - 1];
      LeadingZeroReadsAsDecimal(front);
      ZeroExactlyWhen(front);
      assert forall i :: 0 <= i < |front| ==> front[i] == text[i];
    }
  }

  /** Section 6.4.4.1: digits after a leading zero are octal, and are no constant if one of them is not. */
  function CLiteral(text: string): Option<nat> {
    if IsHex(text) then Some(InBase(text[2..], 16))
    else if |text| > 1 && text[0] == '0' then if OctalDigits(text) then Some(InBase(text, 8)) else None
    else Some(InBase(text, 10))
  }

  /** A literal C reads as the evaluator does. */
  predicate PlainLiteral(text: string) {
    |text| > 1 && text[0] == '0' && !IsHex(text) ==> ZerosBeforeLast(text) && '0' <= text[|text| - 1] <= '7'
  }

  lemma LiteralAgreesExactlyWhen(text: string)
    ensures CLiteral(text) == Some(LiteralValue(text)) <==> PlainLiteral(text)
  {
    if OctalDigits(text) {
      LeadingZeroReadsAsDecimal(text);
    }
  }

  lemma OctalIsMisread()
    ensures LiteralValue("010") == 10 && CLiteral("010") == Some(8)
  {
    assert "010"[..2] == "01" && "01"[..1] == "0" && "0"[..0] == "";
    assert InBase("0", 10) == 0 && InBase("01", 10) == 1 && InBase("0", 8) == 0 && InBase("01", 8) == 1;
  }

  /** The value of a tree with its literals read as C reads them. */
  function CValue(e: Expr, names: map<string, int>): Option<int> {
    match e
    case Num(text) => if CLiteral(text).Some? then Some(CLiteral(text).value) else None
    case Ref(name) => if name in names then Some(names[name]) else None
    case Neg(x) => if CValue(x, names).Some? then Some(-CValue(x, names).value) else None
    case Paren(x) => CValue(x, names)
    case Bin(op, l, r) =>
      if CValue(l, names).Some? && CValue(r, names).Some? then Apply(op, CValue(l, names).value, CValue(r, names).value)
      else None
  }

  predicate PlainLiterals(e: Expr) {
    match e
    case Num(text) => PlainLiteral(text)
    case Ref(_) => true
    case Neg(x) => PlainLiterals(x)
    case Paren(x) => PlainLiterals(x)
    case Bin(_, l, r) => PlainLiterals(l) && PlainLiterals(r)
  }

  /** So a tree whose literals are all such has the value C gives it. */
  lemma {:induction false} ValueIsCValue(e: Expr, names: map<string, int>)
    requires PlainLiterals(e)
    ensures Value(e, names) == CValue(e, names)
  {
    hide LiteralValue, CLiteral, PlainLiteral, Apply;
    match e
    case Num(text) => LiteralAgreesExactlyWhen(text);
    case Ref(_) =>
    case Neg(x) => ValueIsCValue(x, names);
    case Paren(x) => ValueIsCValue(x, names);
    case Bin(_, l, r) =>
      ValueIsCValue(l, names);
      ValueIsCValue(r, names);
  }
}
