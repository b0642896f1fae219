// What an enum expression means, said without the functions that compute it: numbers by the digits and the bits they
// have.

module CMeaning {
  import opened Wrappers
  import opened CEnum

  // ----- Literals -----

  const DIGITS := "0123456789abcdef"
  const CAPITAL_DIGITS := "0123456789ABCDEF"

  predicate DigitIs(c: char, d: nat) {
    d < 16 && (c == DIGITS[d] || c == CAPITAL_DIGITS[d])
  }

  ghost predicate IsDigit(c: char, base: nat) {
    exists d: nat :: d < base && DigitIs(c, d)
  }

  ghost predicate AllDigits(text: string, base: nat) {
    forall i :: 0 <= i < |text| ==> IsDigit(text[i], base)
  }

  /** `text` is `v` written out: its last digit is the remainder, and those before it the quotient. */
  predicate WrittenOut(text: string, v: nat, base: nat)
    requires base >= 1
  {
    if text == "" then v == 0
    else DigitIs(text[|text| - 1], v % base) && WrittenOut(text[..|text| - 1], v / base, base)
  }

  lemma {:induction false} InBaseIsWrittenOut(text: string, base: nat, v: nat)
    requires 1 <= base <= 16 && AllDigits(text, base)
    ensures InBase(text, base) == v <==> WrittenOut(text, v, base)
  {
    if text != "" {
      var front, last := text[..|text| - 1], text[|text| - 1];
      assert IsDigit(last, base);
      var d: nat :| d < base && DigitIs(last, d);
      DigitOfIs(last, d);
      OneDigit(last, d, v % base);
      assert forall i :: 0 <= i < |front| ==> front[i] == text[i] && IsDigit(text[i], base);
      InBaseIsWrittenOut(front, base, v / base);
      QuotientAndRemainder(InBase(front, base), d, base, v);
    }
  }

  lemma QuotientAndRemainder(q: nat, d: nat, base: nat, v: nat)
    requires d < base
    ensures base * q + d == v <==> q == v / base && d == v % base
  {
    var whole, rest := v / base, v % base;
    assert base * whole + rest == v;
    if base * q + d == v && q != whole {
      Apart(q, whole, base);
      Apart(whole, q, base);
    }
  }

  lemma Apart(x: nat, y: nat, base: nat)
    ensures x > y ==> base * x >= base * y + base
  {
    if x > y {
      var k := x - y - 1;
      assert base * x == base * (y + 1) + base * k;
    }
  }

  lemma DigitOfIs(c: char, d: nat)
    requires DigitIs(c, d)
    ensures DigitOf(c) == d
  {
  }

  lemma OneDigit(c: char, d: nat, x: nat)
    requires DigitIs(c, d)
    ensures DigitIs(c, x) <==> x == d
  {
    if DigitIs(c, x) {
      DigitOfIs(c, d);
      DigitOfIs(c, x);
    }
  }

  /** What is after the marker, if there is one, and the base it stands for. */
  predicate IsMarked(text: string) {
    "0x" < text || "0X" < text
  }

  ghost predicate IsLiteral(text: string) {
    if IsMarked(text) then AllDigits(text[2..], 16) else text != "" && AllDigits(text, 10)
  }

  predicate LiteralMeans(text: string, v: int) {
    v >= 0 && if IsMarked(text) then WrittenOut(text[2..], v, 16) else WrittenOut(text, v, 10)
  }

  lemma LiteralValueIsMeant(text: string, v: int)
    requires IsLiteral(text)
    ensures LiteralValue(text) == v <==> LiteralMeans(text, v)
  {
    assert IsMarked(text) == IsHex(text);
    if v >= 0 {
      if IsMarked(text) {
        InBaseIsWrittenOut(text[2..], 16, v);
      } else {
        InBaseIsWrittenOut(text, 10, v);
      }
    }
  }

  // ----- Shifts and alternations -----

  ghost predicate SameBits(x: int, y: int) {
    forall i: nat :: Bit(x, i) == Bit(y, i)
  }

  /** Two numbers with the same bits are one. */
  lemma {:induction false} BitsDetermine(x: int, y: int)
    requires SameBits(x, y)
    ensures x == y
    decreases Magnitude(x) + Magnitude(y)
  {
    assert x % 2 == Bit(x, 0) == Bit(y, 0) == y % 2;
    if Magnitude(x) + Magnitude(y) > 0 {
      forall i: nat
        ensures Bit(x / 2, i) == Bit(y / 2, i)
      {
        assert Bit(x, i + 1) == Bit(y, i + 1);
      }
      BitsDetermine(x / 2, y / 2);
    }
  }

  /** The bits of `a`, `n` places up, with zeros below. */
  ghost predicate ShiftedUp(a: int, n: nat, v: int) {
    forall i: nat :: Bit(v, i) == if i < n then 0 else Bit(a, i - n)
  }

  ghost predicate BitsOfEither(a: int, b: int, v: int) {
    forall i: nat :: Bit(v, i) == if Bit(a, i) == 1 || Bit(b, i) == 1 then 1 else 0
  }

  /** A shift by a count that is not negative moves the bits up by it; a negative count has no value. */
  lemma ShiftIsBitwise(a: int, n: int)
    ensures Apply(Shift, a, n).Some? <==> n >= 0
    ensures n >= 0 ==> ShiftedUp(a, n, Apply(Shift, a, n).value)
  {
    if n >= 0 {
      forall i: nat
        ensures Bit(Apply(Shift, a, n).value, i) == if i < n then 0 else Bit(a, i - n)
      {
        TimesPow2Bit(a, n, i);
      }
    }
  }

  lemma {:induction false} TimesPow2Bit(a: int, n: nat, i: nat)
    ensures Bit(a * Pow2(n), i) == if i < n then 0 else Bit(a, i - n)
  {
    if n > 0 {
      var half := a * Pow2(n - 1);
      assert a * Pow2(n) == 2 * half;
      if i > 0 {
        TimesPow2Bit(a, n - 1, i - 1);
      }
    }
  }

  /** The bits say which number it is. */
  lemma ShiftExactly(a: int, n: int, v: int)
    ensures Apply(Shift, a, n) == Some(v) <==> n >= 0 && ShiftedUp(a, n, v)
  {
    ShiftIsBitwise(a, n);
    if n >= 0 && ShiftedUp(a, n, v) {
      BitsDetermine(v, Apply(Shift, a, n).value);
    }
  }

  lemma OrExactly(a: int, b: int, v: int)
    ensures Apply(Or, a, b) == Some(v) <==> BitsOfEither(a, b, v)
  {
    forall i: nat
      ensures Bit(BitOr(a, b), i) == if Bit(a, i) == 1 || Bit(b, i) == 1 then 1 else 0
    {
      BitOrIsBitwise(a, b, i);
    }
    if BitsOfEither(a, b, v) {
      BitsDetermine(v, BitOr(a, b));
    }
  }

  // ----- Expressions -----

  ghost predicate OpMeans(op: Op, a: int, b: int, v: int) {
    match op
    case Or => BitsOfEither(a, b, v)
    case Shift => b >= 0 && ShiftedUp(a, b, v)
    case Add => v - b == a
    case Sub => v + b == a
    case Mul => v == a * b
  }

  /** `v` is what the tree means, with the names standing for these numbers. */
  ghost predicate Means(e: Expr, names: map<string, int>, v: int) {
    match e
    case Num(text) => LiteralMeans(text, v)
    case Ref(name) => name in names && names[name] == v
    case Neg(x) => Means(x, names, -v)
    case Paren(x) => Means(x, names, v)
    case Bin(op, l, r) => exists a, b :: Means(l, names, a) && Means(r, names, b) && OpMeans(op, a, b, v)
  }

  ghost predicate HasLiterals(e: Expr) {
    match e
    case Num(text) => IsLiteral(text)
    case Ref(_) => true
    case Neg(x) => HasLiterals(x)
    case Paren(x) => HasLiterals(x)
    case Bin(_, l, r) => HasLiterals(l) && HasLiterals(r)
  }

  /** What is computed is what is meant. */
  lemma {:induction false} ValueIsMeaning(e: Expr, names: map<string, int>, v: int)
    requires HasLiterals(e)
    ensures Value(e, names) == Some(v) <==> Means(e, names, v)
  {
    hide LiteralValue, LiteralMeans, IsLiteral, Apply, OpMeans;
    match e
    case Num(text) => LiteralValueIsMeant(text, v);
    case Ref(_) =>
    case Neg(x) => ValueIsMeaning(x, names, -v);
    case Paren(x) => ValueIsMeaning(x, names, v);
    case Bin(op, l, r) =>
      forall a
        ensures Value(l, names) == Some(a) <==> Means(l, names, a)
        ensures Value(r, names) == Some(a) <==> Means(r, names, a)
      {
        ValueIsMeaning(l, names, a);
        ValueIsMeaning(r, names, a);
      }
      forall a, b
        ensures Apply(op, a, b) == Some(v) <==> OpMeans(op, a, b, v)
      {
        OpExactly(op, a, b, v);
      }
      if Value(e, names) == Some(v) {
        assert Means(l, names, Value(l, names).value) && Means(r, names, Value(r, names).value);
      }
  }

  lemma OpExactly(op: Op, a: int, b: int, v: int)
    ensures Apply(op, a, b) == Some(v) <==> OpMeans(op, a, b, v)
  {
    hide ShiftedUp, BitsOfEither, BitOr, Pow2;
    ShiftExactly(a, b, v);
    OrExactly(a, b, v);
  }

  // ----- Token lists -----

  /** The literal tokens are what the tokenizer makes: a marker and hexadecimal digits, or decimal digits. */
  ghost predicate TokensOk(toks: seq<Tok>) {
    forall t :: t in toks && t.Lit? ==> IsLiteral(t.text)
  }

  lemma {:induction false} PrintedLiterals(e: Expr)
    ensures TokensOk(Print(e)) <==> HasLiterals(e)
  {
    hide IsLiteral;
    match e
    case Num(text) => assert Lit(text) in Print(e);
    case Ref(_) =>
    case Neg(x) =>
      PrintedLiterals(x);
      assert forall t :: t in Print(e) <==> t == Minus || t in Print(x);
    case Paren(x) =>
      PrintedLiterals(x);
      assert forall t :: t in Print(e) <==> t == LParen || t == RParen || t in Print(x);
    case Bin(op, l, r) =>
      PrintedLiterals(l);
      PrintedLiterals(r);
      assert forall t :: t in Print(e) <==> t in Print(l) || t == OpTok(op) || t in Print(r);
  }

  lemma SpelledMeaning(toks: seq<Tok>, e: Expr, names: map<string, int>, v: int)
    requires TokensOk(toks) && Spells(toks, e)
    ensures Value(e, names) == Some(v) <==> Means(e, names, v)
  {
    PrintedLiterals(e);
    ValueIsMeaning(e, names, v);
  }
}
