// The integer constant expressions a C enum uses (ISO C11, sections 6.5.3 to 6.5.12 and 6.7.2.2): the grammar, the
// values, and the trees a token list is read as.

module CEnum {
  import opened Wrappers

  datatype Tok = Lit(text: string) | Id(name: string) | Plus | Minus | Star | Shl | Bar | LParen | RParen

  datatype Op = Or | Shift | Add | Sub | Mul

  /** Concrete syntax: every parenthesis pair is a node. */
  datatype Expr = Num(text: string) | Ref(name: string) | Neg(e: Expr) | Paren(e: Expr) | Bin(op: Op, l: Expr, r: Expr)

  const PRIMARY: nat := 4

  function Level(op: Op): (l: nat)
    ensures l < PRIMARY
  {
    match op
    case Or => 0
    case Shift => 1
    case Add => 2
    case Sub => 2
    case Mul => 3
  }

  function LevelOf(e: Expr): nat {
    if e.Bin? then Level(e.op) else PRIMARY
  }

  /** What the grammar derives: left-associative operators, each operand binding tightly enough. */
  predicate WellFormed(e: Expr) {
    match e
    case Num(_) => true
    case Ref(_) => true
    case Neg(x) => WellFormed(x) && LevelOf(x) == PRIMARY
    case Paren(x) => WellFormed(x)
    case Bin(op, l, r) => WellFormed(l) && WellFormed(r) && LevelOf(l) >= Level(op) && LevelOf(r) > Level(op)
  }

  function OpTok(op: Op): Tok {
    match op
    case Or => Bar
    case Shift => Shl
    case Add => Plus
    case Sub => Minus
    case Mul => Star
  }

  /** The operator a token stands for between two operands. */
  function OpOf(t: Tok): Option<Op> {
    match t
    case Bar => Some(Or)
    case Shl => Some(Shift)
    case Plus => Some(Add)
    case Minus => Some(Sub)
    case Star => Some(Mul)
    case _ => None
  }

  function Print(e: Expr): (s: seq<Tok>)
    ensures s != []
  {
    match e
    case Num(text) => [Lit(text)]
    case Ref(name) => [Id(name)]
    case Neg(x) => [Minus] + Print(x)
    case Paren(x) => [LParen] + Print(x) + [RParen]
    case Bin(op, l, r) => Print(l) + [OpTok(op)] + Print(r)
  }

  // ----- Meaning -----

  /** Half the distance from 0 or -1, the two numbers whose bits are all alike. */
  function Magnitude(a: int): nat {
    if a >= 0 then a else -a - 1
  }

  /** The bitwise or of two integers of unbounded two's complement. */
  function BitOr(a: int, b: int): int
    decreases Magnitude(a) + Magnitude(b)
  {
    if Magnitude(a) == 0 && Magnitude(b) == 0 then (if a == -1 || b == -1 then -1 else 0)
    else 2 * BitOr(a / 2, b / 2) + if a % 2 == 1 || b % 2 == 1 then 1 else 0
  }

  function Bit(a: int, i: nat): int
    decreases i
  {
    if i == 0 then a % 2 else Bit(a / 2, i - 1)
  }

  lemma {:induction false} BitOrIsBitwise(a: int, b: int, i: nat)
    ensures Bit(BitOr(a, b), i) == if Bit(a, i) == 1 || Bit(b, i) == 1 then 1 else 0
    decreases i
  {
    BitOrHalves(a, b);
    if i > 0 {
      BitOrIsBitwise(a / 2, b / 2, i - 1);
    }
  }

  lemma BitOrHalves(a: int, b: int)
    ensures BitOr(a, b) / 2 == BitOr(a / 2, b / 2)
    ensures BitOr(a, b) % 2 == if a % 2 == 1 || b % 2 == 1 then 1 else 0
  {
  }

  function Pow2(n: nat): (p: nat)
    ensures p >= 1
  {
    if n == 0 then 1 else 2 * Pow2(n - 1)
  }

  function DigitOf(c: char): nat {
    if '0' <= c <= '9' then c as int - '0' as int
    else if 'a' <= c <= 'f' then c as int - 'a' as int + 10
    else if 'A' <= c <= 'F' then c as int - 'A' as int + 10
    else 0
  }

  function InBase(digits: string, base: nat): nat {
    if digits == "" then 0 else base * InBase(digits[..|digits| - 1], base) + DigitOf(digits[|digits| - 1])
  }

  predicate IsHex(text: string) {
    |text| > 2 && text[0] == '0' && (text[1] == 'x' || text[1] == 'X')
  }

  function LiteralValue(text: string): nat {
    if IsHex(text) then InBase(text[2..], 16) else InBase(text, 10)
  }

  function Apply(op: Op, a: int, b: int): Option<int> {
    match op
    case Or => Some(BitOr(a, b))
    case Shift => if b < 0 then None else Some(a * Pow2(b))
    case Add => Some(a + b)
    case Sub => Some(a - b)
    case Mul => Some(a * b)
  }

  /** The value of a tree, or none when a name is not an earlier enumerator or a shift is negative. */
  function Value(e: Expr, names: map<string, int>): Option<int> {
    match e
    case Num(text) => Some(LiteralValue(text))
    case Ref(name) => if name in names then Some(names[name]) else None
    case Neg(x) => if Value(x, names).Some? then Some(-Value(x, names).value) else None
    case Paren(x) => Value(x, names)
    case Bin(op, l, r) =>
      if Value(l, names).Some? && Value(r, names).Some? then Apply(op, Value(l, names).value, Value(r, names).value)
      else None
  }

  // ----- Parsing -----

  datatype Parsed = Fail | Done(e: Expr, rest: seq<Tok>)

  function ParsePrimary(s: seq<Tok>): (p: Parsed)
    ensures p.Done? ==> |p.rest| < |s|
    decreases |s|, 0
  {
    if s == [] then Fail
    else match s[0]
      case Lit(text) => Done(Num(text), s[1..])
      case Id(name) => Done(Ref(name), s[1..])
      case Minus =>
        var p := ParsePrimary(s[1..]);
        if p.Done? then Done(Neg(p.e), p.rest) else Fail
      case LParen =>
        var p := ParseLevel(0, s[1..]);
        if p.Done? && p.rest != [] && p.rest[0] == RParen then Done(Paren(p.e), p.rest[1..]) else Fail
      case _ => Fail
  }

  function ParseLevel(l: nat, s: seq<Tok>): (p: Parsed)
    requires l <= PRIMARY
    ensures p.Done? ==> |p.rest| < |s|
    decreases |s|, 1 + PRIMARY - l
  {
    if l == PRIMARY then ParsePrimary(s)
    else
      var p := ParseLevel(l + 1, s);
      if p.Done? then ParseTail(l, p.e, p.rest) else Fail
  }

  predicate AtOp(l: nat, s: seq<Tok>) {
    s != [] && OpOf(s[0]).Some? && Level(OpOf(s[0]).value) == l
  }

  /** Further operators of this level, each taking what was read so far as its left operand. */
  function ParseTail(l: nat, acc: Expr, s: seq<Tok>): (p: Parsed)
    requires l < PRIMARY
    ensures p.Done? ==> |p.rest| <= |s|
    decreases |s|, 0
  {
    if !AtOp(l, s) then Done(acc, s)
    else
      var p := ParseLevel(l + 1, s[1..]);
      if p.Done? then ParseTail(l, Bin(OpOf(s[0]).value, acc, p.e), p.rest) else Fail
  }

  /** What follows is not an operator that would have been taken at level `l` or above. */
  predicate Stops(l: nat, s: seq<Tok>) {
    s == [] || OpOf(s[0]).None? || Level(OpOf(s[0]).value) < l
  }

  ghost predicate Reads(l: nat, s: seq<Tok>, p: Parsed) {
    p.Done? ==> WellFormed(p.e) && LevelOf(p.e) >= l && s == Print(p.e) + p.rest && Stops(l, p.rest)
  }

  lemma {:induction false} PrimarySound(s: seq<Tok>)
    ensures Reads(PRIMARY, s, ParsePrimary(s))
    decreases |s|, 0
  {
    var p := ParsePrimary(s);
    if p.Done? {
      assert s == [s[0]] + s[1..];
      if s[0].Minus? {
        PrimarySound(s[1..]);
      } else if s[0].LParen? {
        LevelSound(0, s[1..]);
        var q := ParseLevel(0, s[1..]);
        assert q.rest == [RParen] + q.rest[1..];
      }
    }
  }

  lemma {:induction false} LevelSound(l: nat, s: seq<Tok>)
    requires l <= PRIMARY
    ensures Reads(l, s, ParseLevel(l, s))
    decreases |s|, 1 + PRIMARY - l
  {
    if l == PRIMARY {
      PrimarySound(s);
    } else {
      LevelSound(l + 1, s);
      var p := ParseLevel(l + 1, s);
      if p.Done? {
        TailSound(l, p.e, p.rest);
        var q := ParseTail(l, p.e, p.rest);
        if q.Done? {
          assert s == Print(q.e) + q.rest;
        }
      }
    }
  }

  /** What a tail adds is well formed and is what was taken off the input. */
  lemma {:induction false} TailSound(l: nat, acc: Expr, s: seq<Tok>)
    requires l < PRIMARY && WellFormed(acc) && LevelOf(acc) >= l && Stops(l + 1, s)
    ensures var p := ParseTail(l, acc, s);
            p.Done? ==>
              && WellFormed(p.e) && LevelOf(p.e) >= l && Print(acc) + s == Print(p.e) + p.rest
              && Stops(l, p.rest)
    decreases |s|, 0
  {
    if AtOp(l, s) {
      LevelSound(l + 1, s[1..]);
      var p := ParseLevel(l + 1, s[1..]);
      if p.Done? {
        var next := Bin(OpOf(s[0]).value, acc, p.e);
        TailSound(l, next, p.rest);
        assert s == [s[0]] + Print(p.e) + p.rest;
        assert Print(acc) + s == Print(next) + p.rest;
      }
    }
  }

  /** Every well-formed tree is read back from its tokens. */
  lemma {:induction false} LevelComplete(l: nat, e: Expr, rest: seq<Tok>)
    requires l <= PRIMARY && WellFormed(e) && LevelOf(e) >= l && Stops(l, rest)
    ensures ParseLevel(l, Print(e) + rest) == Done(e, rest)
    decreases e, 2, PRIMARY - l
  {
    if l == PRIMARY {
      PrimaryComplete(e, rest);
    } else {
      TailComplete(l, e, rest);
      assert !AtOp(l, rest);
    }
  }

  lemma {:induction false} PrimaryComplete(e: Expr, rest: seq<Tok>)
    requires WellFormed(e) && LevelOf(e) == PRIMARY
    ensures ParsePrimary(Print(e) + rest) == Done(e, rest)
    decreases e, 0
  {
    var s := Print(e) + rest;
    match e
    case Num(text) => assert s[1..] == rest;
    case Ref(name) => assert s[1..] == rest;
    case Neg(x) =>
      assert s[1..] == Print(x) + rest;
      PrimaryComplete(x, rest);
    case Paren(x) =>
      var after := [RParen] + rest;
      assert s[1..] == Print(x) + after;
      LevelComplete(0, x, after);
      assert after[1..] == rest;
  }

  lemma {:induction false} TailComplete(l: nat, e: Expr, rest: seq<Tok>)
    requires l < PRIMARY && WellFormed(e) && LevelOf(e) >= l && Stops(l + 1, rest)
    ensures ParseLevel(l, Print(e) + rest) == ParseTail(l, e, rest)
    decreases e, 1, PRIMARY - l
  {
    if LevelOf(e) > l {
      if l + 1 == PRIMARY {
        PrimaryComplete(e, rest);
      } else {
        TailComplete(l + 1, e, rest);
      }
      assert ParseLevel(l + 1, Print(e) + rest) == Done(e, rest);
    } else {
      var after := [OpTok(e.op)] + (Print(e.r) + rest);
      TailComplete(l, e.l, after);
      LevelComplete(l + 1, e.r, rest);
      TailStep(l, e, rest, after);
    }
  }

  lemma TailStep(l: nat, e: Expr, rest: seq<Tok>, after: seq<Tok>)
    requires l < PRIMARY && e.Bin? && Level(e.op) == l && after == [OpTok(e.op)] + (Print(e.r) + rest)
    requires ParseLevel(l, Print(e.l) + after) == ParseTail(l, e.l, after)
    requires ParseLevel(l + 1, Print(e.r) + rest) == Done(e.r, rest)
    ensures ParseLevel(l, Print(e) + rest) == ParseTail(l, e, rest)
  {
    hide ParseLevel;
    assert Print(e) + rest == Print(e.l) + after;
    assert after[1..] == Print(e.r) + rest;
  }

  /** Which trees a token list has. */
  ghost predicate Spells(toks: seq<Tok>, e: Expr) {
    WellFormed(e) && Print(e) == toks
  }

  lemma SpellsExactlyWhenParsed(toks: seq<Tok>, e: Expr)
    ensures Spells(toks, e) <==> ParseLevel(0, toks) == Done(e, [])
  {
    if Spells(toks, e) {
      LevelComplete(0, e, []);
      assert Print(e) + [] == toks;
    }
    LevelSound(0, toks);
    if ParseLevel(0, toks) == Done(e, []) {
      assert Print(e) + [] == Print(e);
    }
  }

  /** A token list has at most one tree. */
  lemma GrammarIsUnambiguous(toks: seq<Tok>, x: Expr, y: Expr)
    requires Spells(toks, x) && Spells(toks, y)
    ensures x == y
  {
    SpellsExactlyWhenParsed(toks, x);
    SpellsExactlyWhenParsed(toks, y);
  }

  // ----- Parenthesising a tree -----

  predicate NoParens(e: Expr) {
    match e
    case Neg(x) => NoParens(x)
    case Paren(_) => false
    case Bin(_, l, r) => NoParens(l) && NoParens(r)
    case _ => true
  }

  function Wrap(e: Expr, l: nat): Expr {
    if LevelOf(e) >= l then e else Paren(e)
  }

  /** The tree with parentheses exactly where an operand would otherwise be taken apart. */
  function Parenthesised(e: Expr): Expr {
    match e
    case Neg(x) => Neg(Wrap(Parenthesised(x), PRIMARY))
    case Bin(op, l, r) => Bin(op, Wrap(Parenthesised(l), Level(op)), Wrap(Parenthesised(r), Level(op) + 1))
    case _ => e
  }

  function Stripped(e: Expr): Expr {
    match e
    case Neg(x) => Neg(Stripped(x))
    case Paren(x) => Stripped(x)
    case Bin(op, l, r) => Bin(op, Stripped(l), Stripped(r))
    case _ => e
  }

  lemma {:induction false} ParenthesisedKeepsTree(e: Expr, names: map<string, int>)
    requires NoParens(e)
    ensures WellFormed(Parenthesised(e)) && Stripped(Parenthesised(e)) == e
    ensures LevelOf(Parenthesised(e)) == LevelOf(e)
    ensures Value(Parenthesised(e), names) == Value(e, names)
  {
    hide BitOr, Pow2, LiteralValue;
    match e
    case Neg(x) => ParenthesisedKeepsTree(x, names);
    case Bin(op, l, r) =>
      ParenthesisedKeepsTree(l, names);
      ParenthesisedKeepsTree(r, names);
    case _ =>
  }

  /** A tree written with the parentheses it needs evaluates to its value, with C's precedences and associativity. */
  lemma MinimalTokensEvaluate(e: Expr, names: map<string, int>)
    requires NoParens(e)
    ensures Spells(Print(Parenthesised(e)), Parenthesised(e))
    ensures forall x :: Spells(Print(Parenthesised(e)), x) ==> Value(x, names) == Value(e, names) && Stripped(x) == e
  {
    ParenthesisedKeepsTree(e, names);
    forall x | Spells(Print(Parenthesised(e)), x)
      ensures x == Parenthesised(e)
    {
      GrammarIsUnambiguous(Print(Parenthesised(e)), x, Parenthesised(e));
    }
  }

  /** No way of writing a tree takes fewer tokens. */
  lemma {:induction false} FewestTokens(x: Expr)
    requires WellFormed(x)
    ensures |Print(Parenthesised(Stripped(x)))| + (if LevelOf(Stripped(x)) < LevelOf(x) then 2 else 0) <= |Print(x)|
  {
    match x
    case Neg(y) => FewestTokens(y);
    case Paren(y) => FewestTokens(y);
    case Bin(op, l, r) =>
      FewestTokens(l);
      FewestTokens(r);
      WrappedLength(Parenthesised(Stripped(l)), Level(op));
      WrappedLength(Parenthesised(Stripped(r)), Level(op) + 1);
    case _ =>
  }

  lemma WrappedLength(e: Expr, l: nat)
    ensures |Print(Wrap(e, l))| == |Print(e)| + if LevelOf(e) >= l then 0 else 2
  {
  }
}
