// The evaluator of enum expressions: recursive descent over a token list with one shared position.

module CEvaluator {
  import opened Wrappers
  import opened CEnum
  import opened CMeaning

  /** What a parse of `s` at level `l` evaluates to, if it parses and evaluates. */
  function ValueOf(p: Parsed, names: map<string, int>): Option<int> {
    if p.Done? then Value(p.e, names) else None
  }

  /** A tail keeps an operand that has no value from ever getting one. */
  lemma {:induction false} TailNeedsLeft(l: nat, acc: Expr, s: seq<Tok>, names: map<string, int>)
    requires l < PRIMARY && Value(acc, names).None?
    ensures ValueOf(ParseTail(l, acc, s), names).None?
    decreases |s|
  {
    hide BitOr, Pow2, LiteralValue;
    if AtOp(l, s) {
      var p := ParseLevel(l + 1, s[1..]);
      if p.Done? {
        TailNeedsLeft(l, Bin(OpOf(s[0]).value, acc, p.e), p.rest, names);
      }
    }
  }

  /** The tree so far with one more operator and operand of the level. */
  function Grown(acc: Expr, s: seq<Tok>, l: nat): Expr
    requires l < PRIMARY && AtOp(l, s)
  {
    var p := ParseLevel(l + 1, s[1..]);
    if p.Done? then Bin(OpOf(s[0]).value, acc, p.e) else acc
  }

  lemma TailUnfolds(l: nat, acc: Expr, s: seq<Tok>, names: map<string, int>)
    requires l < PRIMARY && AtOp(l, s)
    ensures var p := ParseLevel(l + 1, s[1..]);
            && (p.Done? ==> ParseTail(l, acc, s) == ParseTail(l, Grown(acc, s, l), p.rest))
            && (ValueOf(p, names).None? ==> ValueOf(ParseTail(l, acc, s), names).None?)
            && (ValueOf(p, names).Some? && Value(acc, names).Some? ==>
                  Value(Grown(acc, s, l), names) ==
                  Apply(OpOf(s[0]).value, Value(acc, names).value, ValueOf(p, names).value))
  {
    hide BitOr, Pow2, LiteralValue;
    var p := ParseLevel(l + 1, s[1..]);
    if p.Done? && ValueOf(p, names).None? {
      TailNeedsLeft(l, Bin(OpOf(s[0]).value, acc, p.e), p.rest, names);
    }
  }

  lemma TailEnds(l: nat, acc: Expr, s: seq<Tok>)
    requires l < PRIMARY && !AtOp(l, s)
    ensures ParseTail(l, acc, s) == Done(acc, s)
  {
  }

  lemma LevelUnfolds(l: nat, s: seq<Tok>, names: map<string, int>)
    requires l < PRIMARY
    ensures var p := ParseLevel(l + 1, s);
            && (p.Done? ==> ParseLevel(l, s) == ParseTail(l, p.e, p.rest))
            && (ValueOf(p, names).None? ==> ValueOf(ParseLevel(l, s), names).None?)
  {
    var p := ParseLevel(l + 1, s);
    if p.Done? && ValueOf(p, names).None? {
      TailNeedsLeft(l, p.e, p.rest, names);
    }
  }

  lemma PrimaryIsTop(s: seq<Tok>)
    ensures ParseLevel(PRIMARY, s) == ParsePrimary(s)
  {
  }

  // The tokens each loop looks for are the operators of its level.

  lemma AtStar(s: seq<Tok>)
    ensures AtOp(3, s) <==> s != [] && s[0] == Star
  {
  }

  lemma AtPlusOrMinus(s: seq<Tok>)
    ensures AtOp(2, s) <==> s != [] && (s[0] == Plus || s[0] == Minus)
  {
  }

  lemma AtShl(s: seq<Tok>)
    ensures AtOp(1, s) <==> s != [] && s[0] == Shl
  {
  }

  lemma AtBar(s: seq<Tok>)
    ensures AtOp(0, s) <==> s != [] && s[0] == Bar
  {
  }

  lemma AppliesProduct(a: int, b: int)
    ensures Apply(OpOf(Star).value, a, b) == Some(a * b)
  {
  }

  lemma AppliesSum(t: Tok, a: int, b: int)
    requires t == Plus || t == Minus
    ensures Apply(OpOf(t).value, a, b) == Some(if t == Plus then a + b else a - b)
  {
  }

  lemma AppliesShift(a: int, b: int)
    ensures Apply(OpOf(Shl).value, a, b) == if b < 0 then None else Some(a * Pow2(b))
  {
  }

  lemma AppliesOr(a: int, b: int)
    ensures Apply(OpOf(Bar).value, a, b) == Some(BitOr(a, b))
  {
  }

  class Evaluator {
    const toks: seq<Tok>
    const names: map<string, int>
    var pos: nat

    constructor (toks: seq<Tok>, names: map<string, int>)
      ensures this.toks == toks && this.names == names && pos == 0
    {
      this.toks, this.names, pos := toks, names, 0;
    }

    /** The tokens not taken yet. */
    function Rest(): seq<Tok>
      reads this
    {
      if pos <= |toks| then toks[pos..] else []
    }

    function Peek(): (t: Option<Tok>)
      reads this
      ensures t.Some? <==> Rest() != []
      ensures t.Some? ==> t.value == Rest()[0]
    {
      if pos < |toks| then Some(toks[pos]) else None
    }

    function PeekSum(): (b: bool)
      reads this
      ensures b <==> AtOp(2, Rest())
    {
      AtPlusOrMinus(Rest());
      Peek() == Some(Plus) || Peek() == Some(Minus)
    }

    /** The next token; past the end there is none, and the position moves all the same. */
    method Take() returns (t: Option<Tok>)
      modifies this
      ensures t == old(Peek()) && pos == old(pos) + 1
      ensures Rest() == if old(Rest()) == [] then [] else old(Rest())[1..]
    {
      t := Peek();
      pos := pos + 1;
    }

    /** The value read agrees with a parse of what was left, and takes the tokens the parse takes. */
    ghost predicate Agrees(r: Option<int>, p: Parsed)
      reads this
    {
      r == ValueOf(p, names) && (r.Some? ==> Rest() == p.rest)
    }

    method Primary() returns (r: Option<int>)
      modifies this
      ensures Agrees(r, ParsePrimary(old(Rest())))
      decreases |Rest()|, 0
    {
      hide BitOr, Pow2, Apply, LiteralValue, ParseLevel, ParseTail;
      var t := Take();
      match t
      case None => return None;
      case Some(LParen) =>
        var v := BitOrs();
        if v.None? {
          return None;
        }
        var close := Take();
        if close != Some(RParen) {
          return None;
        }
        return v;
      case Some(Minus) =>
        var v := Primary();
        if v.None? {
          return None;
        }
        return Some(-v.value);
      case Some(Lit(text)) => return Some(LiteralValue(text));
      case Some(Id(name)) => return if name in names then Some(names[name]) else None;
      case _ => return None;
    }

    method Muls() returns (r: Option<int>)
      modifies this
      ensures Agrees(r, ParseLevel(3, old(Rest())))
      decreases |Rest()|, 1
    {
      hide BitOr, Pow2, Apply, OpOf, Value, ParseLevel, ParseTail, AtOp, Grown, LiteralValue;
      ghost var s := Rest();
      LevelUnfolds(3, s, names);
      PrimaryIsTop(s);
      var first := Primary();
      if first.None? {
        return None;
      }
      var v := first.value;
      ghost var acc := ParseLevel(4, s).e;
      while Peek() == Some(Star)
        invariant Value(acc, names) == Some(v) && |Rest()| < |s|
        invariant ParseLevel(3, s) == ParseTail(3, acc, Rest())
        decreases |Rest()|
      {
        ghost var here := Rest();
        AtStar(here);
        TailUnfolds(3, acc, here, names);
        acc := Grown(acc, here, 3);
        PrimaryIsTop(here[1..]);
        var _ := Take();
        var right := Primary();
        if right.None? {
          return None;
        }
        AppliesProduct(v, right.value);
        v := v * right.value;
      }
      AtStar(Rest());
      TailEnds(3, acc, Rest());
      r := Some(v);
    }

    method Adds() returns (r: Option<int>)
      modifies this
      ensures Agrees(r, ParseLevel(2, old(Rest())))
      decreases |Rest()|, 2
    {
      hide BitOr, Pow2, Apply, OpOf, Value, ParseLevel, ParseTail, AtOp, Grown, LiteralValue, PeekSum, Rest;
      ghost var s := Rest();
      LevelUnfolds(2, s, names);
      var first := Muls();
      if first.None? {
        return None;
      }
      var v := first.value;
      ghost var acc := ParseLevel(3, s).e;
      while PeekSum()
        invariant Value(acc, names) == Some(v) && |Rest()| < |s|
        invariant ParseLevel(2, s) == ParseTail(2, acc, Rest())
        decreases |Rest()|
      {
        var sum, grown := Term(v, acc);
        if sum.None? {
          return None;
        }
        v, acc := sum.value, grown;
      }
      TailEnds(2, acc, Rest());
      r := Some(v);
    }

    /** One more operand of a sum, where a plus or minus is next. */
    method Term(v: int, ghost acc: Expr) returns (r: Option<int>, ghost grown: Expr)
      modifies this
      ensures AtOp(2, old(Rest())) && Value(acc, names) == Some(v) ==>
                if r.None? then ValueOf(ParseTail(2, acc, old(Rest())), names).None?
                else
                  && ParseTail(2, acc, old(Rest())) == ParseTail(2, grown, Rest())
                  && Value(grown, names) == r && |Rest()| < |old(Rest())|
      decreases |Rest()|, 2
    {
      hide BitOr, Pow2, Apply, OpOf, Value, ParseLevel, ParseTail, AtOp, Grown, LiteralValue, PeekSum;
      ghost var here := Rest();
      grown := acc;
      AtPlusOrMinus(here);
      if AtOp(2, here) {
        TailUnfolds(2, acc, here, names);
        grown := Grown(acc, here, 2);
      }
      var op := Take();
      var right := Muls();
      if right.None? {
        return None, grown;
      }
      if AtOp(2, here) {
        AppliesSum(here[0], v, right.value);
      }
      r := Some(if op == Some(Plus) then v + right.value else v - right.value);
    }

    method Shifts() returns (r: Option<int>)
      modifies this
      ensures Agrees(r, ParseLevel(1, old(Rest())))
      decreases |Rest()|, 3
    {
      hide BitOr, Pow2, Apply, OpOf, Value, ParseLevel, ParseTail, AtOp, Grown, LiteralValue;
      ghost var s := Rest();
      LevelUnfolds(1, s, names);
      var first := Adds();
      if first.None? {
        return None;
      }
      var v := first.value;
      ghost var acc := ParseLevel(2, s).e;
      while Peek() == Some(Shl)
        invariant Value(acc, names) == Some(v) && |Rest()| < |s|
        invariant ParseLevel(1, s) == ParseTail(1, acc, Rest())
        decreases |Rest()|
      {
        ghost var here := Rest();
        AtShl(here);
        TailUnfolds(1, acc, here, names);
        acc := Grown(acc, here, 1);
        var _ := Take();
        var right := Adds();
        if right.None? {
          return None;
        }
        AppliesShift(v, right.value);
        if right.value < 0 {
          // A negative shift count is an error of the arithmetic itself.
          TailNeedsLeft(1, acc, Rest(), names);
          return None;
        }
        v := v * Pow2(right.value);
      }
      AtShl(Rest());
      TailEnds(1, acc, Rest());
      r := Some(v);
    }

    method BitOrs() returns (r: Option<int>)
      modifies this
      ensures Agrees(r, ParseLevel(0, old(Rest())))
      decreases |Rest()|, 4
    {
      hide BitOr, Pow2, Apply, OpOf, Value, ParseLevel, ParseTail, AtOp, Grown, LiteralValue;
      ghost var s := Rest();
      LevelUnfolds(0, s, names);
      var first := Shifts();
      if first.None? {
        return None;
      }
      var v := first.value;
      ghost var acc := ParseLevel(1, s).e;
      while Peek() == Some(Bar)
        invariant Value(acc, names) == Some(v) && |Rest()| < |s|
        invariant ParseLevel(0, s) == ParseTail(0, acc, Rest())
        decreases |Rest()|
      {
        ghost var here := Rest();
        AtBar(here);
        TailUnfolds(0, acc, here, names);
        acc := Grown(acc, here, 0);
        var _ := Take();
        var right := Shifts();
        if right.None? {
          return None;
        }
        AppliesOr(v, right.value);
        v := BitOr(v, right.value);
      }
      AtBar(Rest());
      TailEnds(0, acc, Rest());
      r := Some(v);
    }
  }

  /**
   * Evaluate a token list: the value of its one tree, or an error when it has no tree or the tree has no value. The
   * value is what the tree means.
   */
  method EvalCExpr(toks: seq<Tok>, names: map<string, int>) returns (r: Option<int>)
    ensures forall v :: r == Some(v) <==> exists e :: Spells(toks, e) && Value(e, names) == Some(v)
    ensures TokensOk(toks) ==> forall v :: r == Some(v) <==> exists e :: Spells(toks, e) && Means(e, names, v)
  {
    hide Spells, Means, TokensOk, Value, ParseLevel;
    var ev := new Evaluator(toks, names);
    assert toks[0..] == toks;
    ghost var p := ParseLevel(0, toks);
    var value := ev.BitOrs();
    r := if value.Some? && ev.Peek().None? then value else None;
    assert r == if p.Done? && p.rest == [] then Value(p.e, names) else None;
    if p.Done? {
      SpellsExactlyWhenParsed(toks, p.e);
    }
    forall e | Spells(toks, e)
      ensures p == Done(e, [])
      ensures TokensOk(toks) ==> forall v :: Value(e, names) == Some(v) <==> Means(e, names, v)
    {
      SpellsExactlyWhenParsed(toks, e);
      if TokensOk(toks) {
        forall v
          ensures Value(e, names) == Some(v) <==> Means(e, names, v)
        {
          SpelledMeaning(toks, e, names, v);
        }
      }
    }
  }
}
