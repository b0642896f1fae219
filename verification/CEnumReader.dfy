// Reading a C enum: which enumerators an enum has and what their values are (ISO C11, section 6.7.2.2).

module CEnumReader {
  import opened Wrappers
  import opened CEnum
  import opened CEvaluator

  /** One enumerator: its name, and the tokens after `=` when it has them. */
  datatype Enumerator = Enumerator(name: string, expr: Option<seq<Tok>>)

  /** A letter or underscore, then word characters; which characters beyond ASCII are such is Unicode's to say. */
  predicate IsIdentifier(name: string, word: char -> bool) {
    && name != ""
    && IdentStart(name[0])
    && forall i :: 1 <= i < |name| ==>
         IdentStart(name[i]) || '0' <= name[i] <= '9' || ('\U{7F}' < name[i] && word(name[i]))
  }

  predicate IdentStart(c: char) {
    'a' <= c <= 'z' || 'A' <= c <= 'Z' || c == '_'
  }

  function NamesOf(out: seq<(string, int)>): map<string, int> {
    if out == [] then map[] else NamesOf(out[..|out| - 1])[out[|out| - 1].0 := out[|out| - 1].1]
  }

  /** The value section 6.7.2.2 gives enumerator `i`: that of its expression, else one more than the one before it. */
  ghost predicate ValueAt(items: seq<Enumerator>, out: seq<(string, int)>, i: nat)
    requires i < |items| && i < |out|
  {
    match items[i].expr
    case Some(toks) => exists e :: Spells(toks, e) && Value(e, NamesOf(out[..i])) == Some(out[i].1)
    case None => out[i].1 == if i == 0 then 0 else out[i - 1].1 + 1
  }

  ghost predicate Enumerates(items: seq<Enumerator>, out: seq<(string, int)>, word: char -> bool) {
    && |out| == |items|
    && (forall i :: 0 <= i < |items| ==> out[i].0 == items[i].name && IsIdentifier(items[i].name, word))
    && (forall i, j :: 0 <= i < j < |items| ==> items[i].name != items[j].name)
    && (forall i :: 0 <= i < |items| ==> ValueAt(items, out, i))
  }

  lemma {:induction false} NamesOfKeys(out: seq<(string, int)>, name: string)
    ensures name in NamesOf(out) <==> exists i :: 0 <= i < |out| && out[i].0 == name
  {
    if out != [] {
      NamesOfKeys(out[..|out| - 1], name);
    }
  }

  /** A longer list's values, names and order start with those of its prefix. */
  lemma EnumeratesPrefix(items: seq<Enumerator>, out: seq<(string, int)>, k: nat, word: char -> bool)
    requires Enumerates(items, out, word) && k <= |items|
    ensures Enumerates(items[..k], out[..k], word)
  {
    forall i | 0 <= i < k
      ensures ValueAt(items[..k], out[..k], i)
    {
      assert ValueAt(items, out, i);
      assert out[..k][..i] == out[..i];
    }
  }

  /** The values are determined: there is one reading of an enum. */
  lemma {:induction false} EnumIsDetermined(items: seq<Enumerator>, x: seq<(string, int)>, y: seq<(string, int)>,
      word: char -> bool)
    requires Enumerates(items, x, word) && Enumerates(items, y, word)
    ensures x == y
  {
    if items != [] {
      var n := |items| - 1;
      EnumeratesPrefix(items, x, n, word);
      EnumeratesPrefix(items, y, n, word);
      EnumIsDetermined(items[..n], x[..n], y[..n], word);
      assert ValueAt(items, x, n) && ValueAt(items, y, n);
      assert n > 0 ==> x[n - 1] == x[..n][n - 1] && y[n - 1] == y[..n][n - 1];
      if items[n].expr.Some? {
        var toks := items[n].expr.value;
        var e :| Spells(toks, e) && Value(e, NamesOf(x[..n])) == Some(x[n].1);
        var f :| Spells(toks, f) && Value(f, NamesOf(y[..n])) == Some(y[n].1);
        GrammarIsUnambiguous(toks, e, f);
      }
      assert x == x[..n] + [x[n]] && y == y[..n] + [y[n]];
    }
  }

  lemma EnumeratesSnoc(items: seq<Enumerator>, out: seq<(string, int)>, k: nat, value: int, word: char -> bool)
    requires k < |items| && Enumerates(items[..k], out, word) && IsIdentifier(items[k].name, word)
             && items[k].name !in NamesOf(out)
    requires ValueGiven(items[k], out, value)
    ensures Enumerates(items[..k + 1], out + [(items[k].name, value)], word)
    ensures NamesOf(out + [(items[k].name, value)]) == NamesOf(out)[items[k].name := value]
  {
    hide ValueAt, ValueGiven, IsIdentifier;
    var last := (items[k].name, value);
    var now, some := out + [last], items[..k + 1];
    assert now[..k] == out;
    assert forall i :: 0 <= i < k ==> some[i] == items[..k][i] && now[i] == out[i];
    NamesOfKeys(out, items[k].name);
    forall i | 0 <= i < |some|
      ensures ValueAt(some, now, i)
    {
      ValueAtSnoc(items, out, k, value, i, word);
    }
  }

  /** The value an enumerator takes after those in `out`. */
  ghost predicate ValueGiven(item: Enumerator, out: seq<(string, int)>, value: int) {
    match item.expr
    case Some(toks) => exists e :: Spells(toks, e) && Value(e, NamesOf(out)) == Some(value)
    case None => value == if out == [] then 0 else out[|out| - 1].1 + 1
  }

  lemma ValueAtSnoc(items: seq<Enumerator>, out: seq<(string, int)>, k: nat, value: int, i: nat, word: char -> bool)
    requires i <= k < |items| && Enumerates(items[..k], out, word) && ValueGiven(items[k], out, value)
    ensures ValueAt(items[..k + 1], out + [(items[k].name, value)], i)
  {
    hide Spells, Value;
    var now := out + [(items[k].name, value)];
    if i < k {
      assert ValueAt(items[..k], out, i);
      assert now[..i] == out[..i];
    } else {
      assert now[..i] == out;
    }
  }

  method ParseCEnum(items: seq<Enumerator>, word: char -> bool) returns (r: Option<seq<(string, int)>>)
    ensures forall out :: r == Some(out) <==> Enumerates(items, out, word)
  {
    hide Enumerates, Spells, Value;
    var names: map<string, int> := map[];
    var out: seq<(string, int)> := [];
    var nextValue := 0;
    NoItems(word);
    for k := 0 to |items|
      invariant |out| == k && Enumerates(items[..k], out, word) && names == NamesOf(out)
      invariant nextValue == if k == 0 then 0 else out[k - 1].1 + 1
    {
      var item := items[k];
      var value := nextValue;
      if item.expr.Some? {
        var v := EvalCExpr(item.expr.value, names);
        if v.None? {
          assert forall u :: !ValueGiven(item, out, u);
          NoneBeyond(items, out, k, word);
          return None;
        }
        value := v.value;
      }
      if !IsIdentifier(item.name, word) || item.name in names {
        NoneBeyond(items, out, k, word);
        return None;
      }
      assert ValueGiven(item, out, value);
      EnumeratesSnoc(items, out, k, value, word);
      out := out + [(item.name, value)];
      names := names[item.name := value];
      nextValue := value + 1;
    }
    assert items[..|items|] == items;
    forall x: seq<(string, int)> | Enumerates(items, x, word)
      ensures x == out
    {
      EnumIsDetermined(items, x, out, word);
    }
    r := Some(out);
  }

  lemma NoItems(word: char -> bool)
    ensures Enumerates([], [], word)
  {
  }

  /** When enumerator `k` cannot follow the only reading of those before it, the enum has no reading. */
  lemma NoneBeyond(items: seq<Enumerator>, out: seq<(string, int)>, k: nat, word: char -> bool)
    requires k < |items| && Enumerates(items[..k], out, word)
    requires !IsIdentifier(items[k].name, word) || items[k].name in NamesOf(out)
             || forall v :: !ValueGiven(items[k], out, v)
    ensures forall x :: !Enumerates(items, x, word)
  {
    hide ValueGiven, IsIdentifier;
    forall x: seq<(string, int)> | Enumerates(items, x, word)
      ensures false
    {
      EnumeratesPrefix(items, x, k, word);
      EnumIsDetermined(items[..k], x[..k], out, word);
      ValueAtGives(items, x, k, word);
      NamesOfKeys(out, items[k].name);
      forall i | 0 <= i < |out|
        ensures out[i].0 != items[k].name
      {
        assert out[i].0 == items[..k][i].name == items[i].name;
      }
    }
  }

  lemma ValueAtGives(items: seq<Enumerator>, x: seq<(string, int)>, k: nat, word: char -> bool)
    requires k < |items| && Enumerates(items, x, word)
    ensures ValueGiven(items[k], x[..k], x[k].1) && IsIdentifier(items[k].name, word)
  {
    assert ValueAt(items, x, k);
    assert x[k].0 == items[k].name;
  }

  // ----- Names -----

  const CAPITALS := "ABCDEFGHIJKLMNOPQRSTUVWXYZ"
  const SMALL_LETTERS := "abcdefghijklmnopqrstuvwxyz"
  const DECIMALS := "0123456789"

  predicate Letter(c: char) {
    c in CAPITALS || c in SMALL_LETTERS || c == '_'
  }

  /** A name in ASCII is letters, digits and underscores, and does not begin with a digit. */
  lemma NameExactlyWhen(name: string, word: char -> bool)
    requires forall c :: c in name ==> c < '\U{80}'
    ensures IsIdentifier(name, word) <==>
            && name != "" && Letter(name[0])
            && forall i :: 0 <= i < |name| ==> Letter(name[i]) || name[i] in DECIMALS
  {
    hide Letter, IdentStart;
    forall i | 0 <= i < |name|
      ensures Letter(name[i]) <==> IdentStart(name[i])
      ensures name[i] in DECIMALS <==> '0' <= name[i] <= '9'
      ensures !('\U{7F}' < name[i])
    {
      LetterIs(name[i]);
      DecimalIs(name[i]);
      assert name[i] in name;
    }
  }

  lemma LetterIs(c: char)
    ensures Letter(c) <==> IdentStart(c)
  {
    hide CAPITALS, SMALL_LETTERS;
    CapitalIs(c);
    SmallLetterIs(c);
  }

  lemma CapitalIs(c: char)
    ensures c in CAPITALS <==> 'A' <= c <= 'Z'
  {
    if 'A' <= c <= 'Z' {
      assert CAPITALS[c as int - 'A' as int] == c;
    }
  }

  lemma SmallLetterIs(c: char)
    ensures c in SMALL_LETTERS <==> 'a' <= c <= 'z'
  {
    if 'a' <= c <= 'z' {
      assert SMALL_LETTERS[c as int - 'a' as int] == c;
    }
  }

  lemma DecimalIs(c: char)
    ensures c in DECIMALS <==> '0' <= c <= '9'
  {
    if '0' <= c <= '9' {
      assert DECIMALS[c as int - '0' as int] == c;
    }
  }
}
