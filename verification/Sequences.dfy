// Removing one element, and subsequences.

module Sequences {
  function RemoveAt<T>(s: seq<T>, i: nat): (r: seq<T>)
    requires i < |s|
    ensures |r| == |s| - 1
    ensures forall j :: 0 <= j < |r| ==> r[j] == if j < i then s[j] else s[j + 1]
  {
    s[..i] + s[i + 1..]
  }

  lemma RemoveAtMultiset<T>(s: seq<T>, i: nat)
    requires i < |s|
    ensures multiset(RemoveAt(s, i)) + multiset{s[i]} == multiset(s)
  {
    assert s == s[..i] + [s[i]] + s[i + 1..];
  }

  // ----- Subsequences -----

  ghost predicate Subseq<T>(xs: seq<T>, ys: seq<T>) {
    if xs == [] then true
    else if ys == [] then false
    else (xs[0] == ys[0] && Subseq(xs[1..], ys[1..])) || Subseq(xs, ys[1..])
  }

  lemma {:induction false} SubseqSelf<T>(xs: seq<T>)
    ensures Subseq(xs, xs)
  {
    if xs != [] {
      SubseqSelf(xs[1..]);
    }
  }

  lemma {:induction false} SubseqSnoc<T>(xs: seq<T>, ys: seq<T>, z: T)
    requires Subseq(xs, ys)
    ensures Subseq(xs + [z], ys + [z])
    decreases |ys|
  {
    if ys == [] {
      assert xs + [z] == [z] && [z][1..] == [];
    } else {
      assert (ys + [z])[1..] == ys[1..] + [z];
      if xs != [] && xs[0] == ys[0] && Subseq(xs[1..], ys[1..]) {
        SubseqSnoc(xs[1..], ys[1..], z);
        assert (xs + [z])[1..] == xs[1..] + [z];
      } else {
        SubseqSnoc(xs, ys[1..], z);
      }
    }
  }

  lemma {:induction false} SubseqRemove<T>(xs: seq<T>, i: nat, ys: seq<T>)
    requires i < |xs| && Subseq(xs, ys)
    ensures Subseq(RemoveAt(xs, i), ys)
    decreases |ys|
  {
    if xs[0] == ys[0] && Subseq(xs[1..], ys[1..]) {
      if i == 0 {
        assert RemoveAt(xs, 0) == xs[1..];
      } else {
        SubseqRemove(xs[1..], i - 1, ys[1..]);
        assert RemoveAt(xs, i)[1..] == RemoveAt(xs[1..], i - 1);
      }
    } else {
      SubseqRemove(xs, i, ys[1..]);
    }
  }
}
