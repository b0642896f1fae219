// The report's collapsing of runs of successful leaf spans (src/diag.rs).

module DiagReport {
  import opened Wrappers
  import opened DiagRecords

  /** What a line of the report says of the entries behind it. */
  datatype Run = Run(first: Entry, last: Entry, count: nat)

  predicate Mergeable(e: Entry) {
    e.kind.Span? && e.cls.Leaf? && e.outcome == Some(Success)
  }

  predicate Joins(x: Entry, y: Entry) {
    Mergeable(x) && Mergeable(y) && x.subsystem == y.subsystem && x.op == y.op && x.thread == y.thread
  }

  function RunOf(group: seq<Entry>): Run
    requires group != []
  {
    Run(group[0], group[|group| - 1], |group|)
  }

  function Flatten(groups: seq<seq<Entry>>): seq<Entry> {
    if groups == [] then [] else Flatten(groups[..|groups| - 1]) + groups[|groups| - 1]
  }

  predicate Together(group: seq<Entry>) {
    group != [] && forall i :: 0 < i < |group| ==> Joins(group[i - 1], group[i])
  }

  /** The entries cut exactly where two neighbours do not join. */
  predicate Cut(groups: seq<seq<Entry>>) {
    && (forall g <- groups :: Together(g))
    && (forall i :: 0 < i < |groups| && groups[i - 1] != [] && groups[i] != [] ==>
          !Joins(groups[i - 1][|groups[i - 1]| - 1], groups[i][0]))
  }

  lemma Longer(groups: seq<seq<Entry>>, e: Entry)
    requires Cut(groups)
    ensures var n := |groups| - 1;
            if groups != [] && groups[n] != [] && Joins(groups[n][|groups[n]| - 1], e) then
              Cut(groups[n := groups[n] + [e]]) && Flatten(groups[n := groups[n] + [e]]) == Flatten(groups) + [e]
            else Cut(groups + [[e]]) && Flatten(groups + [[e]]) == Flatten(groups) + [e]
  {
    var n := |groups| - 1;
    if groups != [] && groups[n] != [] && Joins(groups[n][|groups[n]| - 1], e) {
      var more := groups[n := groups[n] + [e]];
      assert more[..n] == groups[..n];
      assert Together(groups[n]);
      forall g <- more ensures Together(g) {
        assert g in groups || g == groups[n] + [e];
      }
    } else {
      var more := groups + [[e]];
      assert more[..|groups|] == groups;
      forall g <- more ensures Together(g) {
        assert g in groups || g == [e];
      }
      if groups != [] {
        assert Together(groups[n]);
      }
    }
  }

  /** The lines are those of a cut of all the entries. */
  ghost predicate LinesOf(out: seq<Run>, entries: seq<Entry>, groups: seq<seq<Entry>>) {
    && Flatten(groups) == entries && Cut(groups)
    && |out| == |groups| && forall i :: 0 <= i < |out| ==> groups[i] != [] && out[i] == RunOf(groups[i])
  }

  /** Collapse: a line for each run, none left out, split or joined across a failure. */
  method Aggregated(entries: seq<Entry>) returns (out: seq<Run>)
    ensures exists groups :: LinesOf(out, entries, groups)
    ensures Collapsed(out, entries)
  {
    hide Joins, Cut, Flatten;
    ghost var groups: seq<seq<Entry>> := [];
    out := [];
    NothingCut();
    for i := 0 to |entries|
      invariant Flatten(groups) == entries[..i] && Cut(groups)
      invariant |out| == |groups| && forall k :: 0 <= k < |out| ==> groups[k] != [] && out[k] == RunOf(groups[k])
    {
      var e, n := entries[i], |out| - 1;
      Longer(groups, e);
      assert entries[..i + 1] == entries[..i] + [e];
      if out != [] && Joins(out[n].last, e) {
        out := out[n := out[n].(last := e, count := out[n].count + 1)];
        groups := groups[n := groups[n] + [e]];
      } else {
        out := out + [Run(e, e, 1)];
        groups := groups + [[e]];
      }
    }
    assert entries[..|entries|] == entries;
    assert LinesOf(out, entries, groups);
    LinesCollapse(out, entries, groups);
  }

  /** A successful leaf span, with the subsystem, operation and thread of another entry. */
  predicate AlikeTo(e: Entry, other: Entry) {
    && e.kind == Span && e.cls == Leaf && e.outcome == Some(Success)
    && e.subsystem == other.subsystem && e.op == other.op && e.thread == other.thread
  }

  /**
   * Each line stands for the entries from `from[i]` up to the next line's: for one entry of any kind, or for several
   * successful leaf spans alike in subsystem, operation and thread; and two neighbouring lines are not alike so.
   */
  ghost predicate CollapsedAt(out: seq<Run>, entries: seq<Entry>, from: seq<nat>) {
    && |from| == |out| + 1 && from[0] == 0 && from[|out|] == |entries|
    && (forall i :: 0 <= i < |out| ==> StandsFor(out[i], entries, from[i], from[i + 1]))
    && (forall i :: 0 < i < |out| ==>
          !(AlikeTo(out[i - 1].last, out[i].first) && AlikeTo(out[i].first, out[i].first)))
  }

  ghost predicate StandsFor(line: Run, entries: seq<Entry>, lo: nat, hi: nat) {
    && lo < hi <= |entries| && line == Run(entries[lo], entries[hi - 1], hi - lo)
    && (line.count > 1 ==> forall k :: lo <= k < hi ==>
          AlikeTo(entries[k], line.first))
  }

  ghost predicate Collapsed(out: seq<Run>, entries: seq<Entry>) {
    exists from :: CollapsedAt(out, entries, from)
  }

  lemma LinesCollapse(out: seq<Run>, entries: seq<Entry>, groups: seq<seq<Entry>>)
    requires LinesOf(out, entries, groups)
    ensures Collapsed(out, entries)
  {
    hide Joins, Flatten, Cut, StandsFor;
    var from := Starts(groups);
    StartsAre(groups);
    forall i | 0 <= i < |out|
      ensures StandsFor(out[i], entries, from[i], from[i + 1])
    {
      assert GroupAt(groups, i);
      GroupIsTogether(groups, i);
      LineStandsFor(out[i], entries, from[i], from[i + 1]);
    }
    forall i | 0 < i < |out|
      ensures !(AlikeTo(out[i - 1].last, out[i].first) && AlikeTo(out[i].first, out[i].first))
    {
      NeighboursDiffer(groups, i);
    }
    assert CollapsedAt(out, entries, from);
  }

  lemma LineStandsFor(line: Run, entries: seq<Entry>, lo: nat, hi: nat)
    requires lo < hi <= |entries| && Together(entries[lo..hi]) && line == RunOf(entries[lo..hi])
    ensures StandsFor(line, entries, lo, hi)
  {
    hide Joins, AlikeTo;
    var group := entries[lo..hi];
    if hi - lo > 1 {
      AllAlike(group, |group| - 1);
      forall k | lo <= k < hi
        ensures AlikeTo(entries[k], line.first)
      {
        assert entries[k] == group[k - lo];
      }
    }
  }

  function Starts(groups: seq<seq<Entry>>): (r: seq<nat>)
    ensures |r| == |groups| + 1 && r[|groups|] == |Flatten(groups)|
  {
    if groups == [] then [0] else Starts(groups[..|groups| - 1]) + [|Flatten(groups)|]
  }

  ghost predicate GroupAt(groups: seq<seq<Entry>>, i: nat)
    requires i < |groups|
  {
    && Starts(groups)[i] <= Starts(groups)[i + 1] <= |Flatten(groups)|
    && Flatten(groups)[Starts(groups)[i]..Starts(groups)[i + 1]] == groups[i]
  }

  lemma GroupIsTogether(groups: seq<seq<Entry>>, i: nat)
    requires Cut(groups) && i < |groups|
    ensures Together(groups[i])
  {
  }

  /** Group `i` is what lies between its start and the next one's. */
  lemma {:induction false} StartsAre(groups: seq<seq<Entry>>)
    ensures Starts(groups)[0] == 0
    ensures forall i :: 0 <= i < |groups| ==> GroupAt(groups, i)
  {
    if groups != [] {
      var n := |groups| - 1;
      var front := groups[..n];
      StartsAre(front);
      forall i | 0 <= i < |groups|
        ensures GroupAt(groups, i)
      {
        if i < n {
          assert GroupAt(front, i) && front[i] == groups[i];
          assert Flatten(groups)[..|Flatten(front)|] == Flatten(front);
        }
      }
    }
  }

  lemma {:induction false} AllAlike(group: seq<Entry>, n: nat)
    requires Together(group) && 0 < n < |group|
    ensures forall k :: 0 <= k <= n ==> AlikeTo(group[k], group[0])
  {
    assert Joins(group[n - 1], group[n]);
    if n > 1 {
      AllAlike(group, n - 1);
    }
  }

  lemma NeighboursDiffer(groups: seq<seq<Entry>>, i: nat)
    requires Cut(groups) && 0 < i < |groups| && groups[i - 1] != [] && groups[i] != []
    ensures var x, y := groups[i - 1][|groups[i - 1]| - 1], groups[i][0];
            !(AlikeTo(x, y) && AlikeTo(y, y))
  {
  }

  lemma NothingCut()
    ensures Cut([]) && Flatten([]) == []
  {
  }

  /** So the report of a list of entries is determined. */
  lemma LinesAreDetermined(x: seq<Run>, y: seq<Run>, entries: seq<Entry>)
    requires (exists groups :: LinesOf(x, entries, groups)) && (exists groups :: LinesOf(y, entries, groups))
    ensures x == y
  {
    hide Cut, Flatten;
    var g :| LinesOf(x, entries, g);
    var h :| LinesOf(y, entries, h);
    CutIsUnique(g, h);
  }

  /** There is one way to cut a list of entries, so the lines are determined. */
  lemma {:induction false} CutIsUnique(x: seq<seq<Entry>>, y: seq<seq<Entry>>)
    requires Cut(x) && Cut(y) && Flatten(x) == Flatten(y)
    ensures x == y
    decreases |x|
  {
    if x == [] || y == [] {
      NotNothing(x);
      NotNothing(y);
    } else {
      var n, m := |x| - 1, |y| - 1;
      LastNoShorter(x, y);
      LastNoShorter(y, x);
      assert Flatten(x)[|Flatten(x[..n])|..] == x[n] && Flatten(y)[|Flatten(y[..m])|..] == y[m];
      assert Flatten(x)[..|Flatten(x[..n])|] == Flatten(x[..n]) && Flatten(y)[..|Flatten(y[..m])|] == Flatten(y[..m]);
      CutFront(x);
      CutFront(y);
      CutIsUnique(x[..n], y[..m]);
      assert x == x[..n] + [x[n]] && y == y[..m] + [y[m]];
    }
  }

  lemma NotNothing(x: seq<seq<Entry>>)
    requires Cut(x)
    ensures x != [] ==> Flatten(x) != []
  {
    if x != [] {
      assert Together(x[|x| - 1]);
    }
  }

  lemma CutFront(x: seq<seq<Entry>>)
    requires Cut(x) && x != []
    ensures Cut(x[..|x| - 1])
  {
  }

  lemma NoJoinBeforeLast(x: seq<seq<Entry>>)
    requires Cut(x) && x != []
    ensures var all, k := Flatten(x), |Flatten(x[..|x| - 1])|;
            && |all| == k + |x[|x| - 1]| && x[|x| - 1] != []
            && (|x| == 1 <==> k == 0)
            && (k > 0 ==> !Joins(all[k - 1], all[k]))
  {
    hide Joins;
    assert Together(x[|x| - 1]);
    CutFront(x);
    NotNothing(x[..|x| - 1]);
    if |x| > 1 {
      assert Together(x[|x| - 2]) && x[..|x| - 1][|x| - 2] == x[|x| - 2];
      EndsWithLast(x[..|x| - 1]);
    }
  }

  lemma EndsWithLast(x: seq<seq<Entry>>)
    requires x != [] && x[|x| - 1] != []
    ensures var g := x[|x| - 1]; Flatten(x) != [] && Flatten(x)[|Flatten(x)| - 1] == g[|g| - 1]
  {
  }

  lemma JoinsWithinLast(y: seq<seq<Entry>>)
    requires Cut(y) && y != []
    ensures var all, k := Flatten(y), |Flatten(y[..|y| - 1])|;
            |all| == k + |y[|y| - 1]| && forall j :: k < j < |all| ==> Joins(all[j - 1], all[j])
  {
    var h := y[|y| - 1];
    assert Together(h);
    var all, k := Flatten(y), |Flatten(y[..|y| - 1])|;
    forall j | k < j < |all| ensures Joins(all[j - 1], all[j]) {
      assert all[j - 1] == h[j - 1 - k] && all[j] == h[j - k];
    }
  }

  /** Where the shorter last group would begin, the longer one has two entries that join. */
  lemma LastNoShorter(x: seq<seq<Entry>>, y: seq<seq<Entry>>)
    requires Cut(x) && Cut(y) && x != [] && y != [] && Flatten(x) == Flatten(y)
    ensures |x[|x| - 1]| >= |y[|y| - 1]|
  {
    hide Cut, Joins;
    NoJoinBeforeLast(x);
    JoinsWithinLast(y);
  }
}
