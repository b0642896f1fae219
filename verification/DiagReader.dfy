// The reader of the two files, and what its verdict is worth.

module DiagReader {
  import opened Wrappers
  import opened DiagRecords
  import opened DiagRing
  import opened DiagRecorder
  import opened DiagFiles
  import opened DiagRingFile
  import opened DiagLines
  import opened Diag

  datatype Verdict =
    | ExitedCleanly(code: int)
    | ExitedWithWorkCutOff(code: int, cutOff: nat)
    | ExitCodeUnknown
    | GoneWithSpansOpen
    | RunningWithSpansOpen
    | GoneWithoutExit
    | RunningIdle
    | SpansOpenLivenessUnknown
    | InflightUnreadable

  datatype ProcessTrace = ProcessTrace(
    inflight: Option<InflightFile>,
    inflightUnusable: bool,
    entries: seq<Entry>,
    malformedLines: nat,
    alive: Option<bool>)

  /**
   * The entries on the lines of a file. What a torn write left has no newline, so the next line is glued to it; with
   * nothing after it, a line that lacks only its newline still reads.
   */
  function Readable(c: Content, lineStart: bool): seq<Entry> {
    if c == [] then []
    else match c[0]
      case Line(e) => (if lineStart then [e] else []) + Readable(c[1..], true)
      case Bare(e) => if lineStart && c[1..] == [] then [e] else Readable(c[1..], false)
      case _ => Readable(c[1..], false)
  }

  function Malformed(c: Content, lineStart: bool): nat {
    if c == [] then (if lineStart then 0 else 1)
    else match c[0]
      case Line(e) => (if lineStart then 0 else 1) + Malformed(c[1..], true)
      case Bare(_) => if lineStart && c[1..] == [] then 0 else Malformed(c[1..], false)
      case _ => Malformed(c[1..], false)
  }

  function InsertBySeq(sorted: seq<Entry>, e: Entry): seq<Entry> {
    if sorted == [] || sorted[|sorted| - 1].seqNo <= e.seqNo then sorted + [e]
    else InsertBySeq(sorted[..|sorted| - 1], e) + [sorted[|sorted| - 1]]
  }

  /** By sequence number, in the order of the file where they are equal. */
  function SortBySeq(es: seq<Entry>): seq<Entry> {
    if es == [] then []
    else InsertBySeq(SortBySeq(es[..|es| - 1]), es[|es| - 1])
  }

  function Load(d: Disk, alive: Option<bool>): ProcessTrace {
    var inflight := d.Read(InflightPath);
    var ring := d.Read(RingPath);
    var usable := inflight.Some? && |inflight.value| == 1 && inflight.value[0].Flight?;
    ProcessTrace(
      if usable then Some(inflight.value[0].file) else None,
      inflight.Some? && !usable,
      if ring.Some? then SortBySeq(Readable(ring.value, true)) else [],
      if ring.Some? then Malformed(ring.value, true) else 0,
      alive)
  }

  /** The last entry that records an exit. */
  function LastExit(es: seq<Entry>): Option<Entry> {
    if es == [] then None
    else if IsExit(es[|es| - 1]) then Some(es[|es| - 1])
    else LastExit(es[..|es| - 1])
  }

  function ExitVerdict(e: Entry): Verdict {
    match FieldOf(e.fields, FIELD_CODE)
    case Some(I64(code)) => (
      match FieldOf(e.fields, FIELD_CUT_OFF)
      case Some(U64(n)) => if n > 0 then ExitedWithWorkCutOff(code, n) else ExitedCleanly(code)
      case _ => ExitedCleanly(code))
    case _ => ExitCodeUnknown
  }

  function VerdictOf(t: ProcessTrace): Verdict {
    if t.inflightUnusable then InflightUnreadable
    else
      var open := t.inflight.Some? && t.inflight.value.spans != [];
      match (open, t.alive, LastExit(t.entries))
      case (true, Some(false), _) => GoneWithSpansOpen
      case (true, Some(true), _) => RunningWithSpansOpen
      case (true, None, _) => SpansOpenLivenessUnknown
      case (false, _, Some(e)) => ExitVerdict(e)
      case (false, Some(false), None) => GoneWithoutExit
      case (false, _, None) => RunningIdle
  }

  // ----- What sorting and searching keep -----

  lemma {:induction false} InsertMembers(sorted: seq<Entry>, e: Entry)
    ensures multiset(InsertBySeq(sorted, e)) == multiset(sorted) + multiset{e}
  {
    var n := |sorted| - 1;
    if n >= 0 && sorted[n].seqNo > e.seqNo {
      InsertMembers(sorted[..n], e);
      assert sorted == sorted[..n] + [sorted[n]];
    }
  }

  ghost predicate SortedBySeq(es: seq<Entry>) {
    forall i, j :: 0 <= i < j < |es| ==> es[i].seqNo <= es[j].seqNo
  }

  lemma {:induction false} InsertSorted(sorted: seq<Entry>, e: Entry)
    requires SortedBySeq(sorted)
    ensures SortedBySeq(InsertBySeq(sorted, e))
    ensures forall x :: x in InsertBySeq(sorted, e) ==> x == e || x in sorted
  {
    var n := |sorted| - 1;
    if n >= 0 && sorted[n].seqNo > e.seqNo {
      InsertSorted(sorted[..n], e);
      var rest := InsertBySeq(sorted[..n], e);
      forall i | 0 <= i < |rest|
        ensures rest[i].seqNo <= sorted[n].seqNo
      {
        assert rest[i] in rest;
      }
    }
  }

  /** Sorting loses no entry and doubles none. */
  lemma {:induction false} SortIsAPermutation(es: seq<Entry>)
    ensures SortedBySeq(SortBySeq(es)) && multiset(SortBySeq(es)) == multiset(es)
  {
    if es != [] {
      var n := |es| - 1;
      SortIsAPermutation(es[..n]);
      InsertSorted(SortBySeq(es[..n]), es[n]);
      InsertMembers(SortBySeq(es[..n]), es[n]);
      assert es == es[..n] + [es[n]];
    }
  }

  lemma {:induction false} LastExitFinds(es: seq<Entry>)
    ensures LastExit(es).None? <==> forall e :: e in es ==> !IsExit(e)
    ensures LastExit(es).Some? ==> IsExit(LastExit(es).value) && LastExit(es).value in es
  {
    if es != [] && !IsExit(es[|es| - 1]) {
      LastExitFinds(es[..|es| - 1]);
      assert es == es[..|es| - 1] + [es[|es| - 1]];
    }
  }

  // ----- Which lines a reader gets back -----

  /** The line of `e` is at `k`, if only its newline is missing then at the end, and nothing torn stands before it. */
  ghost predicate WholeAt(c: Content, lineStart: bool, e: Entry, k: nat) {
    && k < |c|
    && (c[k] == Line(e) || (c[k] == Bare(e) && k == |c| - 1))
    && if k == 0 then lineStart else c[k - 1].Line?
  }

  /**
   * A line is read back exactly when what was written just before it is a whole line or nothing: a torn write costs
   * not only its own entry but the next one, whose write succeeded.
   */
  lemma {:induction false} ReadableExactlyWhen(c: Content, lineStart: bool, e: Entry)
    ensures e in Readable(c, lineStart) <==> exists k: nat :: WholeAt(c, lineStart, e, k)
  {
    if c != [] {
      var next := c[0].Line?;
      ReadableExactlyWhen(c[1..], next, e);
      forall k: nat
        ensures WholeAt(c[1..], next, e, k) <==> WholeAt(c, lineStart, e, k + 1)
      {
      }
      if k: nat :| WholeAt(c[1..], next, e, k) {
        assert WholeAt(c, lineStart, e, k + 1);
      }
      if k: nat :| WholeAt(c, lineStart, e, k) {
        assert k > 0 ==> WholeAt(c[1..], next, e, k - 1);
      }
      assert WholeAt(c, lineStart, e, 0) <==> lineStart && (c[0] == Line(e) || (c[0] == Bare(e) && c[1..] == []));
    }
  }

  /**
   * An entry written without a fault right after a torn one is on the file and cannot be read back, and takes with it
   * a torn one that lacked only its newline.
   */
  lemma TornWriteHidesNextEntry(d: Disk, h: Inode, torn: Entry, bare: bool, e: Entry)
    requires h in d.data && RingPath in d.names && d.names[RingPath] == h && d.data[h] == []
    ensures var before := d.Appended(h, TornAt([Line(torn)], 0, bare));
            var after := before.Appended(h, [Line(e)]);
            && Load(before, None).entries == (if bare then [torn] else [])
            && OnFile(after, e) && Load(after, None).entries == [] && Load(after, None).malformedLines == 1
  {
    hide Readable, Malformed, SortBySeq;
    var piece := TornAt([Line(torn)], 0, bare)[0];
    var before := d.Appended(h, [piece]);
    var after := before.Appended(h, [Line(e)]);
    assert TornAt([Line(torn)], 0, bare) == [piece];
    assert [] + [piece] == [piece] && [piece] + [Line(e)] == [piece, Line(e)];
    assert before.Read(RingPath) == Some([piece]) && after.Read(RingPath) == Some([piece, Line(e)]);
    assert [piece, Line(e)][1] == Line(e);
    AloneItReads(piece, torn);
    GluedItDoesNot(piece, e);
  }

  lemma AloneItReads(piece: Chunk, torn: Entry)
    requires piece == Bare(torn) || piece == Fragment
    ensures SortBySeq(Readable([piece], true)) == if piece.Bare? then [torn] else []
  {
    hide Malformed;
    assert [piece][1..] == [];
    assert Readable([piece], true) == if piece.Bare? then [torn] else [];
    SortedAlone(torn);
  }

  lemma SortedAlone(e: Entry)
    ensures SortBySeq([e]) == [e] && SortBySeq([]) == []
  {
    assert [e][..0] == [];
    assert InsertBySeq([], e) == [] + [e];
  }

  lemma GluedItDoesNot(piece: Chunk, e: Entry)
    requires piece.Bare? || piece.Fragment?
    ensures SortBySeq(Readable([piece, Line(e)], true)) == [] && Malformed([piece, Line(e)], true) == 1
  {
    hide InsertBySeq;
    var both := [piece, Line(e)];
    assert both[1..] == [Line(e)] && [Line(e)][1..] == [];
    assert Readable([Line(e)], false) == [] + Readable([], true);
    assert Malformed([Line(e)], false) == 1 + Malformed([], true);
    assert Readable(both, true) == Readable(both[1..], false) && Malformed(both, true) == Malformed(both[1..], false);
  }

  /** Lines in the file's own sense: what newlines end, and what follows the last of them. */
  function LineCount(c: Content, lineStart: bool): nat {
    Newlines(c) + if (if c == [] then lineStart else c[|c| - 1].Line?) then 0 else 1
  }

  function Newlines(c: Content): nat {
    if c == [] then 0 else Newlines(c[..|c| - 1]) + if c[|c| - 1].Line? then 1 else 0
  }

  lemma {:induction false} NewlinesCons(c: Content)
    requires c != []
    ensures Newlines(c) == (if c[0].Line? then 1 else 0) + Newlines(c[1..])
  {
    var n := |c| - 1;
    if n > 0 {
      NewlinesCons(c[..n]);
      assert c[1..][..n - 1] == c[..n][1..];
    }
  }

  /** Every line is read back as one entry or counted as malformed. */
  lemma {:induction false} EveryLineReadOrMalformed(c: Content, lineStart: bool)
    ensures |Readable(c, lineStart)| + Malformed(c, lineStart) == LineCount(c, lineStart)
  {
    if c != [] {
      EveryLineReadOrMalformed(c[1..], c[0].Line?);
      NewlinesCons(c);
    }
  }

  /** The exit a reader goes by is the newest there is: an event, named so, of a process of one of the three roles. */
  lemma {:induction false} LastExitIsTheNewest(es: seq<Entry>, e: Entry)
    ensures LastExit(es) == Some(e) <==>
            exists i :: 0 <= i < |es| && es[i] == e && SaysItExits(e) && NoneExitsAfter(es, i)
  {
    if es != [] {
      var n := |es| - 1;
      LastExitIsTheNewest(es[..n], e);
      if SaysItExits(es[n]) {
        assert NoneExitsAfter(es, n);
        assert forall i :: 0 <= i < n ==> !NoneExitsAfter(es, i);
      } else {
        forall i | 0 <= i < n
          ensures NoneExitsAfter(es[..n], i) <==> NoneExitsAfter(es, i)
        {
        }
      }
    }
  }

  predicate SaysItExits(e: Entry) {
    e.kind == Event && e.op == "exit" && (e.subsystem == Cli || e.subsystem == Gui || e.subsystem == Mcp)
  }

  ghost predicate NoneExitsAfter(es: seq<Entry>, i: int) {
    forall j :: i < j < |es| && 0 <= j ==> !SaysItExits(es[j])
  }

  /** An exit without a number for its code is told as one of unknown code, and nothing else is. */
  lemma CodeUnknownExactlyWhen(t: ProcessTrace)
    ensures VerdictOf(t) == ExitCodeUnknown <==>
            && !t.inflightUnusable && (t.inflight.Some? ==> t.inflight.value.spans == [])
            && exists i :: 0 <= i < |t.entries| && SaysItExits(t.entries[i]) && NoneExitsAfter(t.entries, i)
                           && !GivesCode(t.entries[i])
  {
    hide NoneExitsAfter, SaysItExits, LastExit;
    forall e
      ensures LastExit(t.entries) == Some(e) <==>
              exists i :: 0 <= i < |t.entries| && t.entries[i] == e && SaysItExits(e) && NoneExitsAfter(t.entries, i)
    {
      LastExitIsTheNewest(t.entries, e);
    }
    if i :| 0 <= i < |t.entries| && SaysItExits(t.entries[i]) && NoneExitsAfter(t.entries, i)
              && !GivesCode(t.entries[i]) {
      assert LastExit(t.entries) == Some(t.entries[i]);
    }
  }

  ghost predicate GivesCode(e: Entry) {
    exists code :: FieldOf(e.fields, "code") == Some(I64(code))
  }

  // ----- The verdict -----

  /** What is true of the process the files belong to. */
  function Truth(openSpans: bool, exit: Option<ExitInfo>, alive: Option<bool>): Verdict {
    match exit
    case Some(info) => if info.cutOff > 0 then ExitedWithWorkCutOff(info.code, info.cutOff)
        else ExitedCleanly(info.code)
    case None =>
      match (openSpans, alive)
      case (true, Some(false)) => GoneWithSpansOpen
      case (true, Some(true)) => RunningWithSpansOpen
      case (true, None) => SpansOpenLivenessUnknown
      case (false, Some(false)) => GoneWithoutExit
      case (false, _) => RunningIdle
  }

  /** The exit entry is on the file. */
  ghost predicate ExitOnFile(d: Disk) {
    exists e :: OnFile(d, e) && IsExit(e)
  }

  /** The reader agrees with the writer exactly when no exit has been recorded or its line is on the file. */
  lemma VerdictAgreesExactlyWhen(s: Recorder, exit: Option<ExitInfo>, ring: RingState, cap: nat, d: Disk,
      alive: Option<bool>)
    requires ring.log == s.log && RingFileOk(ring, cap, d, false) && InflightOk(d, s, false, false)
    requires ExitRecorded(s, exit)
    ensures VerdictOf(Load(d, alive)) == Truth(s.open != [], exit, alive) <==> exit.None? || ExitOnFile(d)
  {
    hide FileOf;
    LastExitOnFile(s, exit, ring, cap, d);
  }

  /** The last exit entry a reader finds is the one that was recorded, and it finds one if its line is on the file. */
  lemma LastExitOnFile(s: Recorder, exit: Option<ExitInfo>, ring: RingState, cap: nat, d: Disk)
    requires ring.log == s.log && RingFileOk(ring, cap, d, false)
    requires ExitRecorded(s, exit)
    ensures var last := LastExit(Load(d, None).entries);
            && (last.Some? <==> ExitOnFile(d))
            && (last.Some? ==> exit.Some? && SaysExit(last.value, exit.value))
  {
    hide FileOf;
    var c := d.Read(RingPath).value;
    var entries := Readable(c, true);
    SortedMembers(entries);
    LastExitFinds(SortBySeq(entries));
    ReadableAreRecorded(c, s.log);
    OnlyLines(s.log, cap);
    forall e
      ensures e in entries <==> Line(e) in c
    {
      ReadableExactlyWhen(c, true, e);
      if Line(e) in c {
        var k: nat :| k < |c| && c[k] == Line(e);
        assert WholeAt(c, true, e, k);
      }
    }
  }

  /** With no failure there is nothing but whole lines. */
  lemma {:induction false} OnlyLines(log: seq<Entry>, cap: nat)
    requires cap >= 1
    ensures forall i :: 0 <= i < |FileOf(log, cap)| ==> FileOf(log, cap)[i].Line?
  {
    if log != [] {
      OnlyLines(log[..|log| - 1], cap);
    }
  }

  lemma SortedMembers(es: seq<Entry>)
    ensures forall e :: e in SortBySeq(es) <==> e in es
  {
    SortIsAPermutation(es);
    forall e
      ensures e in SortBySeq(es) <==> e in es
    {
      assert e in SortBySeq(es) <==> e in multiset(SortBySeq(es));
      assert e in es <==> e in multiset(es);
    }
  }

  lemma ReadableAreRecorded(c: Content, log: seq<Entry>)
    requires forall i :: 0 <= i < |c| ==> Allowed(c[i], log)
    ensures forall e :: e in Readable(c, true) ==> e in log
  {
    forall e | e in Readable(c, true)
      ensures e in log
    {
      ReadableExactlyWhen(c, true, e);
    }
  }
}
