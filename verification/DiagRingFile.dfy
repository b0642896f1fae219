// The ring file against the ring it mirrors: what an append, a failed append and a compaction each do to it.

module DiagRingFile {
  import opened Wrappers
  import opened DiagRecords
  import opened Sequences
  import opened DiagRing
  import opened DiagRecorder
  import opened DiagFiles

  function Lines(es: seq<Entry>): (r: Content)
    ensures |r| == |es| && forall i :: 0 <= i < |es| ==> r[i] == Line(es[i])
  {
    seq(|es|, i requires 0 <= i < |es| => Line(es[i]))
  }

  // ----- What a file holds when nothing has failed -----

  /** Every entry's line is appended, and at twice the capacity the file is rewritten from the ring. */
  function FileOf(log: seq<Entry>, cap: nat): Content
    requires cap >= 1
  {
    if log == [] then []
    else
      var c := FileOf(log[..|log| - 1], cap) + [Line(log[|log| - 1])];
      if |c| >= 2 * cap then Lines(RingOf(log, cap).kept) else c
  }

  lemma FileOfSnoc(log: seq<Entry>, e: Entry, cap: nat)
    requires cap >= 1
    ensures FileOf(log + [e], cap) ==
            if |FileOf(log, cap)| + 1 >= 2 * cap then Lines(RingOf(log + [e], cap).kept)
                else FileOf(log, cap) + [Line(e)]
  {
    assert (log + [e])[..|log|] == log;
  }

  /** How many entries had been recorded at the last rewriting: it falls at 2 * cap, 3 * cap, and so on. */
  function LastCompaction(n: nat, cap: nat): (k: nat)
    requires cap >= 1
    ensures k <= n
  {
    if n < 2 * cap then 0 else n - n % cap
  }

  lemma NextCompaction(n: nat, cap: nat)
    requires cap >= 1
    ensures var lines := FileLength(n, cap);
            if lines + 1 >= 2 * cap then LastCompaction(n + 1, cap) == n + 1 && FileLength(n + 1, cap) == cap <= n + 1
            else LastCompaction(n + 1, cap) == LastCompaction(n, cap) && FileLength(n + 1, cap) == lines + 1
  {
    var q, r := n / cap, n % cap;
    assert n == q * cap + r;
    if r == cap - 1 {
      assert n + 1 == (q + 1) * cap;
      MultipleLeavesNothing(q + 1, cap);
    } else {
      RemainderIs(q, r + 1, cap);
    }
    MultipleLeavesNothing(2, cap);
  }

  lemma MultipleLeavesNothing(q: nat, cap: nat)
    requires cap >= 1
    ensures (q * cap) % cap == 0
  {
    RemainderIs(q, 0, cap);
  }

  lemma RemainderIs(q: nat, r: nat, cap: nat)
    requires r < cap
    ensures (q * cap + r) % cap == r
  {
    var n := q * cap + r;
    var p := n / cap;
    assert n == p * cap + n % cap;
    if p < q {
      Least(q - p, cap);
    } else if p > q {
      Least(p - q, cap);
    }
  }

  lemma Least(d: nat, cap: nat)
    requires d >= 1
    ensures d * cap >= cap
  {
  }

  function FileLength(n: nat, cap: nat): nat
    requires cap >= 1
  {
    if n < 2 * cap then n else cap + n % cap
  }

  function RingThenLater(log: seq<Entry>, k: nat, cap: nat): Content
    requires cap >= 1 && k <= |log|
  {
    Lines(RingOf(log[..k], cap).kept) + Lines(log[k..])
  }

  /** The file is the ring at the last rewriting, then every later entry. */
  lemma {:induction false} FileIsRingThenLater(log: seq<Entry>, cap: nat)
    requires cap >= 1
    ensures FileOf(log, cap) == RingThenLater(log, LastCompaction(|log|, cap), cap)
    ensures |FileOf(log, cap)| == FileLength(|log|, cap)
  {
    if log == [] {
      RewrittenNow(log, cap);
    } else {
      hide LastCompaction, RingThenLater, FileOf, FileLength;
      var n := |log| - 1;
      var front, e := log[..n], log[n];
      assert log == front + [e];
      FileIsRingThenLater(front, cap);
      NextCompaction(n, cap);
      FileOfSnoc(front, e, cap);
      if FileLength(n, cap) + 1 >= 2 * cap {
        RewrittenNow(log, cap);
      } else {
        RewrittenBefore(front, e, LastCompaction(n, cap), cap);
      }
    }
  }

  lemma RewrittenNow(log: seq<Entry>, cap: nat)
    requires cap >= 1
    ensures RingThenLater(log, |log|, cap) == Lines(RingOf(log, cap).kept)
    ensures |Lines(RingOf(log, cap).kept)| == if |log| < cap then |log| else cap
  {
    assert log[..|log|] == log && log[|log|..] == [];
    RingLength(log, cap);
  }

  lemma RewrittenBefore(front: seq<Entry>, e: Entry, k: nat, cap: nat)
    requires cap >= 1 && k <= |front|
    ensures RingThenLater(front + [e], k, cap) == RingThenLater(front, k, cap) + [Line(e)]
  {
    assert (front + [e])[..k] == front[..k] && (front + [e])[k..] == front[k..] + [e];
    assert Lines(front[k..] + [e]) == Lines(front[k..]) + [Line(e)];
  }

  /** It holds the ring in order, stays below twice the capacity, and never holds more lines than entries. */
  lemma {:induction false} FileHoldsRing(log: seq<Entry>, cap: nat)
    requires cap >= 1
    ensures Subseq(Lines(RingOf(log, cap).kept), FileOf(log, cap))
    ensures |FileOf(log, cap)| < 2 * cap && |FileOf(log, cap)| <= |log|
  {
    hide LastCompaction;
    FileIsRingThenLater(log, cap);
    if log != [] {
      var n := |log| - 1;
      assert log == log[..n] + [log[n]];
      FileHoldsRing(log[..n], cap);
      FileOfSnoc(log[..n], log[n], cap);
      PushedSubseq(log[..n], log[n], cap, FileOf(log[..n], cap));
      SubseqSelf(Lines(RingOf(log, cap).kept));
    }
  }

  /** Whether the entry recorded at `at` is on the file: recorded since the last rewriting, or in the ring at that
      time. */
  ghost predicate StillOnFile(log: seq<Entry>, cap: nat, at: nat)
    requires cap >= 1
  {
    var k := LastCompaction(|log|, cap);
    at < |log| && (at >= k || at == k - 1 || |Better(log[..k], at)| < cap - 1)
  }

  lemma {:induction false} OnFileExactlyWhen(log: seq<Entry>, cap: nat, at: nat)
    requires cap >= 1 && at < |log|
    requires forall i :: 0 <= i < |log| && i != at ==> log[i] != log[at]
    ensures Line(log[at]) in FileOf(log, cap) <==> StillOnFile(log, cap, at)
  {
    hide LastCompaction, FileOf, Better, NewestAndBestEarlier, RingThenLater;
    var k := LastCompaction(|log|, cap);
    FileIsRingThenLater(log, cap);
    InRingOrLater(log, k, cap, at);
    if at < k {
      var idx := RingClosedForm(log[..k], cap);
      RetainedExactlyWhen(log[..k], idx, cap, at);
      WithinLog(log[..k], idx, cap);
      SelectedExactly(log[..k], idx, at);
    }
  }

  lemma InRingOrLater(log: seq<Entry>, k: nat, cap: nat, at: nat)
    requires cap >= 1 && k <= |log| && at < |log|
    requires forall i :: 0 <= i < |log| && i != at ==> log[i] != log[at]
    ensures Line(log[at]) in RingThenLater(log, k, cap) <==>
            at >= k || Line(log[at]) in Lines(RingOf(log[..k], cap).kept)
  {
    hide RingOf;
    if at >= k {
      assert Lines(log[k..])[at - k] == Line(log[at]);
    }
  }

  lemma WithinLog(log: seq<Entry>, idx: seq<nat>, cap: nat)
    requires NewestAndBestEarlier(log, idx, cap)
    ensures forall i :: 0 <= i < |idx| ==> idx[i] < |log|
  {
  }

  lemma SelectedExactly(log: seq<Entry>, idx: seq<nat>, at: nat)
    requires at < |log| && (forall i :: 0 <= i < |idx| ==> idx[i] < |log|)
    requires forall i :: 0 <= i < |log| && i != at ==> log[i] != log[at]
    ensures Line(log[at]) in Lines(Select(log, idx)) <==> at in idx
  {
    if at in idx {
      var i :| 0 <= i < |idx| && idx[i] == at;
      assert Lines(Select(log, idx))[i] == Line(log[at]);
    }
  }

  // ----- The ring file -----

  /** What the recorder holds of the ring and its file. `missed` are entries whose line could not be written. */
  datatype RingState = RingState(
    log: seq<Entry>,
    ring: seq<Entry>,
    lines: nat,
    handle: Option<Inode>,
    missed: set<Entry>,
    written: nat)

  /**
   * An open handle names the file a reader opens; the file holds recorded entries only, and every retained one but
   * those whose own write failed. With no failure so far it is exactly `FileOf`, and the lines written in all, with
   * those still on it, are two an entry.
   */
  ghost predicate RingFileOk(s: RingState, cap: nat, disk: Disk, faulty: bool) {
    var file := disk.Look(RingPath);
    && cap >= 1
    && s.ring == RingOf(s.log, cap).kept
    && file.Some?
    && (s.handle.Some? ==> s.handle.value == file.value.inode)
    && (forall i :: 0 <= i < |file.value.content| ==> Allowed(file.value.content[i], s.log))
    && (forall e :: e in s.ring ==> e in s.missed || Line(e) in file.value.content)
    && (!faulty ==> CleanRingFile(s, cap, file.value.content))
  }

  ghost predicate Allowed(c: Chunk, log: seq<Entry>) {
    c.Fragment? || (c.Line? && c.entry in log) || (c.Bare? && c.entry in log)
  }

  ghost predicate CleanRingFile(s: RingState, cap: nat, content: Content)
    requires cap >= 1
  {
    && s.handle.Some?
    && s.missed == {}
    && content == FileOf(s.log, cap)
    && s.lines == |content|
    && s.written + s.lines == 2 * |s.log|
  }

  lemma HandleNamesRingFile(s: RingState, cap: nat, disk: Disk, faulty: bool)
    requires RingFileOk(s, cap, disk, faulty)
    ensures disk.Look(RingPath).Some?
    ensures if s.handle.Some? then s.handle.value == disk.Look(RingPath).value.inode else faulty
  {
  }

  lemma RingInView(s: RingState, cap: nat, disk: Disk, faulty: bool)
    requires RingFileOk(s, cap, disk, faulty)
    ensures cap >= 1 && s.ring == RingOf(s.log, cap).kept
  {
  }

  lemma RingFileKept(s: RingState, cap: nat, disk: Disk, now: Disk, faulty: bool, faultyNow: bool)
    requires RingFileOk(s, cap, disk, faulty) && now.Look(RingPath) == disk.Look(RingPath) && (faulty ==> faultyNow)
    ensures RingFileOk(s, cap, now, faultyNow)
  {
  }

  lemma Reopened(s: RingState, cap: nat, disk: Disk, faulty: bool, handle: Option<Inode>)
    requires RingFileOk(s, cap, disk, faulty)
    requires if handle.Some? then disk.Look(RingPath).Some? && handle.value == disk.Look(RingPath).value.inode
             else s.handle.None? || faulty
    ensures RingFileOk(s.(handle := handle), cap, disk, faulty)
  {
  }

  /** A push about to be written: the ring has taken the entry, its file has not. */
  function Pushed(s: RingState, e: Entry, cap: nat): RingState
    requires cap >= 1
  {
    s.(log := s.log + [e], ring := RingOf(s.log + [e], cap).kept)
  }

  lemma PushedMembers(log: seq<Entry>, e: Entry, cap: nat)
    requires cap >= 1
    ensures forall x :: x in RingOf(log + [e], cap).kept ==> x == e || x in RingOf(log, cap).kept
    ensures e in RingOf(log + [e], cap).kept
  {
    var r := RingOf(log, cap);
    RingOfSnoc(log, e, cap);
    RingLength(log, cap);
    MakeRoomOnce(r, cap);
    var t := RingOf(log + [e], cap).kept;
    assert t == MakeRoom(r, cap).kept + [e];
    assert t[|t| - 1] == e;
  }

  lemma PushedSubseq(log: seq<Entry>, e: Entry, cap: nat, content: Content)
    requires cap >= 1 && Subseq(Lines(RingOf(log, cap).kept), content)
    ensures Subseq(Lines(RingOf(log + [e], cap).kept), content + [Line(e)])
  {
    hide RingOf, MakeRoom, Subseq, Victim;
    var r := RingOf(log, cap);
    RingOfSnoc(log, e, cap);
    RingLength(log, cap);
    MakeRoomOnce(r, cap);
    var room := MakeRoom(r, cap).kept;
    if |r.kept| == cap {
      LinesWithout(r.kept, Victim(r.kept));
      SubseqRemove(Lines(r.kept), Victim(r.kept), content);
    }
    SubseqSnoc(Lines(room), content, Line(e));
    assert Lines(room + [e]) == Lines(room) + [Line(e)];
  }

  lemma LinesWithout(es: seq<Entry>, i: nat)
    requires i < |es|
    ensures Lines(RemoveAt(es, i)) == RemoveAt(Lines(es), i)
  {
  }

  /** The line of a pushed entry was appended. */
  lemma LineAppended(s: RingState, e: Entry, cap: nat, before: Disk, after: Disk, faulty: bool) returns (t: RingState)
    requires RingFileOk(s, cap, before, faulty) && s.handle.Some?
    requires after.Look(RingPath) == Some(File(s.handle.value, before.Look(RingPath).value.content + [Line(e)]))
    ensures t == Pushed(s, e, cap).(lines := s.lines + 1, written := s.written + 1)
    ensures Line(e) in after.Look(RingPath).value.content
    ensures t.lines < 2 * cap ==> RingFileOk(t, cap, after, faulty)
    ensures t.lines >= 2 * cap ==> AboutToCompact(t, cap, after, faulty)
  {
    var content := before.Look(RingPath).value.content;
    t := Pushed(s, e, cap).(lines := s.lines + 1, written := s.written + 1);
    PushedMembers(s.log, e, cap);
    assert (content + [Line(e)])[|content|] == Line(e);
    forall i | 0 <= i < |content + [Line(e)]|
      ensures Allowed((content + [Line(e)])[i], t.log)
    {
      if i < |content| {
        assert Allowed(content[i], s.log);
      }
    }
    forall x | x in t.ring
      ensures x in t.missed || Line(x) in content + [Line(e)]
    {
    }
    if !faulty {
      FileOfSnoc(s.log, e, cap);
      FileHoldsRing(s.log, cap);
      assert t.log[..|t.log| - 1] == s.log;
    }
  }

  /** The line of a pushed entry could not be appended, wholly or at all. */
  lemma LineMissed(s: RingState, e: Entry, cap: nat, before: Disk, after: Disk, lines: nat) returns (t: RingState)
    requires RingFileOk(s, cap, before, true)
    requires after.Look(RingPath) == before.Look(RingPath) ||
             exists whole: nat, bare ::
               after.Look(RingPath) ==
               Some(File(before.Look(RingPath).value.inode,
                   before.Look(RingPath).value.content + TornAt([Line(e)], whole, bare)))
    ensures t == Pushed(s, e, cap).(lines := lines, missed := s.missed + {e})
    ensures RingFileOk(t, cap, after, true) && AboutToCompact(t, cap, after, true)
  {
    var content := before.Look(RingPath).value.content;
    t := Pushed(s, e, cap).(lines := lines, missed := s.missed + {e});
    PushedMembers(s.log, e, cap);
    var now := after.Look(RingPath).value.content;
    assert |content| <= |now| && forall i :: 0 <= i < |content| ==> now[i] == content[i];
    forall i | 0 <= i < |now|
      ensures Allowed(now[i], t.log)
    {
      if i < |content| {
        assert Allowed(content[i], s.log);
      }
    }
    forall x | x in t.ring
      ensures x in t.missed || Line(x) in now
    {
      if x != e && x !in s.missed {
        var k :| 0 <= k < |content| && content[k] == Line(x);
        assert now[k] == Line(x);
      }
    }
  }

  /** The file has reached twice the capacity; nothing else is wrong with it. */
  ghost predicate AboutToCompact(s: RingState, cap: nat, disk: Disk, faulty: bool) {
    && RingFileOk(s, cap, disk, true)
    && (!faulty ==>
          && s.handle.Some? && s.missed == {} && s.log != []
          && s.lines == 2 * cap == |FileOf(s.log[..|s.log| - 1], cap)| + 1
          && s.written + s.lines == 2 * |s.log|)
  }

  lemma AboutToCompactKept(s: RingState, cap: nat, disk: Disk, faulty: bool, faultyNow: bool)
    requires AboutToCompact(s, cap, disk, faulty) && (faulty ==> faultyNow)
    ensures AboutToCompact(s, cap, disk, faultyNow)
  {
  }

  lemma Compacted(s: RingState, cap: nat, before: Disk, after: Disk, handle: Option<Inode>, faulty: bool)
    returns (t: RingState)
    requires AboutToCompact(s, cap, before, faulty)
    requires after.Look(RingPath).Some? && after.Read(RingPath) == Some(Lines(s.ring))
    requires handle.Some? ==> handle.value == after.Look(RingPath).value.inode
    requires handle.None? ==> faulty
    ensures t == s.(lines := |s.ring|, handle := handle, missed := {}, written := s.written + |s.ring|)
    ensures RingFileOk(t, cap, after, faulty)
  {
    t := s.(lines := |s.ring|, handle := handle, missed := {}, written := s.written + |s.ring|);
    hide RingOf, FileOf;
    RingMembers(s.log, cap);
    CompactedIsFileOf(s.log, cap);
    forall e | e in s.ring
      ensures Line(e) in Lines(s.ring)
    {
      var k :| 0 <= k < |s.ring| && s.ring[k] == e;
      assert Lines(s.ring)[k] == Line(e);
    }
  }

  /** A rewriting leaves what the file is to hold, and falls no earlier than it should. */
  lemma CompactedIsFileOf(log: seq<Entry>, cap: nat)
    requires cap >= 1
    ensures log != [] && |FileOf(log[..|log| - 1], cap)| + 1 == 2 * cap ==>
              FileOf(log, cap) == Lines(RingOf(log, cap).kept) && |FileOf(log, cap)| == cap
  {
    RingLength(log, cap);
    if log != [] {
      FileHoldsRing(log[..|log| - 1], cap);
    }
  }

  /** The compaction failed before the file was replaced, so the old handle still names it. */
  lemma NotCompacted(s: RingState, cap: nat, before: Disk, after: Disk) returns (t: RingState)
    requires AboutToCompact(s, cap, before, true) && after.Look(RingPath) == before.Look(RingPath)
    ensures t == s.(lines := |s.ring|)
    ensures RingFileOk(t, cap, after, true)
  {
    t := s.(lines := |s.ring|);
  }

  lemma RingMembers(log: seq<Entry>, cap: nat)
    requires cap >= 1
    ensures forall e :: e in RingOf(log, cap).kept ==> e in log
  {
    PushConserves(log, cap);
    var ring := RingOf(log, cap);
    forall e | e in ring.kept
      ensures e in log
    {
      assert e in multiset(ring.kept) && e in multiset(log);
    }
  }
}
