// What becomes of a line once it is on the ring file, over every state of the disk.

module DiagLines {
  import opened Wrappers
  import opened Sequences
  import opened DiagRecords
  import opened DiagRing
  import opened DiagRecorder
  import opened DiagFiles
  import opened DiagRingFile

  ghost predicate OnFile(d: Disk, e: Entry) {
    d.Read(RingPath).Some? && Line(e) in d.Read(RingPath).value
  }

  /** The entries recorded, each with the index of the first state of the disk that its push could write. */
  datatype Pushes = Pushes(log: seq<Entry>, at: seq<nat>, cap: nat)

  /** An index for every entry, in order, and none later than `now`. */
  ghost predicate Dated(p: Pushes, now: int) {
    && p.cap >= 1 && |p.at| == |p.log|
    && (forall i, j :: 0 <= i <= j < |p.at| ==> p.at[i] <= p.at[j])
    && (forall i :: 0 <= i < |p.at| ==> p.at[i] <= now)
  }

  lemma DatedLater(p: Pushes, now: int, later: int)
    requires Dated(p, now) && now <= later
    ensures Dated(p, later)
  {
  }

  /** The pushes begun by the state `at` have made the ring evict `e`. */
  ghost predicate EvictedBy(p: Pushes, e: Entry, at: int) {
    exists m: nat :: EvictedIn(p, e, at, m)
  }

  ghost predicate EvictedIn(p: Pushes, e: Entry, at: int, m: nat) {
    && p.cap >= 1 && m <= |p.log| && m <= |p.at|
    && (m > 0 ==> p.at[m - 1] <= at)
    && e in RingOf(p.log[..m], p.cap).gone
  }

  /** What earlier pushes evicted stays evicted, and later states know of all of it. */
  lemma EvictedLater(p: Pushes, q: Pushes, e: Entry, at: int, later: int)
    requires EvictedBy(p, e, at) && p.log <= q.log && p.at <= q.at && q.cap == p.cap && at <= later
    ensures EvictedBy(q, e, later)
  {
    var m: nat :| EvictedIn(p, e, at, m);
    assert q.log[..m] == p.log[..m];
    assert EvictedIn(q, e, later, m);
  }

  /** The operation after the i-th state takes the line of `e` off the file. */
  ghost predicate Loses(hist: seq<Disk>, i: nat, e: Entry) {
    i + 1 < |hist| && OnFile(hist[i], e) && !OnFile(hist[i + 1], e)
  }

  ghost predicate Holds(d: Disk, c: Chunk) {
    d.Read(RingPath).Some? && c in d.Read(RingPath).value
  }

  /** The operation after the i-th state puts `c` on the file. */
  ghost predicate Gains(hist: seq<Disk>, i: nat, c: Chunk) {
    i + 1 < |hist| && Holds(hist[i + 1], c) && !Holds(hist[i], c)
  }

  /** From each state since `since` to the next, the file loses no line but those of entries evicted by then, and gains
      nothing that is not of a recorded entry. */
  ghost predicate LinesKept(t: Trace, since: nat, p: Pushes) {
    && since < |t.hist|
    && (forall c :: Holds(t.hist[since], c) ==> Allowed(c, p.log))
    && (forall i: nat, e :: since <= i && Loses(t.hist, i, e) ==> EvictedBy(p, e, i + 1))
    && (forall i: nat, c :: since <= i && Gains(t.hist, i, c) ==> Allowed(c, p.log))
  }

  /** The operations since `t` took no line off the file but those of `dropped`, and put nothing on it but what is of an
      entry of `log`. */
  ghost predicate LinesStay(t: Trace, later: Trace, dropped: set<Entry>, log: seq<Entry>) {
    && (forall i: nat, e :: |t.hist| <= i + 1 && Loses(later.hist, i, e) ==> e in dropped)
    && (forall i: nat, c :: |t.hist| <= i + 1 && Gains(later.hist, i, c) ==> Allowed(c, log))
  }

  lemma LinesKeptStay(t: Trace, later: Trace, since: nat, p: Pushes, dropped: set<Entry>)
    requires t.Grew(later) && LinesKept(t, since, p) && LinesStay(t, later, dropped, p.log)
    requires forall e :: e in dropped ==> EvictedBy(p, e, |t.hist|)
    ensures LinesKept(later, since, p)
  {
    hide OnFile, Holds, EvictedBy, Allowed;
    forall i: nat, e | since <= i && Loses(later.hist, i, e)
      ensures EvictedBy(p, e, i + 1)
    {
      if i + 1 < |t.hist| {
        assert Loses(t.hist, i, e);
      } else {
        EvictedLater(p, p, e, |t.hist|, i + 1);
      }
    }
    forall i: nat, c | since <= i && Gains(later.hist, i, c)
      ensures Allowed(c, p.log)
    {
      assert i + 1 < |t.hist| ==> Gains(t.hist, i, c);
    }
  }

  /** Another push forgets no eviction. */
  lemma LinesKeptMore(t: Trace, since: nat, p: Pushes, q: Pushes)
    requires LinesKept(t, since, p) && p.log <= q.log && p.at <= q.at && q.cap == p.cap
    ensures LinesKept(t, since, q)
  {
    hide OnFile, Holds, EvictedBy;
    forall i: nat, e | since <= i && Loses(t.hist, i, e)
      ensures EvictedBy(q, e, i + 1)
    {
      EvictedLater(p, q, e, i + 1, i + 1);
    }
    assert forall e :: e in p.log ==> e in q.log;
    assert forall c :: Allowed(c, p.log) ==> Allowed(c, q.log);
  }

  lemma UntouchedStays(t: Trace, later: Trace, log: seq<Entry>)
    requires t.hist != [] && t.Grew(later) && t.Untouched(later, RingPath)
    ensures LinesStay(t, later, {}, log)
  {
    forall i: nat | |t.hist| <= i + 1 < |later.hist|
      ensures later.hist[i].Look(RingPath) == later.hist[i + 1].Look(RingPath)
    {
      assert later.hist[i].Look(RingPath) == t.hist[|t.hist| - 1].Look(RingPath);
    }
  }

  /** Nothing, or something of a recorded entry at the end of the file. */
  lemma AppendStays(t: Trace, later: Trace, before: Disk, now: Disk, log: seq<Entry>)
    requires t.Valid(before) && OneMore(t, later, now)
    requires before.Look(RingPath).Some? && now.Look(RingPath).Some?
    requires before.Look(RingPath).value.content <= now.Look(RingPath).value.content
    requires forall c :: c in now.Look(RingPath).value.content ==>
               c in before.Look(RingPath).value.content || Allowed(c, log)
    ensures LinesStay(t, later, {}, log)
  {
    hide Allowed;
    assert later.hist[|t.hist| - 1] == before && later.hist[|t.hist|] == now;
  }

  /** A rewriting drops what is not in the ring. */
  lemma ReplacingStays(t: Trace, later: Trace, before: Disk, now: Disk, log: seq<Entry>, ring: seq<Entry>)
    requires t.Valid(before) && later.Valid(now) && t.Grew(later) && t.ReplacedOnce(later, RingPath)
    requires before.Look(RingPath).Some? && forall e <- ring :: e in log
    requires forall c <- before.Look(RingPath).value.content :: Allowed(c, log)
    requires now.Look(RingPath) == before.Look(RingPath) || now.Read(RingPath) == Some(Lines(ring))
    ensures LinesStay(t, later, Outside(log, ring), log)
  {
    var k :| |t.hist| <= k <= |later.hist| && t.SwitchedAt(later, RingPath, k);
    forall i: nat, e | |t.hist| <= i + 1 && Loses(later.hist, i, e)
      ensures e in Outside(log, ring)
    {
      LookAt(t, later, before, now, k, i);
      LookAt(t, later, before, now, k, i + 1);
      assert Allowed(Line(e), log);
      if e in ring {
        InLines(ring, e);
      }
    }
    forall i: nat, c | |t.hist| <= i + 1 && Gains(later.hist, i, c)
      ensures Allowed(c, log)
    {
      LookAt(t, later, before, now, k, i);
      LookAt(t, later, before, now, k, i + 1);
    }
  }

  lemma LookAt(t: Trace, later: Trace, before: Disk, now: Disk, k: int, i: nat)
    requires t.Valid(before) && later.Valid(now) && t.Grew(later)
    requires |t.hist| <= k <= |later.hist| && t.SwitchedAt(later, RingPath, k) && |t.hist| <= i + 1 && i < |later.hist|
    ensures later.hist[i].Look(RingPath) == if i < k then before.Look(RingPath) else now.Look(RingPath)
  {
  }

  /** An operation that changes nothing. */
  lemma NothingStays(t: Trace, later: Trace, disk: Disk, log: seq<Entry>)
    requires t.Valid(disk) && OneMore(t, later, disk)
    ensures LinesStay(t, later, {}, log)
  {
    hide Allowed;
    assert later.hist[|t.hist| - 1] == disk && later.hist[|t.hist|] == disk;
  }

  ghost function Outside(log: seq<Entry>, ring: seq<Entry>): set<Entry> {
    set e | e in log && e !in ring
  }

  lemma InLines(es: seq<Entry>, e: Entry)
    requires e in es
    ensures Line(e) in Lines(es)
  {
    var k :| 0 <= k < |es| && es[k] == e;
    assert Lines(es)[k] == Line(e);
  }

  lemma StaysThrough(t: Trace, u: Trace, v: Trace, dropped: set<Entry>, log: seq<Entry>)
    requires t.hist != [] && t.Grew(u) && u.Grew(v) && LinesStay(t, u, dropped, log)
             && LinesStay(u, v, {}, log)
    ensures LinesStay(t, v, dropped, log)
  {
    hide OnFile, Holds, Allowed;
    forall i: nat, e | |t.hist| <= i + 1 && Loses(v.hist, i, e)
      ensures e in dropped
    {
      assert i + 1 < |u.hist| ==> Loses(u.hist, i, e);
    }
    forall i: nat, c | |t.hist| <= i + 1 && Gains(v.hist, i, c)
      ensures Allowed(c, log)
    {
      assert i + 1 < |u.hist| ==> Gains(u.hist, i, c);
    }
  }

  /** What is recorded and not in the ring has been evicted. */
  lemma OutsideIsGone(p: Pushes, now: int)
    requires Dated(p, now)
    ensures forall e :: e in Outside(p.log, RingOf(p.log, p.cap).kept) ==> EvictedBy(p, e, now)
  {
    PushConserves(p.log, p.cap);
    assert p.log[..|p.log|] == p.log;
    forall e | e in Outside(p.log, RingOf(p.log, p.cap).kept)
      ensures EvictedBy(p, e, now)
    {
      assert e in multiset(p.log) && e !in multiset(RingOf(p.log, p.cap).kept);
      assert e in multiset(RingOf(p.log, p.cap).gone);
      assert EvictedIn(p, e, now, |p.log|);
    }
  }

  // ----- What this means for a line -----

  /** A line once on the file is on it in every later state until its entry is evicted. */
  lemma {:induction false} LineLasts(t: Trace, since: nat, p: Pushes, i: nat, j: nat, e: Entry)
    requires LinesKept(t, since, p) && since <= i <= j < |t.hist| && OnFile(t.hist[i], e)
    ensures OnFile(t.hist[j], e) || EvictedBy(p, e, j)
    decreases j
  {
    hide OnFile, Holds, EvictedBy;
    if i < j {
      LineLasts(t, since, p, i, j - 1, e);
      if EvictedBy(p, e, j - 1) {
        EvictedLater(p, p, e, j - 1, j);
      }
      assert OnFile(t.hist[j - 1], e) && !OnFile(t.hist[j], e) ==> Loses(t.hist, j - 1, e);
    }
  }

  /** Whatever has failed, in every state the file holds nothing that is not of a recorded entry. */
  lemma {:induction false} OnlyRecorded(t: Trace, since: nat, p: Pushes, i: nat, c: Chunk)
    requires LinesKept(t, since, p) && since <= i < |t.hist| && Holds(t.hist[i], c)
    ensures Allowed(c, p.log)
    decreases i
  {
    hide Holds, Allowed;
    if since < i {
      if Holds(t.hist[i - 1], c) {
        OnlyRecorded(t, since, p, i - 1, c);
      } else {
        assert Gains(t.hist, i - 1, c);
      }
    }
  }

  /** The indices already given stay, and the new ones are of states from `first` on. */
  ghost predicate PushedSince(was: seq<nat>, now: seq<nat>, first: nat) {
    was <= now && forall j :: |was| <= j < |now| ==> now[j] >= first
  }

  ghost predicate NumbersDistinct(log: seq<Entry>) {
    forall i, j :: 0 <= i < j < |log| ==> log[i].seqNo != log[j].seqNo
  }

  /** Whatever has failed, an entry the ring still holds is on the file in every state since its line was. */
  lemma RetainedLineStays(t: Trace, since: nat, p: Pushes)
    requires LinesKept(t, since, p) && p.cap >= 1 && NumbersDistinct(p.log)
    ensures RetainedStays(t, since, RingOf(p.log, p.cap).kept)
  {
    hide OnFile, RingOf;
    var kept := RingOf(p.log, p.cap).kept;
    forall e, i, j | e in kept && since <= i <= j < |t.hist| && OnFile(t.hist[i], e)
      ensures OnFile(t.hist[j], e)
    {
      LineLasts(t, since, p, i, j, e);
      KeptIsNotGone(p.log, p.cap, e);
      if EvictedBy(p, e, j) {
        var m: nat :| EvictedIn(p, e, j, m);
        GoneStaysGone(p.log, p.cap, m);
      }
    }
  }

  lemma {:induction false} GoneStaysGone(log: seq<Entry>, cap: nat, m: nat)
    requires cap >= 1 && m <= |log|
    ensures RingOf(log[..m], cap).gone <= RingOf(log, cap).gone
  {
    if m == |log| {
      assert log[..m] == log;
    } else {
      var n := |log| - 1;
      GoneStaysGone(log[..n], cap, m);
      assert log[..n][..m] == log[..m];
      RingLength(log[..n], cap);
      MakeRoomOnce(RingOf(log[..n], cap), cap);
    }
  }

  ghost predicate RetainedStays(t: Trace, since: nat, ring: seq<Entry>) {
    forall e, i, j :: e in ring && since <= i <= j < |t.hist| && OnFile(t.hist[i], e) ==> OnFile(t.hist[j], e)
  }

  lemma KeptIsNotGone(log: seq<Entry>, cap: nat, e: Entry)
    requires cap >= 1 && NumbersDistinct(log) && e in RingOf(log, cap).kept
    ensures e !in RingOf(log, cap).gone
  {
    PushConserves(log, cap);
    var ring := RingOf(log, cap);
    AtMostOnce(log, e);
    assert multiset(log)[e] == multiset(ring.kept)[e] + multiset(ring.gone)[e];
    assert e in multiset(ring.kept);
    assert multiset(ring.gone)[e] == 0;
  }

  lemma {:induction false} AtMostOnce(log: seq<Entry>, e: Entry)
    requires NumbersDistinct(log)
    ensures multiset(log)[e] <= 1
  {
    if log != [] {
      var n := |log| - 1;
      AtMostOnce(log[..n], e);
      assert log == log[..n] + [log[n]];
      if log[n] == e {
        assert e !in log[..n];
      }
    }
  }
}
