// The recorder itself: the state behind the lock and the two files it keeps, call by call.

module Diag {
  import opened Wrappers
  import opened DiagRecords
  import opened Sequences
  import opened DiagRing
  import opened DiagRecorder
  import opened DiagSpans
  import opened DiagFiles
  import opened DiagRingFile
  import opened DiagLines

  // ----- The in-flight file -----

  /** The in-flight file, when there is one, is one whole record: it is only ever replaced, never written in place. */
  ghost predicate InflightWhole(d: Disk) {
    d.Read(InflightPath).Some? ==> |d.Read(InflightPath).value| == 1 && d.Read(InflightPath).value[0].Flight?
  }

  ghost predicate Lists(d: Disk, spans: seq<OpenSpan>) {
    d.Read(InflightPath).Some? && InflightWhole(d) && d.Read(InflightPath).value[0].file.spans == spans
  }

  /**
   * The in-flight file whenever the lock is free. A write that failed removes it, so as long as removals work it is
   * absent or lists exactly the open spans, and is absent after the exit; with no failure it is there exactly when a
   * span is open and the process has not exited.
   */
  ghost predicate InflightOk(d: Disk, s: Recorder, faulty: bool, stuck: bool) {
    && InflightWhole(d)
    && (!stuck ==> d.Read(InflightPath).None? || (!s.exited && s.open != [] && Lists(d, s.open)))
    && (!faulty ==> (d.Read(InflightPath).Some? <==> s.open != [] && !s.exited))
  }

  // ----- Write-ahead -----

  ghost predicate InFlight(d: Disk, seqNo: nat) {
    && d.Read(InflightPath).Some?
    && InflightWhole(d)
    && exists o :: o in d.Read(InflightPath).value[0].file.spans && o.seqNo == seqNo
  }

  ghost predicate OnRingFile(d: Disk, seqNo: nat) {
    d.Read(RingPath).Some? && exists e: Entry :: Line(e) in d.Read(RingPath).value && e.seqNo == seqNo
  }

  /** Between `since` and the kill point `at`, a line numbered `seqNo` was on the ring file. */
  ghost predicate Logged(hist: seq<Disk>, since: nat, at: nat, seqNo: nat) {
    exists j :: since <= j <= at && j < |hist| && OnRingFile(hist[j], seqNo)
  }

  /** At the kill point `at` the span is in flight, or its line has been on the ring file. */
  ghost predicate Protected(hist: seq<Disk>, since: nat, at: nat, seqNo: nat)
    requires at < |hist|
  {
    InFlight(hist[at], seqNo) || Logged(hist, since, at, seqNo)
  }

  /** Every span in `birth` is protected at every kill point from the moment its `span` call returned. */
  ghost predicate WriteAhead(hist: seq<Disk>, since: nat, birth: map<nat, nat>) {
    forall n, i: nat :: n in birth && birth[n] <= i < |hist| ==> Protected(hist, since, i, n)
  }

  /** What a process killed at `at` leaves of a span: it is in flight, on the ring file, or evicted from the ring. */
  ghost predicate Accounted(hist: seq<Disk>, p: Pushes, at: nat, seqNo: nat)
    requires at < |hist|
  {
    InFlight(hist[at], seqNo) || OnRingFile(hist[at], seqNo) || exists e :: EvictedBy(p, e, at) && e.seqNo == seqNo
  }

  /** A line that has been on the ring file is on it still, or its entry has been evicted by then. */
  lemma ProtectedIsAccounted(t: Trace, since: nat, p: Pushes, at: nat, seqNo: nat)
    requires LinesKept(t, since, p) && at < |t.hist| && Protected(t.hist, since, at, seqNo)
    ensures Accounted(t.hist, p, at, seqNo)
  {
    if !InFlight(t.hist[at], seqNo) {
      var j: nat :| since <= j <= at && j < |t.hist| && OnRingFile(t.hist[j], seqNo);
      var e: Entry :| Line(e) in t.hist[j].Read(RingPath).value && e.seqNo == seqNo;
      LineLasts(t, since, p, j, at, e);
    }
  }

  lemma LoggedLater(t: Trace, later: Trace, since: nat, at: nat, i: nat, n: nat)
    requires t.Grew(later) && Logged(t.hist, since, at, n) && at <= i
    ensures Logged(later.hist, since, i, n)
  {
    var j :| since <= j <= at && j < |t.hist| && OnRingFile(t.hist[j], n);
    assert later.hist[j] == t.hist[j];
  }

  /** At every kill point from `since` on the in-flight file is whole; with no failure so far, every span is protected
      too. */
  ghost predicate KillSafe(t: Trace, since: nat, birth: map<nat, nat>) {
    && since < |t.hist|
    && (forall i :: since <= i < |t.hist| ==> InflightWhole(t.hist[i]))
    && (forall n :: n in birth ==> birth[n] < |t.hist|)
    && (!t.faulty ==> WriteAhead(t.hist, since, birth))
  }

  /** File operations that leave the in-flight file alone lose no protection. */
  lemma KillSafeUntouched(t: Trace, later: Trace, since: nat, birth: map<nat, nat>)
    requires t.hist != [] && t.Grew(later) && KillSafe(t, since, birth) && t.Untouched(later, InflightPath)
    ensures KillSafe(later, since, birth)
  {
    forall i | since <= i < |later.hist|
      ensures InflightWhole(later.hist[i])
    {
      var at := if i < |t.hist| then i else |t.hist| - 1;
      assert InflightWhole(t.hist[at]) && later.hist[i].Look(InflightPath) == t.hist[at].Look(InflightPath);
    }
    if !later.faulty {
      var last := |t.hist| - 1;
      forall n, i: nat | n in birth && birth[n] <= i < |later.hist|
        ensures Protected(later.hist, since, i, n)
      {
        var at := if i < |t.hist| then i else last;
        assert Protected(t.hist, since, at, n);
        if Logged(t.hist, since, at, n) {
          LoggedLater(t, later, since, at, i, n);
        } else {
          assert later.hist[i].Look(InflightPath) == t.hist[at].Look(InflightPath);
        }
      }
    }
  }

  /** Replacing the in-flight list loses no protection when every span it leaves out is already on the ring file. */
  lemma KillSafeReplaced(t: Trace, later: Trace, since: nat, birth: map<nat, nat>, spans: seq<OpenSpan>)
    requires t.hist != [] && t.Grew(later) && KillSafe(t, since, birth) && t.ReplacedOnce(later, InflightPath)
    requires later.hist != [] && InflightWhole(later.hist[|later.hist| - 1])
    requires !later.faulty && spans != [] ==> Lists(later.hist[|later.hist| - 1], spans)
    requires !later.faulty ==> forall n :: n in birth ==>
               Logged(t.hist, since, |t.hist| - 1, n) || exists o :: o in spans && o.seqNo == n
    ensures KillSafe(later, since, birth)
  {
    var k :| |t.hist| <= k <= |later.hist| && t.SwitchedAt(later, InflightPath, k);
    forall i | since <= i < |later.hist|
      ensures InflightWhole(later.hist[i])
    {
      var at := if i < |t.hist| then i else |t.hist| - 1;
      assert InflightWhole(t.hist[at]);
      assert i < k ==> later.hist[i].Look(InflightPath) == t.hist[at].Look(InflightPath);
    }
    if !later.faulty {
      var last, end := |t.hist| - 1, later.hist[|later.hist| - 1];
      forall n, i: nat | n in birth && birth[n] <= i < |later.hist|
        ensures Protected(later.hist, since, i, n)
      {
        var at := if i < |t.hist| then i else last;
        assert Protected(t.hist, since, at, n);
        if Logged(t.hist, since, at, n) {
          LoggedLater(t, later, since, at, i, n);
        } else if later.hist[i].Look(InflightPath) != t.hist[at].Look(InflightPath) {
          assert later.hist[i].Read(InflightPath) == end.Read(InflightPath);
          assert InFlight(end, n);
        }
      }
    }
  }

  /** Between calls, a protected span is open or on the ring file. */
  lemma OpenOrLogged(t: Trace, since: nat, birth: map<nat, nat>, s: Recorder)
    requires t.hist != [] && KillSafe(t, since, birth) && !t.faulty
    requires InflightOk(t.hist[|t.hist| - 1], s, false, false)
    ensures forall n :: n in birth ==>
              || Logged(t.hist, since, |t.hist| - 1, n)
              || (!s.exited && exists o :: o in s.open && o.seqNo == n)
  {
    forall n | n in birth
      ensures Logged(t.hist, since, |t.hist| - 1, n) || (!s.exited && exists o :: o in s.open && o.seqNo == n)
    {
      assert Protected(t.hist, since, |t.hist| - 1, n);
    }
  }

  /** Every span of `spans` is still among `now` or already on the ring file. */
  ghost predicate Covered(spans: seq<OpenSpan>, t: Trace, since: nat, now: seq<OpenSpan>) {
    t.hist != [] &&
    forall o :: o in spans ==>
      Logged(t.hist, since, |t.hist| - 1, o.seqNo) || exists o' :: o' in now && o'.seqNo == o.seqNo
  }

  /** Bringing the in-flight file in line with the open spans, once every span that has ended is on the ring file. */
  lemma KillSafeThroughInflight(t: Trace, later: Trace, since: nat, birth: map<nat, nat>, d: Disk, now: Disk,
      s: Recorder, s': Recorder)
    requires t.Valid(d) && later.Valid(now) && t.Grew(later) && t.ReplacedOnce(later, InflightPath)
    requires KillSafe(t, since, birth) && InflightOk(d, s, t.faulty, t.stuck)
             && InflightOk(now, s', later.faulty, later.stuck)
    requires if s'.exited then s.exited || s'.open == [] else !s.exited
    requires !later.faulty ==> Covered(s.open, t, since, s'.open)
    ensures KillSafe(later, since, birth)
  {
    if !later.faulty {
      OpenOrLogged(t, since, birth, s);
    }
    KillSafeReplaced(t, later, since, birth, if s'.exited then [] else s'.open);
  }

  /** A span whose `span` call has just returned is listed. */
  lemma KillSafeAdded(t: Trace, since: nat, birth: map<nat, nat>, spans: seq<OpenSpan>, n: nat)
    requires t.hist != [] && KillSafe(t, since, birth)
    requires !t.faulty ==> Lists(t.hist[|t.hist| - 1], spans) && exists o :: o in spans && o.seqNo == n
    ensures KillSafe(t, since, birth[n := |t.hist| - 1])
  {
    var more := birth[n := |t.hist| - 1];
    if !t.faulty {
      forall m, i: nat | m in more && more[m] <= i < |t.hist|
        ensures Protected(t.hist, since, i, m)
      {
        if m == n {
          assert InFlight(t.hist[i], n);
        } else {
          assert m in birth && birth[m] == more[m];
        }
      }
    }
  }

  lemma InflightKept(d: Disk, now: Disk, s: Recorder, s': Recorder, t: Trace, later: Trace)
    requires InflightOk(d, s, t.faulty, t.stuck) && now.Look(InflightPath) == d.Look(InflightPath) && t.Grew(later)
    requires s'.open == s.open && s'.exited == s.exited
    ensures InflightOk(now, s', later.faulty, later.stuck)
  {
    assert now.Read(InflightPath) == d.Read(InflightPath);
  }

  lemma SameIsUntouched(t: Trace, later: Trace, before: Disk, now: Disk)
    requires t.Valid(before) && OneMore(t, later, now) && now.Look(RingPath) == before.Look(RingPath)
    ensures t.Grew(later) && t.Untouched(later, RingPath) && t.ReplacedOnce(later, InflightPath)
  {
    assert t.SwitchedAt(later, InflightPath, |t.hist|);
  }

  lemma NothingIsReplaced(t: Trace)
    requires t.hist != []
    ensures t.ReplacedOnce(t, InflightPath)
  {
    assert t.SwitchedAt(t, InflightPath, |t.hist|);
  }

  class Diag {
    const cfg: Config
    const fs: FileSystem
    // The kill point at which recording began.
    ghost const since: nat
    var next: nat
    var failures: nat
    var unmatched: nat
    var temps: nat
    // Behind the lock:
    var open: seq<OpenSpan>
    var ring: seq<Entry>
    var ringLines: nat
    var ringFile: Option<Inode>
    var exited: bool
    var evicted: nat
    // Every entry recorded; those whose line could not be written; how many lines have been written; the kill point
    // at which each span begun before the exit was handed to its caller; and the first at which each entry's push could
    // have written.
    ghost var log: seq<Entry>
    ghost var missed: set<Entry>
    ghost var written: nat
    ghost var birth: map<nat, nat>
    ghost var pushedAt: seq<nat>

    ghost function Abs(): Recorder
      reads this
    {
      Recorder(next, open, log, exited, unmatched)
    }

    ghost function Record(): Pushes
      reads this
    {
      Pushes(log, pushedAt, cfg.cap)
    }

    ghost function RingView(): RingState
      reads this
    {
      RingState(log, ring, ringLines, ringFile, missed, written)
    }

    /** The part of the invariant that holds at every moment of a call, and that no failure of a write breaks. */
    ghost predicate RingOk()
      reads this, fs
    {
      && fs.Valid()
      && cfg.cap >= MIN_RING_CAP
      && RingFileOk(RingView(), cfg.cap, fs.disk, fs.trace.faulty)
      && evicted == |RingOf(log, cfg.cap).gone|
      && (fs.trace.faulty ==> failures > 0)
      && Dated(Record(), |fs.trace.hist| - 1)
      && LinesKept(fs.trace, since, Record())
    }

    /** In the course of a call the in-flight file may still show an earlier state. */
    ghost predicate Showing(s: Recorder)
      reads this, fs
    {
      RingOk() && InflightOk(fs.disk, s, fs.trace.faulty, fs.trace.stuck) && KillSafe(fs.trace, since, birth)
    }

    ghost predicate Valid()
      reads this, fs
    {
      Showing(Abs())
    }

    /** The in-flight file, if it is there, is of this moment: the role, the open spans and both counts. */
    ghost predicate InflightIsCurrent()
      reads this, fs
    {
      !fs.trace.stuck && fs.disk.Read(InflightPath).Some? ==>
        fs.disk.Read(InflightPath) == Some([Flight(InflightFile(cfg.role, open, failures, evicted))])
    }

    constructor (cfg: Config, fs: FileSystem, handle: Inode)
      requires fs.Valid() && !fs.trace.faulty && cfg.cap >= MIN_RING_CAP
      requires fs.disk.Look(InflightPath).None? && fs.disk.Look(RingPath) == Some(File(handle, []))
      ensures Valid() && this.cfg == cfg && this.fs == fs
      ensures Abs() == FRESH && birth == map[]
    {
      this.cfg, this.fs, since := cfg, fs, |fs.trace.hist| - 1;
      next, failures, unmatched, temps := 0, 0, 0, 0;
      open, ring, ringLines, ringFile, exited, evicted := [], [], 0, Some(handle), false, 0;
      log, missed, written, birth, pushedAt := [], {}, 0, map[], [];
    }

    /**
     * Start recording: whatever an earlier process with this number left in flight is removed, and its ring file is
     * emptied. When either fails there is no recorder.
     */
    static method Start(role: Subsystem, ringCap: nat, fs: FileSystem) returns (d: Option<Diag>)
      requires fs.Valid() && !fs.trace.faulty
      modifies fs
      ensures fs.Valid() && (d.None? <==> fs.trace.faulty)
      ensures d.Some? ==>
                && fresh(d.value) && d.value.fs == fs && d.value.Valid()
                && d.value.Abs() == FRESH && d.value.birth == map[]
      ensures d.Some? ==> d.value.cfg == Config(role, if ringCap < MIN_RING_CAP then MIN_RING_CAP else ringCap)
    {
      var removed := fs.Remove(InflightPath);
      if !removed {
        return None;
      }
      var h := fs.OpenTruncate(RingPath);
      if h.None? {
        return None;
      }
      var recorder := new Diag(Config(role, if ringCap < MIN_RING_CAP then MIN_RING_CAP else ringCap), fs, h.value);
      d := Some(recorder);
    }

    method NoteWrite(ok: bool)
      modifies `failures
      ensures failures == old(failures) + if ok then 0 else 1
    {
      if !ok {
        failures := failures + 1;
      }
    }

    /** Reopen the ring file when an earlier rewriting left it without a handle. */
    method Reopen() returns (ok: bool)
      requires fs.Valid() && fs.disk.Look(RingPath).Some?
      requires ringFile.Some? ==> ringFile.value == fs.disk.Look(RingPath).value.inode
      requires ringFile.None? ==> fs.trace.faulty
      modifies `ringFile, fs
      ensures fs.Valid() && old(fs.trace).Grew(fs.trace) && old(fs.trace).Untouched(fs.trace, InflightPath)
      ensures old(fs.trace).Untouched(fs.trace, RingPath) && fs.disk == old(fs.disk)
      ensures ok == ringFile.Some? && fs.trace.faulty == old(fs.trace).faulty
      ensures !ok ==> fs.trace.faulty && |fs.trace.hist| > |old(fs.trace).hist|
      ensures ok ==> ringFile.value == fs.disk.Look(RingPath).value.inode
    {
      if ringFile.None? {
        var h := fs.OpenAppend(RingPath);
        ringFile := h;
      }
      ok := ringFile.Some?;
    }

    /** Write one line at the end of the open ring file, or some of it. */
    method AppendLine(e: Entry) returns (ok: bool)
      requires fs.Valid() && fs.disk.Look(RingPath).Some?
      requires ringFile.Some? && ringFile.value == fs.disk.Look(RingPath).value.inode && e in log
      modifies fs
      ensures fs.Valid() && old(fs.trace).Grew(fs.trace) && old(fs.trace).Untouched(fs.trace, InflightPath)
      ensures LinesStay(old(fs.trace), fs.trace, {}, log) && fs.trace.faulty == (old(fs.trace).faulty || !ok)
      ensures |fs.trace.hist| == |old(fs.trace).hist| + 1
      ensures var was := old(fs.disk).Look(RingPath).value;
              if ok then fs.disk.Look(RingPath) == Some(File(was.inode, was.content + [Line(e)]))
              else
                || fs.disk.Look(RingPath) == Some(was)
                || exists whole: nat, bare ::
                     fs.disk.Look(RingPath) == Some(File(was.inode, was.content + TornAt([Line(e)], whole, bare)))
    {
      ok := fs.WriteAll(RingPath, ringFile.value, [Line(e)]);
      AppendStays(old(fs.trace), fs.trace, old(fs.disk), fs.disk, log);
    }

    /** Append the line of `e`, which the ring has just taken. */
    method RingAppend(e: Entry, ghost was: RingState) returns (ok: bool)
      requires fs.Valid() && cfg.cap >= 1 && RingFileOk(was, cfg.cap, fs.disk, fs.trace.faulty)
      requires RingView() == Pushed(was, e, cfg.cap)
      modifies `ringLines, `ringFile, `missed, `written, fs
      ensures fs.Valid() && old(fs.trace).Grew(fs.trace) && old(fs.trace).Untouched(fs.trace, InflightPath)
      ensures if ok then fs.trace.faulty == old(fs.trace).faulty && OnFile(fs.disk, e) else fs.trace.faulty
      ensures LinesStay(old(fs.trace), fs.trace, {}, log) && |fs.trace.hist| > |old(fs.trace).hist|
      ensures missed == if ok then old(missed) else old(missed) + {e}
      ensures written == old(written) + if ok then 1 else 0
      ensures ringLines < 2 * cfg.cap ==> RingFileOk(RingView(), cfg.cap, fs.disk, fs.trace.faulty)
      ensures ringLines >= 2 * cfg.cap ==> AboutToCompact(RingView(), cfg.cap, fs.disk, fs.trace.faulty)
    {
      hide RingFileOk, AboutToCompact, RingOf, LinesStay;
      HandleNamesRingFile(was, cfg.cap, fs.disk, fs.trace.faulty);
      ok := Reopen();
      UntouchedStays(old(fs.trace), fs.trace, log);
      ghost var reopened, before, t := was.(handle := ringFile), fs.trace, RingView();
      ghost var disk := fs.disk;
      Reopened(was, cfg.cap, disk, before.faulty, ringFile);
      if ok {
        ringLines := ringLines + 1;
        ok := AppendLine(e);
        StaysThrough(old(fs.trace), before, fs.trace, {}, log);
        UntouchedTrans(old(fs.trace), before, fs.trace, InflightPath);
      }
      if ok {
        written := written + 1;
        t := LineAppended(reopened, e, cfg.cap, disk, fs.disk, before.faulty);
      } else {
        missed := missed + {e};
        t := LineMissed(reopened, e, cfg.cap, disk, fs.disk, ringLines);
      }
      assert t == RingView();
    }

    /** Start the ring file anew with what the ring holds: no other line is lost, and a failure loses none. */
    method Compact() returns (ghost replaced: bool)
      requires fs.Valid() && AboutToCompact(RingView(), cfg.cap, fs.disk, fs.trace.faulty)
      requires fs.trace.faulty ==> failures > 0
      modifies `ringLines, `ringFile, `temps, `missed, `written, `failures, fs
      ensures fs.Valid() && old(fs.trace).Grew(fs.trace) && old(fs.trace).Untouched(fs.trace, InflightPath)
      ensures RingFileOk(RingView(), cfg.cap, fs.disk, fs.trace.faulty)
      ensures LinesStay(old(fs.trace), fs.trace, Outside(log, ring), log)
      ensures (fs.trace.faulty ==> failures > 0) && failures >= old(failures)
      ensures replaced ==>
                fs.disk.Read(RingPath) == Some(Lines(ring)) && missed == {} && written == old(written) + |ring|
      ensures !replaced ==>
                && fs.disk.Look(RingPath) == old(fs.disk).Look(RingPath)
                && missed == old(missed) && written == old(written) && failures > old(failures) && fs.trace.faulty
    {
      hide RingFileOk, AboutToCompact, RingOf, LinesStay;
      ghost var was, before, t := RingView(), fs.disk, RingView();
      temps := temps + 1;
      replaced := false;
      var ok := RewriteRing();
      ringLines := |ring|;
      NoteWrite(ok);
      if ok {
        replaced := true;
        ghost var rewritten := fs.trace;
        ReopenRewritten();
        StaysThrough(old(fs.trace), rewritten, fs.trace, Outside(log, ring), log);
        UntouchedTrans(old(fs.trace), rewritten, fs.trace, InflightPath);
        AboutToCompactKept(was, cfg.cap, before, old(fs.trace).faulty, fs.trace.faulty);
        t := Compacted(was, cfg.cap, before, fs.disk, ringFile, fs.trace.faulty);
      } else {
        AboutToCompactKept(was, cfg.cap, before, old(fs.trace).faulty, true);
        t := NotCompacted(was, cfg.cap, before, fs.disk);
      }
      assert t == RingView();
    }

    /** The handle on the file that was replaced is given up for one on the file that replaced it. */
    method ReopenRewritten()
      requires fs.Valid() && fs.disk.Look(RingPath).Some? && (fs.trace.faulty ==> failures > 0)
      modifies `ringFile, `missed, `written, `failures, fs
      ensures fs.Valid() && old(fs.trace).Grew(fs.trace) && old(fs.trace).Untouched(fs.trace, InflightPath)
      ensures fs.disk == old(fs.disk) && LinesStay(old(fs.trace), fs.trace, {}, log)
      ensures if ringFile.Some? then ringFile.value == fs.disk.Look(RingPath).value.inode else fs.trace.faulty
      ensures missed == {} && written == old(written) + |ring|
      ensures (fs.trace.faulty ==> failures > 0) && failures >= old(failures)
    {
      hide LinesStay;
      written := written + |ring|;
      missed := {};
      ringFile := fs.OpenAppend(RingPath);
      NoteWrite(ringFile.Some?);
      NothingStays(old(fs.trace), fs.trace, fs.disk, log);
    }

    /** Put the ring's lines in place of the ring file; when that fails the file is as it was. */
    method RewriteRing() returns (ok: bool)
      requires fs.Valid() && AboutToCompact(RingView(), cfg.cap, fs.disk, fs.trace.faulty)
      modifies fs
      ensures fs.Valid() && old(fs.trace).Grew(fs.trace) && old(fs.trace).Untouched(fs.trace, InflightPath)
      ensures LinesStay(old(fs.trace), fs.trace, Outside(log, ring), log)
      ensures ok ==> fs.trace.faulty == old(fs.trace).faulty && fs.disk.Read(RingPath) == Some(Lines(ring))
      ensures !ok ==> fs.trace.faulty && fs.disk.Look(RingPath) == old(fs.disk).Look(RingPath)
    {
      hide LinesStay, RingOf, FileOf;
      ok := fs.WriteAtomic(RingPath, temps, Lines(ring));
      RingMembers(log, cfg.cap);
      ReplacingStays(old(fs.trace), fs.trace, old(fs.disk), fs.disk, log, ring);
    }

    /** Add a completed entry: the ring, with priority eviction, and the ring file. */
    method Push(e: Entry)
      requires RingOk()
      modifies `ring, `evicted, `ringLines, `ringFile, `temps, `failures, `log, `pushedAt, `missed, `written, fs
      ensures RingOk() && log == old(log) + [e]
      ensures RoomMadeFor(old(ring), e, cfg.cap, ring)
      ensures pushedAt == old(pushedAt) + [|old(fs.trace).hist|]
      ensures old(fs.trace).Grew(fs.trace) && old(fs.trace).Untouched(fs.trace, InflightPath)
      ensures OnFile(fs.disk, e) || (failures > old(failures) && fs.trace.faulty)
      ensures missed <= old(missed) + {e} && failures >= old(failures)
      ensures e in missed && e !in old(missed) ==> failures > old(failures)
      ensures old(written) <= written <= old(written) + 1 + cfg.cap
    {
      hide RingFileOk, AboutToCompact, RingOf, LinesKept, LinesStay, Dated, OnFile, RoomMadeFor;
      ghost var was, before := RingView(), fs.trace;
      RingInView(was, cfg.cap, fs.disk, fs.trace.faulty);
      RingPush(e);
      var ok := RingAppend(e, was);
      NoteWrite(ok);
      LinesKeptThrough(before, fs.trace, {}, |before.hist|);
      ghost var appended := fs.trace;
      CompactIfDue(e, |before.hist|);
      UntouchedTrans(before, appended, fs.trace, InflightPath);
    }

    method CompactIfDue(e: Entry, ghost first: nat)
      requires fs.Valid() && cfg.cap >= MIN_RING_CAP && first < |fs.trace.hist| && e in ring && |ring| <= cfg.cap
      requires ring == RingOf(log, cfg.cap).kept && evicted == |RingOf(log, cfg.cap).gone|
      requires if ringLines >= 2 * cfg.cap then AboutToCompact(RingView(), cfg.cap, fs.disk, fs.trace.faulty)
               else RingFileOk(RingView(), cfg.cap, fs.disk, fs.trace.faulty)
      requires fs.trace.faulty ==> failures > 0
      requires LinesKept(fs.trace, since, Record()) && Dated(Record(), first)
      modifies `ringLines, `ringFile, `temps, `missed, `written, `failures, fs
      ensures RingOk() && old(fs.trace).Grew(fs.trace) && old(fs.trace).Untouched(fs.trace, InflightPath)
      ensures OnFile(old(fs.disk), e) ==> OnFile(fs.disk, e)
      ensures missed <= old(missed) && failures >= old(failures)
      ensures old(written) <= written <= old(written) + cfg.cap
    {
      hide RingFileOk, AboutToCompact, RingOf, LinesKept, LinesStay, Dated, OnFile;
      if ringLines >= cfg.cap * 2 {
        ghost var before, content := fs.trace, fs.disk;
        var replaced := Compact();
        LinesKeptThrough(before, fs.trace, Outside(log, ring), first);
        AfterCompaction(e, content, replaced);
      } else {
        DatedLater(Record(), first, |fs.trace.hist| - 1);
      }
    }

    /** The evictions so far account for what the operations took off the file. */
    lemma LinesKeptThrough(t: Trace, later: Trace, dropped: set<Entry>, now: nat)
      requires cfg.cap >= 1 && ring == RingOf(log, cfg.cap).kept && (dropped == {} || dropped == Outside(log, ring))
      requires t.Grew(later) && LinesKept(t, since, Record()) && LinesStay(t, later, dropped, log)
      requires Dated(Record(), now) && now <= |t.hist| && now < |later.hist|
      ensures LinesKept(later, since, Record()) && Dated(Record(), |later.hist| - 1)
    {
      hide RingOf, LinesKept, LinesStay, Dated;
      DatedLater(Record(), now, |t.hist|);
      DatedLater(Record(), now, |later.hist| - 1);
      OutsideIsGone(Record(), |t.hist|);
      LinesKeptStay(t, later, since, Record(), dropped);
    }

    lemma AfterCompaction(e: Entry, before: Disk, replaced: bool)
      requires e in ring
      requires if replaced then fs.disk.Read(RingPath) == Some(Lines(ring))
               else fs.disk.Look(RingPath) == before.Look(RingPath)
      ensures replaced || OnFile(before, e) ==> OnFile(fs.disk, e)
    {
      InLines(ring, e);
    }

    method RingPush(e: Entry)
      requires cfg.cap >= 1 && ring == RingOf(log, cfg.cap).kept && evicted == |RingOf(log, cfg.cap).gone|
      requires Dated(Record(), |fs.trace.hist| - 1) && LinesKept(fs.trace, since, Record())
      modifies `ring, `evicted, `log, `pushedAt
      ensures RingView() == Pushed(old(RingView()), e, cfg.cap) && e in ring && |ring| <= cfg.cap
      ensures RoomMadeFor(old(ring), e, cfg.cap, ring)
      ensures evicted == |RingOf(log, cfg.cap).gone|
      ensures pushedAt == old(pushedAt) + [|fs.trace.hist|]
      ensures Dated(Record(), |fs.trace.hist|) && LinesKept(fs.trace, since, Record())
    {
      hide LinesKept, RingOf, MakeRoom, RoomMadeFor;
      ghost var before := Record();
      EveryPushMakesRoom(log, e, cfg.cap);
      ghost var gone := MakeRoomInRing(RingOf(log, cfg.cap));
      ring := ring + [e];
      RingOfSnoc(log, e, cfg.cap);
      PushedMembers(log, e, cfg.cap);
      RingLength(log + [e], cfg.cap);
      log := log + [e];
      pushedAt := pushedAt + [|fs.trace.hist|];
      LinesKeptMore(fs.trace, since, before, Record());
    }

    /** Evict the lowest ranked, the oldest of them, until there is room for one more. */
    method MakeRoomInRing(ghost r: Ring) returns (ghost gone: seq<Entry>)
      requires cfg.cap >= 1 && ring == r.kept && evicted == |r.gone|
      modifies `ring, `evicted
      ensures Ring(ring, gone) == MakeRoom(r, cfg.cap) && evicted == |gone|
    {
      hide Victim;
      gone := r.gone;
      while |ring| >= cfg.cap
        invariant MakeRoom(Ring(ring, gone), cfg.cap) == MakeRoom(r, cfg.cap)
        invariant evicted == |gone|
        decreases |ring|
        modifies `ring, `evicted
      {
        var victim := Victim(ring);
        gone := gone + [ring[victim]];
        ring := RemoveAt(ring, victim);
        evicted := evicted + 1;
      }
    }

    /** Bring the in-flight file in line with the open spans. */
    method WriteInflight()
      requires RingOk() && InflightWhole(fs.disk)
      requires exited && open != [] && !fs.trace.stuck ==> fs.disk.Read(InflightPath).None?
      modifies `temps, `failures, fs
      ensures RingOk() && InflightOk(fs.disk, Abs(), fs.trace.faulty, fs.trace.stuck)
      ensures old(fs.trace).Grew(fs.trace) && old(fs.trace).ReplacedOnce(fs.trace, InflightPath)
      ensures failures >= old(failures) && InflightIsCurrent()
    {
      hide RingFileOk, RingOf, LinesKept, LinesStay, Dated, InflightOk, Trace.ReplacedOnce, InflightIsCurrent;
      ghost var before := fs.trace;
      UpdateInflight();
      RingFileKept(RingView(), cfg.cap, old(fs.disk), fs.disk, before.faulty, fs.trace.faulty);
      UntouchedStays(before, fs.trace, log);
      LinesKeptThrough(before, fs.trace, {}, |before.hist| - 1);
    }

    method UpdateInflight()
      requires fs.Valid() && InflightWhole(fs.disk) && (fs.trace.faulty ==> failures > 0)
      requires exited && open != [] && !fs.trace.stuck ==> fs.disk.Read(InflightPath).None?
      modifies `temps, `failures, fs
      ensures fs.Valid() && InflightOk(fs.disk, Abs(), fs.trace.faulty, fs.trace.stuck)
      ensures old(fs.trace).Grew(fs.trace) && old(fs.trace).ReplacedOnce(fs.trace, InflightPath)
      ensures old(fs.trace).Untouched(fs.trace, RingPath) && fs.disk.Look(RingPath) == old(fs.disk).Look(RingPath)
      ensures (fs.trace.faulty ==> failures > 0) && failures >= old(failures)
      ensures InflightIsCurrent()
    {
      hide Trace.ReplacedOnce;
      ghost var before := fs.trace;
      if open == [] {
        // With no span open there is to be no file.
        var removed := fs.Remove(InflightPath);
        NoteWrite(removed);
        SameIsUntouched(before, fs.trace, old(fs.disk), fs.disk);
      } else if !exited {
        var ok := ReplaceInflight(InflightFile(cfg.role, open, failures, evicted));
        NoteWrite(ok);
      } else {
        NothingIsReplaced(before);
      }
    }

    /** A file that could not be replaced lists a state that is past, so it is removed. */
    method ReplaceInflight(file: InflightFile) returns (ok: bool)
      requires fs.Valid() && InflightWhole(fs.disk)
      modifies `temps, fs
      ensures fs.Valid() && InflightWhole(fs.disk) && fs.disk.Look(RingPath) == old(fs.disk).Look(RingPath)
      ensures old(fs.trace).Grew(fs.trace) && old(fs.trace).ReplacedOnce(fs.trace, InflightPath)
      ensures old(fs.trace).Untouched(fs.trace, RingPath)
      ensures if ok then fs.trace.faulty == old(fs.trace).faulty else fs.trace.faulty
      ensures ok ==> fs.disk.Read(InflightPath) == Some([Flight(file)])
      ensures !ok && !fs.trace.stuck ==> fs.disk.Read(InflightPath).None?
    {
      temps := temps + 1;
      ok := fs.WriteAtomic(InflightPath, temps, [Flight(file)]);
      UntouchedNow(old(fs.trace), fs.trace, old(fs.disk), fs.disk, RingPath);
      if !ok {
        ghost var failed := fs.trace;
        var _ := fs.Remove(InflightPath);
        ReplacedNext(old(fs.trace), failed, fs.trace, fs.disk, InflightPath);
        UntouchedNext(old(fs.trace), failed, fs.trace, fs.disk, RingPath);
      }
    }

    /** The number a `span` call takes, before it asks for the lock. */
    method Number() returns (seqNo: nat)
      requires Valid()
      modifies `next
      ensures Valid() && seqNo == old(next) && Abs() == old(Abs()).(next := old(next) + 1)
    {
      seqNo := next;
      next := next + 1;
    }

    /** `s` is the state the in-flight file still shows; what it lists and `open` does not is already on the ring
        file. */
    method Sync(ghost s: Recorder)
      requires Showing(s)
      requires if exited then s.exited || open == [] else !s.exited
      requires !fs.trace.faulty ==> Covered(s.open, fs.trace, since, open)
      modifies `temps, `failures, fs
      ensures Valid() && old(fs.trace).Grew(fs.trace) && InflightIsCurrent()
    {
      hide RingFileOk, KillSafe, Covered, LinesKept, Dated, InflightIsCurrent;
      WriteInflight();
      KillSafeThroughInflight(old(fs.trace), fs.trace, since, birth, old(fs.disk), fs.disk, s, Abs());
    }

    ghost method HandOver(seqNo: nat)
      requires Valid() && !exited && open != [] && open[|open| - 1].seqNo == seqNo
      modifies `birth
      ensures Valid() && birth == old(birth)[seqNo := |fs.trace.hist| - 1]
    {
      hide RingFileOk, LinesKept, Dated;
      KillSafeAdded(fs.trace, since, birth, open, seqNo);
      birth := birth[seqNo := |fs.trace.hist| - 1];
    }

    /** The rest of a `span` call, with the lock held. */
    method BeginSpan(seqNo: nat, a: SpanArgs)
      requires Valid()
      modifies `open, `temps, `failures, `birth, fs
      ensures Valid() && old(fs.trace).Grew(fs.trace)
      ensures Abs() == DoBegin(old(Abs()), seqNo, a) && InflightIsCurrent()
      ensures birth == if exited then old(birth) else old(birth)[seqNo := |fs.trace.hist| - 1]
    {
      hide RingFileOk, InflightOk, KillSafe, Covered, Logged, LinesKept, Dated;
      ghost var s := Abs();
      open := open + [Opened(open, seqNo, a)];
      SameNumbers(s.open, fs.trace, since, open);
      Sync(s);
      if !exited {
        HandOver(seqNo);
      }
    }

    /** Record an entry, with the in-flight file still showing `s`. */
    method Note(e: Entry, ghost s: Recorder)
      requires Showing(s)
      modifies `ring, `evicted, `ringLines, `ringFile, `temps, `failures, `log, `pushedAt, `missed, `written, fs
      ensures Showing(s)
      ensures log == old(log) + [e] && old(fs.trace).Grew(fs.trace)
      ensures pushedAt == old(pushedAt) + [|old(fs.trace).hist|]
      ensures !fs.trace.faulty ==> Logged(fs.trace.hist, since, |fs.trace.hist| - 1, e.seqNo)
    {
      hide RingFileOk, InflightOk, KillSafe, OnFile, Logged, LinesKept, Dated;
      Push(e);
      UntouchedNow(old(fs.trace), fs.trace, old(fs.disk), fs.disk, InflightPath);
      InflightKept(old(fs.disk), fs.disk, s, s, old(fs.trace), fs.trace);
      KillSafeUntouched(old(fs.trace), fs.trace, since, birth);
      NowLogged(fs.trace, fs.disk, since, Record(), e);
    }

    /** End the open span at `p`: its entry goes to the ring file before the in-flight file stops listing it. */
    method EndAt(p: nat, outcome: Outcome, extra: Fields)
      requires Valid() && p < |open|
      modifies `open, `ring, `evicted, `ringLines, `ringFile, `temps, `failures, `log, `pushedAt, `missed, `written, fs
      ensures Valid() && old(fs.trace).Grew(fs.trace)
      ensures pushedAt == old(pushedAt) + [|old(fs.trace).hist|]
      ensures open == RemoveAt(old(open), p) && log == old(log) + [Closed(old(open)[p], outcome, extra)]
      ensures InflightIsCurrent()
    {
      hide RingFileOk, InflightOk, KillSafe, Covered, Logged, Closed, LinesKept, Dated;
      ghost var s := Abs();
      var entry := Closed(open[p], outcome, extra);
      open := RemoveAt(open, p);
      Note(entry, s);
      if !fs.trace.faulty {
        ClosedKeepsNumber(s.open[p], outcome, extra);
        CoveredAfterEnd(s.open, p, fs.trace, since);
      }
      Sync(s);
    }

    method End(seqNo: nat, outcome: Outcome, extra: Fields)
      requires Valid()
      modifies this, fs
      ensures Valid() && old(fs.trace).Grew(fs.trace)
      ensures Abs() == DoEnd(old(Abs()), seqNo, outcome, extra) && birth == old(birth)
      ensures EndDoes(old(Abs()), Abs(), seqNo, outcome, extra)
      ensures unmatched == old(unmatched) ==> InflightIsCurrent()
      ensures PushedSince(old(pushedAt), pushedAt, |old(fs.trace).hist|)
    {
      hide RingFileOk, InflightOk, KillSafe, LinesKept, Dated, EndDoes;
      EndStep(Abs(), seqNo, outcome, extra);
      var pos := Position(open, seqNo);
      match pos
      case None =>
        ghost var s := Abs();
        unmatched := unmatched + 1;
        InflightKept(fs.disk, fs.disk, s, Abs(), fs.trace, fs.trace);
      case Some(p) =>
        EndAt(p, outcome, extra);
    }

    /** Change an open span's field, in memory and in flight; a late call is only counted. */
    method SetField(seqNo: nat, key: string, v: Val)
      requires Valid()
      modifies this, fs
      ensures Valid() && old(fs.trace).Grew(fs.trace)
      ensures Abs() == DoSetField(old(Abs()), seqNo, key, v) && birth == old(birth) && pushedAt == old(pushedAt)
      ensures unmatched == old(unmatched) ==> InflightIsCurrent()
    {
      hide RingFileOk, InflightOk, KillSafe, Covered, Logged, LinesKept, Dated;
      var pos := Position(open, seqNo);
      match pos
      case None =>
        ghost var s := Abs();
        unmatched := unmatched + 1;
        InflightKept(fs.disk, fs.disk, s, Abs(), fs.trace, fs.trace);
      case Some(p) =>
        ghost var s := Abs();
        open := open[p := open[p].(fields := PutField(open[p].fields, key, v))];
        SameNumbers(s.open, fs.trace, since, open);
        Sync(s);
    }

    /** An event is numbered and recorded at once: it is never open. */
    method RecordEvent(a: EventArgs)
      requires Valid()
      modifies this, fs
      ensures Valid() && old(fs.trace).Grew(fs.trace)
      ensures Abs() == DoEvent(old(Abs()), a) && birth == old(birth)
      ensures pushedAt == old(pushedAt) + [|old(fs.trace).hist|]
    {
      hide Valid, Showing, Logged;
      var seqNo := Number();
      ghost var s := Abs();
      ValidShows();
      Note(EventEntry(open, seqNo, a), s);
      ShownIsValid(s);
    }

    lemma ValidShows()
      requires Valid()
      ensures Showing(Abs())
    {
    }

    /** Entries recorded since leave what the in-flight file shows right. */
    lemma ShownIsValid(s: Recorder)
      requires Showing(s) && s.open == open && s.exited == exited
      ensures Valid()
    {
      hide RingFileOk, KillSafe, LinesKept, Dated;
      InflightKept(fs.disk, fs.disk, s, Abs(), fs.trace, fs.trace);
    }

    /** The panic hook's event, which never waits for the lock: one that cannot have it is counted as a failed write. */
    method TryEvent(a: EventArgs, wouldBlock: bool) returns (recorded: bool)
      requires Valid()
      modifies this, fs
      ensures Valid() && old(fs.trace).Grew(fs.trace) && recorded == !wouldBlock && birth == old(birth)
      ensures PushedSince(old(pushedAt), pushedAt, |old(fs.trace).hist|)
      ensures recorded ==> Abs() == DoEvent(old(Abs()), a)
      ensures !recorded ==> Abs() == old(Abs()) && failures == old(failures) + 1 && fs.disk == old(fs.disk)
    {
      if wouldBlock {
        failures := failures + 1;
        return false;
      }
      RecordEvent(a);
      return true;
    }

    /** Close every span of `taken`, and count those another thread began. */
    method CloseSpans(taken: seq<OpenSpan>, thread: nat, code: int, ghost s: Recorder) returns (cutOff: nat)
      requires Showing(s)
      modifies `ring, `evicted, `ringLines, `ringFile, `temps, `failures, `log, `pushedAt, `missed, `written, fs
      ensures Showing(s)
      ensures log == old(log) + CloseAll(taken, thread, code) && cutOff == CutOff(taken, thread)
      ensures old(fs.trace).Grew(fs.trace)
      ensures PushedSince(old(pushedAt), pushedAt, |old(fs.trace).hist|)
      ensures !fs.trace.faulty ==> Covered(taken, fs.trace, since, [])
    {
      hide Showing, Covered, Closed, CloseAll, CutOff;
      cutOff := 0;
      NoneCovered(s);
      CloseAllSnoc([], thread, code);
      for i := 0 to |taken|
        invariant Showing(s)
        invariant log == old(log) + CloseAll(taken[..i], thread, code) && cutOff == CutOff(taken[..i], thread)
        invariant old(fs.trace).Grew(fs.trace) && PushedSince(old(pushedAt), pushedAt, |old(fs.trace).hist|)
        invariant !fs.trace.faulty ==> Covered(taken[..i], fs.trace, since, [])
      {
        var span := taken[i];
        assert taken[..i + 1] == taken[..i] + [span];
        CloseAllSnoc(taken[..i + 1], thread, code);
        if span.thread != thread {
          cutOff := cutOff + 1;
        }
        CloseOne(taken[..i], span, ExitOutcome(span, thread, code), s);
      }
      assert taken[..|taken|] == taken;
    }

    lemma NoneCovered(s: Recorder)
      requires Showing(s)
      ensures Covered([], fs.trace, since, [])
    {
    }

    method CloseOne(ghost done: seq<OpenSpan>, span: OpenSpan, outcome: Outcome, ghost s: Recorder)
      requires Showing(s)
      requires !fs.trace.faulty ==> Covered(done, fs.trace, since, [])
      modifies `ring, `evicted, `ringLines, `ringFile, `temps, `failures, `log, `pushedAt, `missed, `written, fs
      ensures Showing(s)
      ensures log == old(log) + [Closed(span, outcome, [])] && old(fs.trace).Grew(fs.trace)
      ensures pushedAt == old(pushedAt) + [|old(fs.trace).hist|]
      ensures !fs.trace.faulty ==> Covered(done + [span], fs.trace, since, [])
    {
      hide RingFileOk, InflightOk, KillSafe, Covered, Logged, Closed, LinesKept, Dated;
      Note(Closed(span, outcome, []), s);
      if !fs.trace.faulty {
        ClosedKeepsNumber(span, outcome, []);
        CoveredGrew(done, span, old(fs.trace), fs.trace, since);
      }
    }

    /**
     * Close what is open, then record the exit, once and for all. `seen` is the count of failures that the exit entry
     * reports.
     */
    method Shutdown(code: int, thread: nat) returns (ghost seen: nat)
      requires Valid()
      modifies this, fs
      ensures Valid() && old(fs.trace).Grew(fs.trace)
      ensures Abs() == DoShutdown(old(Abs()), cfg, code, thread, seen) && birth == old(birth)
      ensures if old(exited) then Abs() == old(Abs()) else ShutDown(old(Abs()), Abs(), cfg, code, thread, seen)
      ensures PushedSince(old(pushedAt), pushedAt, |old(fs.trace).hist|)
    {
      hide Valid, CloseAll, CutOff, ExitFields, ShutDown;
      ghost var s := Abs();
      seen := failures;
      if !exited {
        var cutOff := CloseAtExit(code, thread);
        seen := failures;
        EvictedCounts();
        RecordExit(ExitFields(code, cutOff, failures, evicted), thread);
        ShutdownStep(s, cfg, code, thread, seen);
      }
    }

    lemma EvictedCounts()
      requires Valid()
      ensures cfg.cap >= 1 && evicted == Evicted(|log|, cfg.cap)
    {
      hide RingFileOk, InflightOk, KillSafe, LinesKept, Dated;
      GoneCount(log, cfg.cap);
    }

    method CloseAtExit(code: int, thread: nat) returns (cutOff: nat)
      requires Valid() && !exited
      modifies `exited, `open, `ring, `evicted, `ringLines, `ringFile, `temps, `failures, `log, `pushedAt, `missed,
          `written, fs
      ensures Valid() && old(fs.trace).Grew(fs.trace)
      ensures exited && open == [] && log == old(log) + CloseAll(old(open), thread, code)
      ensures PushedSince(old(pushedAt), pushedAt, |old(fs.trace).hist|)
      ensures cutOff == CutOff(old(open), thread)
    {
      hide RingFileOk, InflightOk, KillSafe, Covered, Logged, CloseAll, CutOff, LinesKept, Dated, PushedSince, RingOf;
      ghost var s := Abs();
      exited := true;
      var taken := open;
      open := [];
      cutOff := CloseSpans(taken, thread, code, s);
      Sync(s);
    }

    method RecordExit(fields: Fields, thread: nat)
      requires Valid()
      modifies `next, `ring, `evicted, `ringLines, `ringFile, `temps, `failures, `log, `pushedAt, `missed, `written, fs
      ensures Valid() && old(fs.trace).Grew(fs.trace)
      ensures pushedAt == old(pushedAt) + [|old(fs.trace).hist|]
      ensures next == old(next) + 1 && log == old(log) + [ExitEntry(cfg, old(next), thread, fields)]
    {
      hide Valid, Showing, Logged;
      var seqNo := Number();
      ghost var s := Abs();
      ValidShows();
      Note(ExitEntry(cfg, seqNo, thread, fields), s);
      ShownIsValid(s);
    }
  }

  lemma CloseAllSnoc(spans: seq<OpenSpan>, thread: nat, code: int)
    ensures spans == [] ==> CloseAll(spans, thread, code) == [] && CutOff(spans, thread) == 0
    ensures spans != [] ==>
              var n := |spans| - 1;
              && CloseAll(spans, thread, code) ==
                 CloseAll(spans[..n], thread, code) + [Closed(spans[n], ExitOutcome(spans[n], thread, code), [])]
              && CutOff(spans, thread) == CutOff(spans[..n], thread) + if spans[n].thread != thread then 1 else 0
  {
    hide Closed, ExitOutcome;
  }

  lemma ClosedKeepsNumber(o: OpenSpan, outcome: Outcome, extra: Fields)
    ensures Closed(o, outcome, extra).seqNo == o.seqNo
  {
  }

  lemma CoveredGrew(spans: seq<OpenSpan>, o: OpenSpan, t: Trace, later: Trace, since: nat)
    requires Covered(spans, t, since, []) && t.Grew(later) && later.hist != []
             && Logged(later.hist, since, |later.hist| - 1, o.seqNo)
    ensures Covered(spans + [o], later, since, [])
  {
    forall x | x in spans
      ensures Logged(later.hist, since, |later.hist| - 1, x.seqNo)
    {
      LoggedLater(t, later, since, |t.hist| - 1, |later.hist| - 1, x.seqNo);
    }
  }

  lemma CoveredAfterEnd(spans: seq<OpenSpan>, p: nat, t: Trace, since: nat)
    requires p < |spans| && t.hist != [] && Logged(t.hist, since, |t.hist| - 1, spans[p].seqNo)
    ensures Covered(spans, t, since, RemoveAt(spans, p))
  {
    var rest := RemoveAt(spans, p);
    forall o | o in spans
      ensures Logged(t.hist, since, |t.hist| - 1, o.seqNo) || exists o' :: o' in rest && o'.seqNo == o.seqNo
    {
      var i :| 0 <= i < |spans| && spans[i] == o;
      if i != p {
        assert rest[if i < p then i else i - 1] in rest;
      }
    }
  }

  lemma SameNumbers(spans: seq<OpenSpan>, t: Trace, since: nat, more: seq<OpenSpan>)
    requires t.hist != [] && |spans| <= |more| && forall i :: 0 <= i < |spans| ==> more[i].seqNo == spans[i].seqNo
    ensures Covered(spans, t, since, more)
  {
    forall o | o in spans
      ensures exists o' :: o' in more && o'.seqNo == o.seqNo
    {
      var i :| 0 <= i < |spans| && spans[i] == o;
      assert more[i] in more;
    }
  }

  lemma NowLogged(t: Trace, d: Disk, since: nat, p: Pushes, e: Entry)
    requires t.Valid(d) && LinesKept(t, since, p)
    ensures OnFile(d, e) ==> Logged(t.hist, since, |t.hist| - 1, e.seqNo)
  {
    if OnFile(d, e) {
      assert OnRingFile(t.hist[|t.hist| - 1], e.seqNo);
    }
  }
}
