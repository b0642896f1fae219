// Whole runs: any sequence of steps carried out on the recorder and its files, and what a reader then makes of them.

module DiagRun {
  import opened Wrappers
  import opened DiagRecords
  import opened DiagRing
  import opened DiagRecorder
  import opened DiagFiles
  import opened DiagRingFile
  import opened DiagLines
  import opened Diag
  import opened DiagReader

  // ----- Whether an exit can still be read, from what was recorded -----

  /** An exit was recorded and its line is still on the file. */
  ghost predicate ExitReadable(log: seq<Entry>, cap: nat)
    requires cap >= 1
  {
    exists at: nat :: at < |log| && IsExit(log[at]) && StillOnFile(log, cap, at)
  }

  /** The verdict is the truth exactly when no exit was recorded, or it is newer than the last rewriting of the file,
      or was in the ring then. When it is not, a process that exited reads as one that did not. */
  lemma VerdictIsTrueExactlyWhen(s: Recorder, exit: Option<ExitInfo>, ring: RingState, cap: nat, d: Disk,
      alive: Option<bool>)
    requires ring.log == s.log && RingFileOk(ring, cap, d, false) && InflightOk(d, s, false, false)
    requires ExitRecorded(s, exit) && NumbersDistinct(s.log)
    ensures VerdictOf(Load(d, alive)) == Truth(s.open != [], exit, alive) <==> exit.None? || ExitReadable(s.log, cap)
    ensures exit.Some? && !ExitReadable(s.log, cap) ==>
              VerdictOf(Load(d, alive)) == if alive == Some(false) then GoneWithoutExit else RunningIdle
  {
    hide FileOf, StillOnFile;
    VerdictAgreesExactlyWhen(s, exit, ring, cap, d, alive);
    LastExitOnFile(s, exit, ring, cap, d);
    if exit.Some? {
      var at :| 0 <= at < |s.log| && SaysExit(s.log[at], exit.value) && OnlyExit(s.log, at);
      OnFileExactlyWhen(s.log, cap, at);
    }
  }

  /** As many entries of an exit's rank recorded after it as the ring holds push it out of the ring. */
  lemma LaterEntriesEvictExit(log: seq<Entry>, cap: nat, at: nat)
    requires cap >= 1 && at < |log| && IsExit(log[at]) && |log| - 1 - at >= cap && OnlyExit(log, at)
    requires forall i :: at < i < |log| ==> EvictionRank(log[i]) >= EvictionRank(log[at])
    ensures forall e :: e in RingOf(log, cap).kept ==> !IsExit(e)
  {
    var idx := RingClosedForm(log, cap);
    RetainedExactlyWhen(log, idx, cap, at);
    var later := Interval(at + 1, |log| - 1);
    SubsetSize(later, Better(log, at));
  }

  /** The exit is lost at a rewriting once as many entries of its rank have followed it as the ring holds. */
  lemma LaterEntriesLoseExit(log: seq<Entry>, cap: nat, at: nat)
    requires cap >= 1 && at < |log| && OnlyExit(log, at) && at + cap < LastCompaction(|log|, cap)
    requires forall i :: at < i < |log| ==> EvictionRank(log[i]) >= EvictionRank(log[at])
    ensures !ExitReadable(log, cap)
  {
    var k := LastCompaction(|log|, cap);
    var later := Interval(at + 1, k - 1);
    SubsetSize(later, Better(log[..k], at));
  }

  ghost function Interval(lo: nat, hi: nat): (r: set<nat>)
    ensures forall j: nat :: j in r <==> lo <= j < hi
    ensures lo <= hi ==> |r| == hi - lo
  {
    if lo < hi then Interval(lo, hi - 1) + {hi - 1} else {}
  }

  // ----- A run that loses its exit -----

  /** An exit at once, when so many writes had failed, and so many events after it. */
  function ExitThenEvents(a: EventArgs, m: nat, failures: nat): seq<Step> {
    if m == 0 then [Shutdown(0, 0, failures)] else ExitThenEvents(a, m - 1, failures) + [Record(a)]
  }

  /** The exit comes first and only events follow it. */
  ghost predicate AfterExit(s: Recorder, m: nat) {
    && |s.log| == m + 1 && s.exited && s.open == [] && IsExit(s.log[0]) && OnlyExit(s.log, 0)
    && forall i :: 0 <= i < |s.log| ==> s.log[i].kind.Event?
  }

  lemma ExitComesFirst(cfg: Config, failures: nat)
    requires cfg.role.IsRole()
    ensures AfterExit(DoShutdown(FRESH, cfg, 0, 0, failures), 0)
  {
    hide ExitFields;
  }

  lemma OneMoreEvent(s: Recorder, a: EventArgs, m: nat)
    requires AfterExit(s, m) && !(a.op == OP_EXIT && a.subsystem.IsRole())
    ensures AfterExit(DoEvent(s, a), m + 1)
  {
  }

  lemma RunOne(cfg: Config, step: Step)
    ensures Run(cfg, [step]) == Apply(System(FRESH, multiset{}), cfg, step)
  {
    assert [step][..0] == [];
  }

  lemma {:induction false} ExitThenEventsRun(cfg: Config, a: EventArgs, m: nat, failures: nat)
    requires cfg.role.IsRole() && !(a.op == OP_EXIT && a.subsystem.IsRole())
    ensures AfterExit(Run(cfg, ExitThenEvents(a, m, failures)).rec, m)
  {
    hide AfterExit, DoEvent, DoShutdown, Run;
    if m == 0 {
      ExitComesFirst(cfg, failures);
      RunOne(cfg, Shutdown(0, 0, failures));
    } else {
      ExitThenEventsRun(cfg, a, m - 1, failures);
      RunSnoc(cfg, ExitThenEvents(a, m - 1, failures), Record(a));
      OneMoreEvent(Run(cfg, ExitThenEvents(a, m - 1, failures)).rec, a, m - 1);
    }
  }

  lemma {:induction false} ExitOfExitThenEvents(cfg: Config, a: EventArgs, m: nat, failures: nat)
    requires !(a.op == OP_EXIT && a.subsystem.IsRole())
    ensures ExitOf(cfg, ExitThenEvents(a, m, failures)) == Some(ExitInfo(0, 0))
    ensures NoCallerExit(ExitThenEvents(a, m, failures))
  {
    var steps := ExitThenEvents(a, m, failures);
    if m == 0 {
      assert steps[..0] == [] && Run(cfg, []).rec.open == [];
    } else {
      ExitOfExitThenEvents(cfg, a, m - 1, failures);
      assert steps[..|steps| - 1] == ExitThenEvents(a, m - 1, failures);
    }
  }

  /** With twice the capacity of entries in all the exit is lost; with one entry fewer it can still be read. */
  lemma ExitLostAtTwiceTheCapacity(cfg: Config, a: EventArgs, m: nat, failures: nat)
    requires cfg.role.IsRole() && !(a.op == OP_EXIT && a.subsystem.IsRole()) && 1 < cfg.cap && m <= 2 * cfg.cap - 1
    ensures ExitReadable(Run(cfg, ExitThenEvents(a, m, failures)).rec.log, cfg.cap) <==> m < 2 * cfg.cap - 1
  {
    hide Run, ExitThenEvents;
    var log := Run(cfg, ExitThenEvents(a, m, failures)).rec.log;
    ExitThenEventsRun(cfg, a, m, failures);
    if m == 2 * cfg.cap - 1 {
      MultipleLeavesNothing(2, cfg.cap);
      LaterEntriesLoseExit(log, cfg.cap, 0);
    } else {
      assert StillOnFile(log, cfg.cap, 0);
    }
  }

  /** What is taken of such a run differs only in the failures its exit finds. */
  lemma {:induction false} TakenIsExitThenEvents(a: EventArgs, m: nat, asked: nat, taken: seq<Step>)
    requires SameSteps(ExitThenEvents(a, m, asked), taken)
    ensures taken != [] && taken[0].Shutdown? && taken == ExitThenEvents(a, m, taken[0].failures)
  {
    if m > 0 {
      var n := |taken| - 1;
      var front := ExitThenEvents(a, m - 1, asked);
      assert SameSteps(front, taken[..n]) by {
        assert forall i :: 0 <= i < n ==> front[i] == ExitThenEvents(a, m, asked)[i] && taken[..n][i] == taken[i];
      }
      TakenIsExitThenEvents(a, m - 1, asked, taken[..n]);
      assert ExitThenEvents(a, m, asked)[n] == Record(a) && taken == taken[..n] + [taken[n]];
    }
  }

  /** Carried out where nothing ever goes wrong, a process that exits cleanly and then records one event fewer than
      twice
      the capacity is said to be gone without an exit; with one event fewer still, the verdict is right. */
  method ExitReadsAsKilled(role: Subsystem, ringCap: nat, fs: FileSystem, a: EventArgs,
      m: nat) returns (verdict: Verdict)
    requires fs.Valid() && fs.Reliable() && role.IsRole() && !(a.op == OP_EXIT && a.subsystem.IsRole())
    requires ringCap >= MIN_RING_CAP && m <= 2 * ringCap - 1
    modifies fs
    ensures verdict == if m == 2 * ringCap - 1 then GoneWithoutExit else ExitedCleanly(0)
  {
    hide ExitReadable, Run, ExitOf, NoCallerExit;
    var asked := ExitThenEvents(a, m, 0);
    ExitOfExitThenEvents(Config(role, ringCap), a, m, 0);
    ghost var taken, cfg;
    verdict, taken, cfg := RunAndRead(role, ringCap, fs, asked, Some(false));
    TakenIsExitThenEvents(a, m, 0, taken);
    ExitOfExitThenEvents(cfg, a, m, taken[0].failures);
    ExitLostAtTwiceTheCapacity(cfg, a, m, taken[0].failures);
  }

  // ----- At every kill point -----

  /** The file is readable, and an exit it reports is the one there was. */
  predicate Honest(v: Verdict, exit: Option<ExitInfo>) {
    match v
    case InflightUnreadable => false
    case ExitCodeUnknown => false
    case ExitedCleanly(code) => exit == Some(ExitInfo(code, 0))
    case ExitedWithWorkCutOff(code, cutOff) => cutOff > 0 && exit == Some(ExitInfo(code, cutOff))
    case _ => true
  }

  ghost predicate AlwaysHonest(t: Trace, since: nat, exit: Option<ExitInfo>) {
    forall i: nat, alive :: since <= i < |t.hist| ==> Honest(VerdictOf(Load(t.hist[i], alive)), exit)
  }

  /** Whatever has failed and wherever the process is killed, between calls or inside one. */
  lemma NeverMisread(t: Trace, since: nat, birth: map<nat, nat>, p: Pushes, s: Recorder, exit: Option<ExitInfo>)
    requires KillSafe(t, since, birth) && LinesKept(t, since, p) && p.log == s.log && ExitRecorded(s, exit)
    ensures AlwaysHonest(t, since, exit)
  {
    hide LinesKept, ExitRecorded;
    forall i: nat, alive | since <= i < |t.hist|
      ensures Honest(VerdictOf(Load(t.hist[i], alive)), exit)
    {
      if t.hist[i].Read(RingPath).Some? {
        var c := t.hist[i].Read(RingPath).value;
        forall k | 0 <= k < |c|
          ensures Allowed(c[k], s.log)
        {
          OnlyRecorded(t, since, p, i, c[k]);
        }
      }
      HonestHere(t.hist[i], s, exit, alive);
    }
  }

  lemma HonestHere(d: Disk, s: Recorder, exit: Option<ExitInfo>, alive: Option<bool>)
    requires InflightWhole(d) && ExitRecorded(s, exit)
    requires d.Read(RingPath).Some? ==> forall c <- d.Read(RingPath).value :: Allowed(c, s.log)
    ensures Honest(VerdictOf(Load(d, alive)), exit)
  {
    hide Readable, Malformed, SortBySeq, FieldOf, Allowed, LastExit;
    var entries := if d.Read(RingPath).Some? then Readable(d.Read(RingPath).value, true) else [];
    if d.Read(RingPath).Some? {
      ReadableAreRecorded(d.Read(RingPath).value, s.log);
    }
    SortedMembers(entries);
    LastExitFinds(Load(d, alive).entries);
    var last := LastExit(Load(d, alive).entries);
    if last.Some? {
      assert last.value in s.log;
      assert exit.Some? && SaysExit(last.value, exit.value);
    }
  }

  // ----- Carrying out a run -----

  /** The spans begun before the first shutdown. */
  function Begun(cfg: Config, steps: seq<Step>): set<nat> {
    if steps == [] then {}
    else
      var front, last := steps[..|steps| - 1], steps[|steps| - 1];
      var sys := Run(cfg, front);
      Begun(cfg, front) + if last.Begin? && last.seqNo in sys.pending && !sys.rec.exited then {last.seqNo} else {}
  }

  lemma BegunSnoc(cfg: Config, steps: seq<Step>, step: Step)
    ensures Begun(cfg, steps + [step]) ==
            Begun(cfg, steps)
            + if step.Begin? && step.seqNo in Run(cfg, steps).pending && !Run(cfg, steps).rec.exited then {step.seqNo}
                else {}
  {
    assert (steps + [step])[..|steps|] == steps;
  }

  function LogAt(cfg: Config, steps: seq<Step>, i: nat): seq<Entry>
    requires i <= |steps|
  {
    Run(cfg, steps[..i]).rec.log
  }

  /** Between two steps, with no failure so far: the disk shows exactly this recorder. */
  ghost predicate Right(d: Disk, s: Recorder, cap: nat) {
    cap >= 1 && d.Read(RingPath) == Some(FileOf(s.log, cap)) && InflightOk(d, s, false, false)
  }

  /**
   * When each step ended, as an index into the states of the disk: in order, the last now, with the disk right after
   * each while nothing has failed; and every entry a step recorded was pushed after the step before had ended.
   */
  ghost predicate Timeline(cfg: Config, steps: seq<Step>, ends: seq<nat>, t: Trace, p: Pushes) {
    && |ends| == |steps| + 1
    && (forall i, j :: 0 <= i <= j < |ends| ==> ends[i] <= ends[j])
    && ends[|steps|] == |t.hist| - 1
    && p.cap == cfg.cap && p.log == Run(cfg, steps).rec.log && |p.at| == |p.log|
    && (!t.faulty ==> forall i :: 0 <= i < |ends| ==> Right(t.hist[ends[i]], Run(cfg, steps[..i]).rec, cfg.cap))
    && (forall i: nat :: i < |steps| ==> PushedWithin(cfg, steps, ends, p, i))
  }

  /** The i-th step pushed what it recorded after the step before it had ended, and not after it ended itself. */
  ghost predicate PushedWithin(cfg: Config, steps: seq<Step>, ends: seq<nat>, p: Pushes, i: nat)
    requires i < |steps| && |ends| == |steps| + 1
  {
    && |LogAt(cfg, steps, i + 1)| <= |p.at|
    && forall j :: |LogAt(cfg, steps, i)| <= j < |LogAt(cfg, steps, i + 1)| ==> ends[i] < p.at[j] <= ends[i + 1]
  }

  /** At every state from the end of the step that began it on, whenever the process is killed, each span begun before
      the shutdown is in flight, on the ring file, or evicted by the pushes begun by then. */
  ghost predicate AllAccounted(cfg: Config, steps: seq<Step>, ends: seq<nat>, t: Trace, p: Pushes) {
    |ends| == |steps| + 1 &&
    forall i: nat, n, at: nat :: i <= |steps| && n in Begun(cfg, steps[..i]) && ends[i] <= at < |t.hist| ==>
      Accounted(t.hist, p, at, n)
  }

  /** Every span begun by the end of a step was handed over by then. */
  ghost predicate BirthsBy(cfg: Config, steps: seq<Step>, ends: seq<nat>, birth: map<nat, nat>) {
    |ends| == |steps| + 1 &&
    forall i: nat, n :: i <= |steps| && n in Begun(cfg, steps[..i]) ==> n in birth && birth[n] <= ends[i]
  }

  lemma KillSafeAccounts(cfg: Config, steps: seq<Step>, ends: seq<nat>, t: Trace, since: nat, birth: map<nat, nat>,
      p: Pushes)
    requires KillSafe(t, since, birth) && !t.faulty && LinesKept(t, since, p) && BirthsBy(cfg, steps, ends, birth)
    ensures AllAccounted(cfg, steps, ends, t, p)
  {
    hide LinesKept, Accounted, Protected, InflightWhole, Begun;
    forall i: nat, n, at: nat | i <= |steps| && n in Begun(cfg, steps[..i]) && ends[i] <= at < |t.hist|
      ensures Accounted(t.hist, p, at, n)
    {
      assert Protected(t.hist, since, at, n);
      ProtectedIsAccounted(t, since, p, at, n);
    }
  }

  lemma TimelineSnoc(cfg: Config, steps: seq<Step>, step: Step, ends: seq<nat>, t: Trace, later: Trace, p: Pushes,
      q: Pushes)
    requires Timeline(cfg, steps, ends, t, p) && t.hist != [] && t.Grew(later)
    requires q.cap == cfg.cap && q.log == Run(cfg, steps + [step]).rec.log && |q.at| == |q.log|
    requires PushedSince(p.at, q.at, |t.hist|) && forall j :: 0 <= j < |q.at| ==> q.at[j] < |later.hist|
    requires !later.faulty ==> Right(later.hist[|later.hist| - 1], Run(cfg, steps + [step]).rec, cfg.cap)
    ensures Timeline(cfg, steps + [step], ends + [|later.hist| - 1], later, q)
    ensures |ends| == |steps| + 1 && ends[|steps|] <= |later.hist| - 1
  {
    hide Right, Run, LogAt, PushedWithin;
    var more, to := steps + [step], ends + [|later.hist| - 1];
    var n := |steps|;
    assert more[..n + 1] == more && steps[..n] == steps;
    forall i | 0 <= i < |to| && !later.faulty
      ensures Right(later.hist[to[i]], Run(cfg, more[..i]).rec, cfg.cap)
    {
      if i <= n {
        assert more[..i] == steps[..i] && to[i] == ends[i] && later.hist[to[i]] == t.hist[ends[i]];
        assert Right(t.hist[ends[i]], Run(cfg, steps[..i]).rec, cfg.cap);
      } else {
        assert more[..i] == more && to[i] == |later.hist| - 1;
      }
    }
    forall i: nat | i < |more|
      ensures PushedWithin(cfg, more, to, q, i)
    {
      if i < n {
        assert PushedWithin(cfg, steps, ends, p, i);
        EarlierStep(cfg, steps, step, ends, |later.hist| - 1, p, q, |t.hist|, i);
      } else {
        LastStep(cfg, steps, step, ends, |later.hist| - 1, p, q, |t.hist|);
      }
    }
  }

  lemma EarlierStep(cfg: Config, steps: seq<Step>, step: Step, ends: seq<nat>, end: nat, p: Pushes, q: Pushes,
      first: nat, i: nat)
    requires i < |steps| && |ends| == |steps| + 1
    requires PushedWithin(cfg, steps, ends, p, i) && PushedSince(p.at, q.at, first)
    ensures PushedWithin(cfg, steps + [step], ends + [end], q, i)
  {
    hide Run;
    var more, to := steps + [step], ends + [end];
    assert more[..i] == steps[..i] && more[..i + 1] == steps[..i + 1];
    assert LogAt(cfg, more, i) == LogAt(cfg, steps, i) && LogAt(cfg, more, i + 1) == LogAt(cfg, steps, i + 1);
    assert to[i] == ends[i] && to[i + 1] == ends[i + 1];
    forall j | |LogAt(cfg, more, i)| <= j < |LogAt(cfg, more, i + 1)|
      ensures to[i] < q.at[j] <= to[i + 1]
    {
      assert q.at[j] == p.at[j];
    }
  }

  lemma LastStep(cfg: Config, steps: seq<Step>, step: Step, ends: seq<nat>, end: nat, p: Pushes, q: Pushes, first: nat)
    requires |ends| == |steps| + 1 && ends[|steps|] < first && PushedSince(p.at, q.at, first)
    requires |p.at| == |Run(cfg, steps).rec.log| && |q.at| == |Run(cfg, steps + [step]).rec.log|
    requires forall j :: 0 <= j < |q.at| ==> q.at[j] <= end
    ensures PushedWithin(cfg, steps + [step], ends + [end], q, |steps|)
  {
    hide Run;
    var more, n := steps + [step], |steps|;
    assert more[..n] == steps && more[..n + 1] == more;
    assert LogAt(cfg, more, n) == Run(cfg, steps).rec.log && LogAt(cfg, more, n + 1) == Run(cfg, more).rec.log;
  }

  lemma BirthsSnoc(cfg: Config, steps: seq<Step>, step: Step, ends: seq<nat>, end: nat, birth: map<nat, nat>,
      now: map<nat, nat>)
    requires BirthsBy(cfg, steps, ends, birth) && ends[|steps|] <= end
    requires var recent := Begun(cfg, steps + [step]) - Begun(cfg, steps);
             && (forall n :: n in birth && n !in recent ==> n in now && now[n] == birth[n])
             && (forall n :: n in recent ==> n in now && now[n] <= end)
    ensures BirthsBy(cfg, steps + [step], ends + [end], now)
  {
    hide Run;
    var more, to := steps + [step], ends + [end];
    var m := |steps|;
    BegunSnoc(cfg, steps, step);
    assert more[..m + 1] == more && steps[..m] == steps;
    forall i: nat, n | i <= m + 1 && n in Begun(cfg, more[..i])
      ensures n in now && now[n] <= to[i]
    {
      if i <= m {
        assert more[..i] == steps[..i];
        BegunGrows(cfg, steps, i);
      } else if n in Begun(cfg, steps) {
        assert n in Begun(cfg, steps[..m]);
      }
    }
  }

  lemma {:induction false} BegunGrows(cfg: Config, steps: seq<Step>, i: nat)
    requires i <= |steps|
    ensures Begun(cfg, steps[..i]) <= Begun(cfg, steps)
  {
    hide Run;
    if i == |steps| {
      assert steps[..i] == steps;
    } else {
      var n := |steps| - 1;
      BegunGrows(cfg, steps[..n], i);
      assert steps[..n][..i] == steps[..i];
    }
  }

  /** A span begun is held, open or recorded, so its number is not waiting for the lock again. */
  lemma {:induction false} BegunIsHeld(cfg: Config, steps: seq<Step>, k: nat)
    requires k in Begun(cfg, steps)
    ensures Held(Run(cfg, steps).rec, k) >= 1 && Run(cfg, steps).pending[k] == 0
  {
    hide Held;
    EveryRunConserves(cfg, steps);
    assert Run(cfg, steps).pending[k] + Held(Run(cfg, steps).rec, k) <= 1;
    var n := |steps| - 1;
    var sys := Run(cfg, steps[..n]);
    if k in Begun(cfg, steps[..n]) {
      BegunIsHeld(cfg, steps[..n], k);
      HeldStays(sys, cfg, steps[n], k);
    } else {
      BeginConserves(sys.rec, k, steps[n].span, k);
    }
  }

  lemma HeldStays(sys: System, cfg: Config, step: Step, k: nat)
    ensures Held(Apply(sys, cfg, step).rec, k) >= Held(sys.rec, k)
  {
    hide Held;
    match step
    case Number => NumberConserves(sys.rec, k);
    case Begin(n, a) => BeginConserves(sys.rec, n, a, k);
    case End(n, outcome, extra) => EndConserves(sys.rec, n, outcome, extra, k);
    case SetField(n, key, v) => SetFieldConserves(sys.rec, n, key, v, k);
    case Record(a) => EventConserves(sys.rec, a, k);
    case Shutdown(code, thread, failures) => ShutdownConserves(sys.rec, cfg, code, thread, failures, k);
  }

  /** The same steps, but for the failure count each exit finds. */
  ghost predicate SameSteps(asked: seq<Step>, taken: seq<Step>) {
    && |asked| == |taken|
    && forall i :: 0 <= i < |asked| ==>
         asked[i] == taken[i]
             || (asked[i].Shutdown? && taken[i].Shutdown? && asked[i] == taken[i].(failures := asked[i].failures))
  }

  /**
   * Carry out any interleaving of steps on a recorder just started. `pending` holds the numbers issued to `span`
   * calls that have not taken the lock yet, and `ends` is when each step ended. Whatever fails, a retained entry is on
   * the ring file in every state since its line was; while nothing has failed, every span begun before the shutdown is
   * accounted for at every kill point from the end of its step on. Wherever it is killed and whatever failed, no exit
   * is read that was not made.
   */
  method Drive(d: Diag, asked: seq<Step>) returns (ghost taken: seq<Step>, ghost ends: seq<nat>)
    requires d.Valid() && d.Abs() == FRESH && d.birth == map[]
    modifies d, d.fs
    ensures d.Valid() && SameSteps(asked, taken) && d.Abs() == Run(d.cfg, taken).rec
    ensures old(d.fs.trace).Grew(d.fs.trace)
    ensures Timeline(d.cfg, taken, ends, d.fs.trace, d.Record()) && ends[0] == |old(d.fs.trace).hist| - 1
    ensures RetainedStays(d.fs.trace, d.since, d.ring)
    ensures d.cfg.role.IsRole() && NoCallerExit(asked) ==> AlwaysHonest(d.fs.trace, d.since, ExitOf(d.cfg, taken))
    ensures !d.fs.trace.faulty ==> AllAccounted(d.cfg, taken, ends, d.fs.trace, d.Record())
  {
    hide Diag.Valid, Apply, Timeline, BirthsBy;
    var pending: multiset<nat> := multiset{};
    SomeState(d);
    taken, ends := [], [|d.fs.trace.hist| - 1];
    BeforeSteps(d, ends);
    for i := 0 to |asked|
      invariant d.Valid() && SameSteps(asked[..i], taken) && old(d.fs.trace).Grew(d.fs.trace)
      invariant System(d.Abs(), pending) == Run(d.cfg, taken)
      invariant Timeline(d.cfg, taken, ends, d.fs.trace, d.Record()) && BirthsBy(d.cfg, taken, ends, d.birth)
      invariant ends != [] && ends[0] == |old(d.fs.trace).hist| - 1
    {
      ghost var step;
      ghost var was, record, births := d.fs.trace, d.Record(), d.birth;
      pending, step := TakeStep(d, asked[i], pending);
      RunSnoc(d.cfg, taken, step);
      AfterStep(d, taken, step, ends, was, record, births);
      assert asked[..i + 1] == asked[..i] + [asked[i]];
      SameStepsSnoc(asked[..i], taken, asked[i], step);
      taken, ends := taken + [step], ends + [|d.fs.trace.hist| - 1];
    }
    assert asked[..|asked|] == asked;
    AfterRun(d, taken, ends);
    if d.cfg.role.IsRole() && NoCallerExit(asked) {
      ReadsHonestly(d, taken);
    }
  }

  lemma SomeState(d: Diag)
    requires d.Valid()
    ensures d.fs.trace.hist != []
  {
  }

  /** What the disk is after a step, and what is known of the pushes. */
  lemma ValidIsRight(d: Diag)
    requires d.Valid()
    ensures d.fs.trace.hist != []
    ensures !d.fs.trace.faulty ==> Right(d.fs.trace.hist[|d.fs.trace.hist| - 1], d.Abs(), d.cfg.cap)
    ensures |d.pushedAt| == |d.log| && forall j :: 0 <= j < |d.pushedAt| ==> d.pushedAt[j] < |d.fs.trace.hist|
  {
    hide KillSafe, LinesKept, InflightOk, FileOf;
  }

  lemma BeforeSteps(d: Diag, ends: seq<nat>)
    requires d.Valid() && d.Abs() == FRESH && d.birth == map[] && ends == [|d.fs.trace.hist| - 1]
    ensures Timeline(d.cfg, [], ends, d.fs.trace, d.Record()) && BirthsBy(d.cfg, [], ends, d.birth)
  {
    hide KillSafe, LinesKept;
  }

  lemma AfterStep(d: Diag, taken: seq<Step>, step: Step, ends: seq<nat>, was: Trace, record: Pushes,
      births: map<nat, nat>)
    requires d.Valid() && was.hist != [] && was.Grew(d.fs.trace) && d.Abs() == Run(d.cfg, taken + [step]).rec
    requires Timeline(d.cfg, taken, ends, was, record) && BirthsBy(d.cfg, taken, ends, births)
    requires PushedSince(record.at, d.pushedAt, |was.hist|)
    requires var begins := step.Begin? && step.seqNo in Run(d.cfg, taken).pending && !Run(d.cfg, taken).rec.exited;
             d.birth == if begins then births[step.seqNo := |d.fs.trace.hist| - 1] else births
    ensures Timeline(d.cfg, taken + [step], ends + [|d.fs.trace.hist| - 1], d.fs.trace, d.Record())
    ensures BirthsBy(d.cfg, taken + [step], ends + [|d.fs.trace.hist| - 1], d.birth)
  {
    hide Diag.Valid, Timeline, BirthsBy, Right, Run, Begun;
    ValidIsRight(d);
    TimelineSnoc(d.cfg, taken, step, ends, was, d.fs.trace, record, d.Record());
    BegunSnoc(d.cfg, taken, step);
    if step.Begin? && step.seqNo in Begun(d.cfg, taken) {
      BegunIsHeld(d.cfg, taken, step.seqNo);
    }
    BirthsSnoc(d.cfg, taken, step, ends, |d.fs.trace.hist| - 1, births, d.birth);
  }

  lemma ReadsHonestly(d: Diag, taken: seq<Step>)
    requires d.Valid() && d.Abs() == Run(d.cfg, taken).rec && d.cfg.role.IsRole() && NoCallerExit(taken)
    ensures AlwaysHonest(d.fs.trace, d.since, ExitOf(d.cfg, taken))
  {
    hide RingFileOk, KillSafe, InflightOk, LinesKept, Dated, ExitRecorded, AlwaysHonest;
    ExactlyOneExit(d.cfg, taken);
    NeverMisread(d.fs.trace, d.since, d.birth, d.Record(), d.Abs(), ExitOf(d.cfg, taken));
  }

  lemma AfterRun(d: Diag, taken: seq<Step>, ends: seq<nat>)
    requires d.Valid() && d.Abs() == Run(d.cfg, taken).rec && BirthsBy(d.cfg, taken, ends, d.birth)
    ensures RetainedStays(d.fs.trace, d.since, d.ring)
    ensures !d.fs.trace.faulty ==> AllAccounted(d.cfg, taken, ends, d.fs.trace, d.Record())
  {
    hide RingFileOk, KillSafe, InflightOk, LinesKept, Dated;
    CompletedAtMostOnce(d.cfg, taken);
    RingInView(d.RingView(), d.cfg.cap, d.fs.disk, d.fs.trace.faulty);
    RetainedLineStays(d.fs.trace, d.since, d.Record());
    if !d.fs.trace.faulty {
      KillSafeAccounts(d.cfg, taken, ends, d.fs.trace, d.since, d.birth, d.Record());
    }
  }

  lemma SameStepsSnoc(asked: seq<Step>, taken: seq<Step>, x: Step, y: Step)
    requires SameSteps(asked, taken) && SameSteps([x], [y])
    ensures SameSteps(asked + [x], taken + [y])
  {
    assert [x][0] == x && [y][0] == y;
  }

  method TakeStep(d: Diag, step: Step, pending: multiset<nat>) returns (now: multiset<nat>, ghost taken: Step)
    requires d.Valid()
    modifies d, d.fs
    ensures d.Valid() && SameSteps([step], [taken])
    ensures System(d.Abs(), now) == Apply(System(old(d.Abs()), pending), d.cfg, taken)
    ensures old(d.fs.trace).Grew(d.fs.trace) && PushedSince(old(d.pushedAt), d.pushedAt, |old(d.fs.trace).hist|)
    ensures d.birth == if taken.Begin? && taken.seqNo in pending && !old(d.exited)
                       then old(d.birth)[taken.seqNo := |d.fs.trace.hist| - 1] else old(d.birth)
  {
    hide Diag.Valid;
    now, taken := pending, step;
    match step
    case Number =>
      var n := d.Number();
      now := pending + multiset{n};
    case Begin(n, a) =>
      if n in pending {
        d.BeginSpan(n, a);
        now := pending - multiset{n};
      }
    case End(n, outcome, extra) => d.End(n, outcome, extra);
    case SetField(n, key, v) => d.SetField(n, key, v);
    case Record(a) => d.RecordEvent(a);
    case Shutdown(code, thread, failures) =>
      ghost var seen := d.Shutdown(code, thread);
      taken := Shutdown(code, thread, seen);
  }

  /**
   * For any run whose files have not failed, the verdict on the files is the truth about the process, whether it is
   * still running or was killed between two calls, exactly when it has not exited or its exit can still be read.
   */
  method RunAndRead(role: Subsystem, ringCap: nat, fs: FileSystem, asked: seq<Step>, alive: Option<bool>)
    returns (verdict: Verdict, ghost taken: seq<Step>, ghost cfg: Config)
    requires fs.Valid() && !fs.trace.faulty && role.IsRole() && NoCallerExit(asked)
    modifies fs
    ensures fs.Valid() && cfg.cap == if ringCap < MIN_RING_CAP then MIN_RING_CAP else ringCap
    ensures !fs.trace.faulty ==>
              var s := Run(cfg, taken).rec;
              && cfg.role == role && SameSteps(asked, taken)
              && (verdict == Truth(s.open != [], ExitOf(cfg, taken), alive) <==>
                  ExitOf(cfg, taken).None? || ExitReadable(s.log, cfg.cap))
              && (ExitOf(cfg, taken).Some? && !ExitReadable(s.log, cfg.cap) ==>
                    verdict == if alive == Some(false) then GoneWithoutExit else RunningIdle)
  {
    hide Timeline, AllAccounted, AlwaysHonest, RetainedStays, ExitReadable, Truth, Load, VerdictOf, KillSafe, LinesKept,
      Dated, FileOf;
    var started := Diag.Start(role, ringCap, fs);
    taken, cfg := [], Config(role, if ringCap < MIN_RING_CAP then MIN_RING_CAP else ringCap);
    if started.Some? {
      var d := started.value;
      ghost var ends;
      taken, ends := Drive(d, asked);
      if !fs.trace.faulty {
        ExactlyOneExit(cfg, taken);
        CompletedAtMostOnce(cfg, taken);
        VerdictIsTrueExactlyWhen(d.Abs(), ExitOf(cfg, taken), d.RingView(), cfg.cap, fs.disk, alive);
      }
    }
    verdict := VerdictOf(Load(fs.disk, alive));
  }
}
