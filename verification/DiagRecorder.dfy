// The recorder's logical state and every step a thread can take on it. `span` is two steps, because a sequence number
// is issued before the state lock is taken; everything else happens whole under the lock.

module DiagRecorder {
  import opened Wrappers
  import opened DiagRecords
  import opened Sequences
  import opened DiagRing

  datatype Config = Config(role: Subsystem, cap: nat)

  /** `log` is every entry ever recorded, oldest first; the ring is `RingOf(log, cap)`. */
  datatype Recorder = Recorder(next: nat, open: seq<OpenSpan>, log: seq<Entry>, exited: bool, unmatched: nat)

  const FRESH := Recorder(0, [], [], false, 0)

  /** What a caller says when it begins a span. */
  datatype SpanArgs = SpanArgs(subsystem: Subsystem, op: string, cls: Class, fields: Fields, thread: nat)

  datatype EventArgs = EventArgs(subsystem: Subsystem, op: string, fields: Fields, thread: nat)

  function Evicted(pushed: nat, cap: nat): nat {
    if pushed > cap then pushed - cap else 0
  }

  lemma GoneCount(log: seq<Entry>, cap: nat)
    requires cap >= 1
    ensures |RingOf(log, cap).gone| == Evicted(|log|, cap)
  {
    PushConserves(log, cap);
    RingLength(log, cap);
    var ring := RingOf(log, cap);
    assert |multiset(log)| == |multiset(ring.kept)| + |multiset(ring.gone)|;
  }

  function OpenOn(open: seq<OpenSpan>, thread: nat): nat {
    if open == [] then 0
    else OpenOn(open[..|open| - 1], thread) + if open[|open| - 1].thread == thread then 1 else 0
  }

  /** How many of the spans were begun on another thread than the one that is leaving. */
  function CutOff(open: seq<OpenSpan>, thread: nat): nat {
    if open == [] then 0
    else CutOff(open[..|open| - 1], thread) + if open[|open| - 1].thread != thread then 1 else 0
  }

  /** The first open span numbered `seqNo`. */
  function Position(open: seq<OpenSpan>, seqNo: nat): (p: Option<nat>)
    ensures p.Some? ==> p.value < |open| && open[p.value].seqNo == seqNo
    ensures p.None? ==> forall i :: 0 <= i < |open| ==> open[i].seqNo != seqNo
  {
    if open == [] then None
    else if open[0].seqNo == seqNo then Some(0)
    else
      var rest := Position(open[1..], seqNo);
      if rest.Some? then Some(rest.value + 1) else None
  }

  function Opened(open: seq<OpenSpan>, seqNo: nat, a: SpanArgs): OpenSpan {
    OpenSpan(seqNo, a.cls, a.subsystem, a.op, OwnFields(a.fields), OpenOn(open, a.thread), a.thread)
  }

  function Closed(o: OpenSpan, outcome: Outcome, extra: Fields): Entry {
    Entry(o.seqNo, Span, o.cls, o.subsystem, o.op, PutAll(o.fields, extra), o.depth, o.thread, Some(outcome))
  }

  /** How a span still open at the exit ends: interrupted, unless the thread that is leaving began it. */
  function ExitOutcome(o: OpenSpan, thread: nat, code: int): Outcome {
    if o.thread != thread then Abandoned
    else match o.cls
      case Top => if code == 0 then Success else Failed
      case Leaf => Abandoned
  }

  function CloseAll(open: seq<OpenSpan>, thread: nat, code: int): (r: seq<Entry>)
    ensures |r| == |open|
    ensures forall i :: 0 <= i < |open| ==> r[i] == Closed(open[i], ExitOutcome(open[i], thread, code), [])
  {
    seq(|open|, i requires 0 <= i < |open| => Closed(open[i], ExitOutcome(open[i], thread, code), []))
  }

  function EventEntry(open: seq<OpenSpan>, seqNo: nat, a: EventArgs): Entry {
    Entry(seqNo, Event, Top, a.subsystem, a.op, OwnFields(a.fields), OpenOn(open, a.thread), a.thread, None)
  }

  function ExitFields(code: int, cutOff: nat, failures: nat, evicted: nat): Fields {
    [(FIELD_CODE, I64(code))]
    + (if cutOff > 0 then [(FIELD_CUT_OFF, U64(cutOff))] else [])
    + (if failures > 0 then [(FIELD_WRITE_FAILURES, U64(failures))] else [])
    + (if evicted > 0 then [(FIELD_EVICTED, U64(evicted))] else [])
  }

  function ExitEntry(cfg: Config, seqNo: nat, thread: nat, fields: Fields): Entry {
    Entry(seqNo, Event, Top, cfg.role, OP_EXIT, fields, 0, thread, None)
  }

  // ----- The steps -----

  function DoBegin(s: Recorder, seqNo: nat, a: SpanArgs): Recorder {
    s.(open := s.open + [Opened(s.open, seqNo, a)])
  }

  function DoEnd(s: Recorder, seqNo: nat, outcome: Outcome, extra: Fields): Recorder {
    match Position(s.open, seqNo)
    case None => s.(unmatched := s.unmatched + 1)
    case Some(p) => s.(open := RemoveAt(s.open, p), log := s.log + [Closed(s.open[p], outcome, extra)])
  }

  function DoSetField(s: Recorder, seqNo: nat, key: string, v: Val): Recorder {
    match Position(s.open, seqNo)
    case None => s.(unmatched := s.unmatched + 1)
    case Some(p) => s.(open := s.open[p := s.open[p].(fields := PutField(s.open[p].fields, key, v))])
  }

  function DoEvent(s: Recorder, a: EventArgs): Recorder {
    s.(next := s.next + 1, log := s.log + [EventEntry(s.open, s.next, a)])
  }

  /** `failures` is how many writes had failed by the time the exit entry was made. */
  function DoShutdown(s: Recorder, cfg: Config, code: int, thread: nat, failures: nat): Recorder {
    if s.exited then s
    else
      var closed := s.log + CloseAll(s.open, thread, code);
      var fields := ExitFields(code, CutOff(s.open, thread), failures, Evicted(|closed|, cfg.cap));
      Recorder(s.next + 1, [], closed + [ExitEntry(cfg, s.next, thread, fields)], true, s.unmatched)
  }

  /** The recorder and the sequence numbers issued to a `span` call that has not taken the lock yet. */
  datatype System = System(rec: Recorder, pending: multiset<nat>)

  datatype Step =
    | Number
    | Begin(seqNo: nat, span: SpanArgs)
    | End(seqNo: nat, outcome: Outcome, extra: Fields)
    | SetField(seqNo: nat, key: string, v: Val)
    | Record(event: EventArgs)
    | Shutdown(code: int, thread: nat, failures: nat)

  /** A `Begin` is taken only by a thread that holds the number; any other step may come at any time. */
  function Apply(sys: System, cfg: Config, step: Step): System {
    match step
    case Number => System(sys.rec.(next := sys.rec.next + 1), sys.pending + multiset{sys.rec.next})
    case Begin(n, a) => if n in sys.pending then System(DoBegin(sys.rec, n, a), sys.pending - multiset{n}) else sys
    case End(n, outcome, extra) => sys.(rec := DoEnd(sys.rec, n, outcome, extra))
    case SetField(n, key, v) => sys.(rec := DoSetField(sys.rec, n, key, v))
    case Record(a) => sys.(rec := DoEvent(sys.rec, a))
    case Shutdown(code, thread, failures) => sys.(rec := DoShutdown(sys.rec, cfg, code, thread, failures))
  }

  /** The system after any interleaving of steps. */
  function Run(cfg: Config, steps: seq<Step>): System {
    if steps == [] then System(FRESH, multiset{})
    else Apply(Run(cfg, steps[..|steps| - 1]), cfg, steps[|steps| - 1])
  }

  lemma RunSnoc(cfg: Config, steps: seq<Step>, step: Step)
    ensures Run(cfg, steps + [step]) == Apply(Run(cfg, steps), cfg, step)
  {
    assert (steps + [step])[..|steps|] == steps;
  }

  // ----- Conservation of sequence numbers -----

  function SpanNos(open: seq<OpenSpan>): (r: seq<nat>)
    ensures |r| == |open|
    ensures forall i :: 0 <= i < |open| ==> r[i] == open[i].seqNo
  {
    seq(|open|, i requires 0 <= i < |open| => open[i].seqNo)
  }

  function EntryNos(log: seq<Entry>): (r: seq<nat>)
    ensures |r| == |log|
    ensures forall i :: 0 <= i < |log| ==> r[i] == log[i].seqNo
  {
    seq(|log|, i requires 0 <= i < |log| => log[i].seqNo)
  }

  /** In how many places the recorder holds number `k`: an open span, or a recorded entry. */
  ghost function Held(s: Recorder, k: nat): nat {
    multiset(SpanNos(s.open))[k] + multiset(EntryNos(s.log))[k]
  }

  /** Every number issued is in exactly one place: waiting for the lock, open, or recorded. */
  ghost predicate Conserved(sys: System) {
    forall k: nat :: sys.pending[k] + Held(sys.rec, k) == if k < sys.rec.next then 1 else 0
  }

  lemma {:induction false} EveryRunConserves(cfg: Config, steps: seq<Step>)
    ensures Conserved(Run(cfg, steps))
  {
    if steps != [] {
      var n := |steps| - 1;
      EveryRunConserves(cfg, steps[..n]);
      var sys := Run(cfg, steps[..n]);
      forall k: nat
        ensures Run(cfg, steps).pending[k] + Held(Run(cfg, steps).rec, k) ==
                if k < Run(cfg, steps).rec.next then 1 else 0
      {
        assert sys.pending[k] + Held(sys.rec, k) == if k < sys.rec.next then 1 else 0;
        StepConserves(sys, cfg, steps[n], k);
      }
    }
  }

  /** A step moves a number from one place to another, or puts a number just issued in one place. */
  lemma StepConserves(sys: System, cfg: Config, step: Step, k: nat)
    ensures var after := Apply(sys, cfg, step);
            && sys.rec.next <= after.rec.next <= sys.rec.next + 1
            && after.pending[k] + Held(after.rec, k) ==
               sys.pending[k] + Held(sys.rec, k) + if sys.rec.next <= k < after.rec.next then 1 else 0
  {
    hide Held;
    match step
    case Number => NumberConserves(sys.rec, k);
    case Begin(n, a) => BeginConserves(sys.rec, n, a, k);
    case End(n, outcome, extra) => EndConserves(sys.rec, n, outcome, extra, k);
    case SetField(n, key, v) => SetFieldConserves(sys.rec, n, key, v, k);
    case Record(a) => EventConserves(sys.rec, a, k);
    case Shutdown(code, thread, failures) => ShutdownConserves(sys.rec, cfg, code, thread, failures, k);
  }

  lemma NumberConserves(s: Recorder, k: nat)
    ensures Held(s.(next := s.next + 1), k) == Held(s, k)
  {
  }

  lemma BeginConserves(s: Recorder, n: nat, a: SpanArgs, k: nat)
    ensures Held(DoBegin(s, n, a), k) == Held(s, k) + if k == n then 1 else 0
  {
    assert SpanNos(DoBegin(s, n, a).open) == SpanNos(s.open) + [n];
  }

  lemma SetFieldConserves(s: Recorder, n: nat, key: string, v: Val, k: nat)
    ensures Held(DoSetField(s, n, key, v), k) == Held(s, k)
  {
    assert SpanNos(DoSetField(s, n, key, v).open) == SpanNos(s.open);
  }

  lemma EventConserves(s: Recorder, a: EventArgs, k: nat)
    ensures Held(DoEvent(s, a), k) == Held(s, k) + if k == s.next then 1 else 0
  {
    assert EntryNos(DoEvent(s, a).log) == EntryNos(s.log) + [s.next];
  }

  lemma ShutdownConserves(s: Recorder, cfg: Config, code: int, thread: nat, failures: nat, k: nat)
    ensures Held(DoShutdown(s, cfg, code, thread, failures), k) ==
            Held(s, k) + if !s.exited && k == s.next then 1 else 0
  {
    if !s.exited {
      var t := DoShutdown(s, cfg, code, thread, failures);
      assert EntryNos(t.log) == EntryNos(s.log) + SpanNos(s.open) + [s.next];
      assert SpanNos(t.open) == [];
    }
  }

  lemma EndConserves(s: Recorder, n: nat, outcome: Outcome, extra: Fields, k: nat)
    ensures Held(DoEnd(s, n, outcome, extra), k) == Held(s, k)
  {
    var t := DoEnd(s, n, outcome, extra);
    var p := Position(s.open, n);
    if p.Some? {
      assert SpanNos(t.open) == RemoveAt(SpanNos(s.open), p.value);
      RemoveAtMultiset(SpanNos(s.open), p.value);
      assert EntryNos(t.log) == EntryNos(s.log) + [n];
    }
  }

  lemma TwiceInSequence(s: seq<nat>, i: nat, j: nat)
    requires i < j < |s| && s[i] == s[j]
    ensures multiset(s)[s[i]] >= 2
  {
    assert s == s[..j] + s[j..];
    assert s[i] in s[..j] && s[j] in s[j..];
  }

  /** Issued numbers: where the ring has evicted entries, the evicted ones count too. */
  lemma NumbersAreAccountedFor(cfg: Config, steps: seq<Step>)
    requires cfg.cap >= 1
    ensures var sys := Run(cfg, steps); var ring := RingOf(sys.rec.log, cfg.cap);
            && sys.rec.next == |sys.pending| + |sys.rec.open| + |ring.kept| + |ring.gone|
            && multiset(sys.rec.log) == multiset(ring.kept) + multiset(ring.gone)
            && |ring.gone| == Evicted(|sys.rec.log|, cfg.cap)
  {
    var sys := Run(cfg, steps);
    EveryRunConserves(cfg, steps);
    PushConserves(sys.rec.log, cfg.cap);
    RingLength(sys.rec.log, cfg.cap);
    GoneCount(sys.rec.log, cfg.cap);
    var ring := RingOf(sys.rec.log, cfg.cap);
    var places := sys.pending + multiset(SpanNos(sys.rec.open)) + multiset(EntryNos(sys.rec.log));
    assert forall k: nat :: places[k] == sys.pending[k] + Held(sys.rec, k);
    SizeOfIssued(places, sys.rec.next);
    assert |places| == |sys.pending| + |multiset(SpanNos(sys.rec.open))| + |multiset(EntryNos(sys.rec.log))|;
  }

  lemma {:induction false} SizeOfIssued(m: multiset<nat>, n: nat)
    requires forall k: nat :: m[k] == if k < n then 1 else 0
    ensures |m| == n
  {
    if n > 0 {
      SizeOfIssued(m - multiset{n - 1}, n - 1);
    } else {
      assert m == multiset{};
    }
  }

  /** No number is recorded twice, so a span completes at most once, and a recorded span is not open. */
  lemma CompletedAtMostOnce(cfg: Config, steps: seq<Step>)
    ensures var s := Run(cfg, steps).rec;
            && (forall i, j :: 0 <= i < j < |s.log| ==> s.log[i].seqNo != s.log[j].seqNo)
            && (forall i, j :: 0 <= i < j < |s.open| ==> s.open[i].seqNo != s.open[j].seqNo)
            && (forall i, j :: 0 <= i < |s.log| && 0 <= j < |s.open| ==> s.log[i].seqNo != s.open[j].seqNo)
  {
    EveryRunConserves(cfg, steps);
    Distinct(Run(cfg, steps));
  }

  lemma Distinct(sys: System)
    requires Conserved(sys)
    ensures var s := sys.rec;
            && (forall i, j :: 0 <= i < j < |s.log| ==> s.log[i].seqNo != s.log[j].seqNo)
            && (forall i, j :: 0 <= i < j < |s.open| ==> s.open[i].seqNo != s.open[j].seqNo)
            && (forall i, j :: 0 <= i < |s.log| && 0 <= j < |s.open| ==> s.log[i].seqNo != s.open[j].seqNo)
  {
    var s := sys.rec;
    var all := SpanNos(s.open) + EntryNos(s.log);
    assert multiset(all) == multiset(SpanNos(s.open)) + multiset(EntryNos(s.log));
    forall i, j | 0 <= i < j < |all|
      ensures all[i] != all[j]
    {
      assert multiset(all)[all[i]] == Held(s, all[i]) <= 1;
      if all[i] == all[j] {
        TwiceInSequence(all, i, j);
      }
    }
    forall i, j | 0 <= i < |s.log| && 0 <= j < |s.open|
      ensures s.log[i].seqNo != s.open[j].seqNo
    {
      assert all[j] != all[|s.open| + i];
    }
    forall i, j | 0 <= i < j < |s.log|
      ensures s.log[i].seqNo != s.log[j].seqNo
    {
      assert all[|s.open| + i] != all[|s.open| + j];
    }
    forall i, j | 0 <= i < j < |s.open|
      ensures s.open[i].seqNo != s.open[j].seqNo
    {
      assert all[i] != all[j];
    }
  }

  /** A late `end` or `set` on a span already recorded (by a shutdown that won the race, say) is only counted. */
  lemma LateCallsOnlyCount(cfg: Config, steps: seq<Step>, i: nat, late: Step)
    requires i < |Run(cfg, steps).rec.log|
    requires late.End? || late.SetField?
    requires late.seqNo == Run(cfg, steps).rec.log[i].seqNo
    ensures var sys := Run(cfg, steps);
            Run(cfg, steps + [late]) == sys.(rec := sys.rec.(unmatched := sys.rec.unmatched + 1))
  {
    CompletedAtMostOnce(cfg, steps);
    RunSnoc(cfg, steps, late);
    assert Position(Run(cfg, steps).rec.open, late.seqNo).None?;
  }

  // ----- The exit -----

  datatype ExitInfo = ExitInfo(code: int, cutOff: nat)

  /** What the first `Shutdown` of the run said, and how many spans on other threads it cut off. */
  function ExitOf(cfg: Config, steps: seq<Step>): Option<ExitInfo> {
    if steps == [] then None
    else
      var before := ExitOf(cfg, steps[..|steps| - 1]);
      var last := steps[|steps| - 1];
      if before.None? && last.Shutdown?
      then Some(ExitInfo(last.code, CutOff(Run(cfg, steps[..|steps| - 1]).rec.open, last.thread)))
      else before
  }

  /** No caller recorded an event that a reader would take for the exit entry. */
  ghost predicate NoCallerExit(steps: seq<Step>) {
    forall i :: 0 <= i < |steps| && steps[i].Record? ==>
           !(steps[i].event.op == OP_EXIT && steps[i].event.subsystem.IsRole())
  }

  predicate SaysExit(e: Entry, info: ExitInfo) {
    && IsExit(e)
    && FieldOf(e.fields, FIELD_CODE) == Some(I64(info.code))
    && FieldOf(e.fields, FIELD_CUT_OFF) == if info.cutOff > 0 then Some(U64(info.cutOff)) else None
  }

  lemma ExitFieldsSay(code: int, cutOff: nat, failures: nat, evicted: nat)
    ensures FieldOf(ExitFields(code, cutOff, failures, evicted), FIELD_CODE) == Some(I64(code))
    ensures FieldOf(ExitFields(code, cutOff, failures, evicted), FIELD_CUT_OFF) ==
            if cutOff > 0 then Some(U64(cutOff)) else None
  {
    var fields := ExitFields(code, cutOff, failures, evicted);
    var rest := fields[1..];
    assert FIELD_CODE[0] == 'c' && FIELD_CODE[1] == 'o' && FIELD_CUT_OFF[1] == 'u';
    assert FIELD_WRITE_FAILURES[0] == 'w' && FIELD_EVICTED[0] == 'e';
    assert FieldOf(fields, FIELD_CUT_OFF) == FieldOf(rest, FIELD_CUT_OFF);
    if cutOff == 0 && rest != [] {
      assert FieldOf(rest, FIELD_CUT_OFF) == FieldOf(rest[1..], FIELD_CUT_OFF);
      assert |rest[1..]| <= 1 && (rest[1..] != [] ==> rest[1..][0].0 == FIELD_EVICTED);
      assert rest[1..] != [] ==> rest[1..][1..] == [];
    }
  }

  /** The log holds one exit entry, made by the first shutdown, or none when nothing has called it. */
  ghost predicate ExitRecorded(s: Recorder, exit: Option<ExitInfo>) {
    && s.exited == exit.Some?
    && (exit.None? ==> forall i :: 0 <= i < |s.log| ==> !IsExit(s.log[i]))
    && (exit.Some? ==>
          exists at :: 0 <= at < |s.log| && SaysExit(s.log[at], exit.value) && OnlyExit(s.log, at))
  }

  ghost predicate OnlyExit(log: seq<Entry>, at: int) {
    forall i :: 0 <= i < |log| && i != at ==> !IsExit(log[i])
  }

  lemma {:induction false} ExactlyOneExit(cfg: Config, steps: seq<Step>)
    requires cfg.role.IsRole() && NoCallerExit(steps)
    ensures ExitRecorded(Run(cfg, steps).rec, ExitOf(cfg, steps))
  {
    if steps != [] {
      var n := |steps| - 1;
      ExactlyOneExit(cfg, steps[..n]);
      var s := Run(cfg, steps[..n]).rec;
      if steps[n].Shutdown? && !s.exited {
        ShutdownRecordsExit(s, cfg, steps[n].code, steps[n].thread, steps[n].failures);
      } else {
        assert steps[n].Record? ==> !(steps[n].event.op == OP_EXIT && steps[n].event.subsystem.IsRole());
        OtherStepsRecordNoExit(Run(cfg, steps[..n]), cfg, steps[n]);
        SameExit(s, Run(cfg, steps).rec, ExitOf(cfg, steps[..n]));
      }
    }
  }

  lemma ShutdownRecordsExit(s: Recorder, cfg: Config, code: int, thread: nat, failures: nat)
    requires cfg.role.IsRole() && !s.exited && ExitRecorded(s, None)
    ensures ExitRecorded(DoShutdown(s, cfg, code, thread, failures), Some(ExitInfo(code, CutOff(s.open, thread))))
  {
    var t := DoShutdown(s, cfg, code, thread, failures);
    var m := |t.log| - 1;
    ExitFieldsSay(code, CutOff(s.open, thread), failures, Evicted(m, cfg.cap));
    assert SaysExit(t.log[m], ExitInfo(code, CutOff(s.open, thread)));
    assert OnlyExit(t.log, m);
  }

  lemma OtherStepsRecordNoExit(sys: System, cfg: Config, step: Step)
    requires step.Shutdown? ==> sys.rec.exited
    requires step.Record? ==> !(step.event.op == OP_EXIT && step.event.subsystem.IsRole())
    ensures var s, t := sys.rec, Apply(sys, cfg, step).rec;
            && t.exited == s.exited
            && |s.log| <= |t.log|
            && t.log[..|s.log|] == s.log
            && forall i :: |s.log| <= i < |t.log| ==> !IsExit(t.log[i])
  {
  }

  lemma SameExit(s: Recorder, t: Recorder, exit: Option<ExitInfo>)
    requires ExitRecorded(s, exit)
    requires t.exited == s.exited && |s.log| <= |t.log| && t.log[..|s.log|] == s.log
    requires forall i :: |s.log| <= i < |t.log| ==> !IsExit(t.log[i])
    ensures ExitRecorded(t, exit)
  {
    assert forall i :: 0 <= i < |s.log| ==> t.log[i] == t.log[..|s.log|][i];
    if exit.Some? {
      var at :| 0 <= at < |s.log| && SaysExit(s.log[at], exit.value) && OnlyExit(s.log, at);
      assert SaysExit(t.log[at], exit.value) && OnlyExit(t.log, at);
    }
  }
}
