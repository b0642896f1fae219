// What the entries say: over every run, each entry tells what the callers said of its span, and each step changes just
// what it is about. Everything here is about the fields of entries and spans.

module DiagSpans {
  import opened Wrappers
  import opened DiagRecords
  import opened DiagRing
  import opened DiagRecorder

  /** `now` holds the values of `before`, but for what `given` gives anew, of which the last counts. */
  ghost predicate Updated(before: Fields, given: Fields, now: Fields) {
    forall key :: FieldOf(now, key) ==
                  if LatestOf(given, key).Some? then LatestOf(given, key) else FieldOf(before, key)
  }

  /** `e` is the entry of the span `o`, ended with `outcome` and these last values. */
  ghost predicate Records(e: Entry, o: OpenSpan, outcome: Outcome, extra: Fields) {
    && e.seqNo == o.seqNo && e.kind == Span && e.outcome == Some(outcome)
    && e.cls == o.cls && e.subsystem == o.subsystem && e.op == o.op
    && e.depth == o.depth && e.thread == o.thread
    && Updated(o.fields, extra, e.fields)
  }

  lemma ClosedRecords(o: OpenSpan, outcome: Outcome, extra: Fields)
    ensures Records(Closed(o, outcome, extra), o, outcome, extra)
  {
    forall key
      ensures FieldOf(PutAll(o.fields, extra), key) ==
              if LatestOf(extra, key).Some? then LatestOf(extra, key) else FieldOf(o.fields, key)
    {
      PutAllGives(o.fields, extra, key);
    }
  }

  lemma {:induction false} PutAllGives(fields: Fields, extra: Fields, key: string)
    ensures FieldOf(PutAll(fields, extra), key) ==
            if LatestOf(extra, key).Some? then LatestOf(extra, key) else FieldOf(fields, key)
    decreases |extra|
  {
    if extra != [] {
      var next := PutField(fields, extra[0].0, extra[0].1);
      FieldOfPutField(fields, extra[0].0, extra[0].1, key);
      PutAllGives(next, extra[1..], key);
      LatestOfCons(extra, key);
    }
  }

  /** The spans that `thread` has open. */
  ghost function On(open: seq<OpenSpan>, thread: nat): set<nat> {
    set i: nat | i < |open| && open[i].thread == thread
  }

  ghost function Elsewhere(open: seq<OpenSpan>, thread: nat): set<nat> {
    set i: nat | i < |open| && open[i].thread != thread
  }

  lemma OnCounts(open: seq<OpenSpan>, thread: nat)
    ensures OpenOn(open, thread) == |On(open, thread)| && CutOff(open, thread) == |Elsewhere(open, thread)|
  {
    OnCount(open, thread);
    ElsewhereCount(open, thread);
  }

  lemma {:induction false} OnCount(open: seq<OpenSpan>, thread: nat)
    ensures OpenOn(open, thread) == |On(open, thread)|
  {
    if open != [] {
      var n := |open| - 1;
      OnCount(open[..n], thread);
      var fewer := On(open[..n], thread);
      forall i: nat
        ensures i in On(open, thread) <==> i in fewer || (i == n && open[n].thread == thread)
      {
      }
      assert On(open, thread) == if open[n].thread == thread then fewer + {n} else fewer;
    }
  }

  lemma {:induction false} ElsewhereCount(open: seq<OpenSpan>, thread: nat)
    ensures CutOff(open, thread) == |Elsewhere(open, thread)|
  {
    if open != [] {
      var n := |open| - 1;
      ElsewhereCount(open[..n], thread);
      var fewer := Elsewhere(open[..n], thread);
      forall i: nat
        ensures i in Elsewhere(open, thread) <==> i in fewer || (i == n && open[n].thread != thread)
      {
      }
      assert Elsewhere(open, thread) == if open[n].thread != thread then fewer + {n} else fewer;
    }
  }

  ghost predicate IsOpen(open: seq<OpenSpan>, n: nat) {
    exists i :: 0 <= i < |open| && open[i].seqNo == n
  }

  // ----- Step by step -----

  /** A span begins as its caller said, under the spans its thread had open. */
  lemma BeginOpens(cfg: Config, steps: seq<Step>, n: nat, a: SpanArgs)
    requires n in Run(cfg, steps).pending
    ensures var sys, t := Run(cfg, steps), Run(cfg, steps + [Begin(n, a)]); var s := sys.rec;
            && t.rec.next == s.next && t.rec.log == s.log && t.rec.exited == s.exited
            && t.pending == sys.pending - multiset{n}
            && |t.rec.open| == |s.open| + 1 && t.rec.open[..|s.open|] == s.open
            && Begun(t.rec.open[|s.open|], n, a, |On(s.open, a.thread)|)
            && Updated([], a.fields, t.rec.open[|s.open|].fields)
  {
    RunSnoc(cfg, steps, Begin(n, a));
    OnCounts(Run(cfg, steps).rec.open, a.thread);
    forall key
      ensures FieldOf(OwnFields(a.fields), key) == LatestOf(a.fields, key)
    {
      PutAllGives([], a.fields, key);
    }
  }

  ghost predicate Begun(o: OpenSpan, n: nat, a: SpanArgs, depth: nat) {
    && o.seqNo == n && o.cls == a.cls && o.subsystem == a.subsystem && o.op == a.op && o.thread == a.thread
    && o.depth == depth
  }

  /** The span at `p` is taken out, the others staying in order, and is recorded; nothing else changes. */
  ghost predicate Ended(s: Recorder, t: Recorder, p: nat, outcome: Outcome, extra: Fields) {
    && p < |s.open| && t.open == s.open[..p] + s.open[p + 1..]
    && |t.log| == |s.log| + 1 && t.log[..|s.log|] == s.log
    && Records(t.log[|s.log|], s.open[p], outcome, extra)
    && t.next == s.next && t.exited == s.exited && t.unmatched == s.unmatched
  }

  /** The first open span of that number. */
  ghost predicate FirstNumbered(open: seq<OpenSpan>, n: nat, p: nat) {
    p < |open| && open[p].seqNo == n && forall i :: 0 <= i < p ==> open[i].seqNo != n
  }

  /** What an `end` does: it records the span of its number, or counts a call that came too late. */
  ghost predicate EndDoes(s: Recorder, t: Recorder, n: nat, outcome: Outcome, extra: Fields) {
    if IsOpen(s.open, n) then exists p: nat :: FirstNumbered(s.open, n, p) && Ended(s, t, p, outcome, extra)
    else t == s.(unmatched := s.unmatched + 1)
  }

  lemma EndStep(s: Recorder, n: nat, outcome: Outcome, extra: Fields)
    ensures EndDoes(s, DoEnd(s, n, outcome, extra), n, outcome, extra)
  {
    hide Records, Closed;
    PositionIsFirst(s.open, n);
    if IsOpen(s.open, n) {
      var p := Position(s.open, n).value;
      ClosedRecords(s.open[p], outcome, extra);
      assert Ended(s, DoEnd(s, n, outcome, extra), p, outcome, extra);
    }
  }

  lemma {:induction false} PositionIsFirst(open: seq<OpenSpan>, n: nat)
    ensures Position(open, n).Some? <==> IsOpen(open, n)
    ensures Position(open, n).Some? ==> FirstNumbered(open, n, Position(open, n).value)
  {
    if open != [] && open[0].seqNo != n {
      PositionIsFirst(open[1..], n);
      if i :| 0 <= i < |open| && open[i].seqNo == n {
        assert open[1..][i - 1].seqNo == n;
      }
      if Position(open[1..], n).Some? {
        var p := Position(open[1..], n).value;
        forall i | 0 <= i < p + 1
          ensures open[i].seqNo != n
        {
          assert i > 0 ==> open[1..][i - 1].seqNo != n;
        }
      }
    }
  }

  /** Over every run, ending an open span records it with the outcome and the last values given. */
  lemma EndRecords(cfg: Config, steps: seq<Step>, p: nat, outcome: Outcome, extra: Fields)
    requires p < |Run(cfg, steps).rec.open|
    ensures var s := Run(cfg, steps).rec;
            Ended(s, Run(cfg, steps + [End(s.open[p].seqNo, outcome, extra)]).rec, p, outcome, extra)
  {
    hide Ended;
    var s := Run(cfg, steps).rec;
    var n := s.open[p].seqNo;
    CompletedAtMostOnce(cfg, steps);
    RunSnoc(cfg, steps, End(n, outcome, extra));
    EndStep(s, n, outcome, extra);
    assert IsOpen(s.open, n);
  }

  /** Setting a field of an open span gives that span that value, and nothing else changes. */
  lemma SetFieldSets(cfg: Config, steps: seq<Step>, p: nat, key: string, v: Val)
    requires p < |Run(cfg, steps).rec.open|
    ensures var s := Run(cfg, steps).rec;
            var t := Run(cfg, steps + [SetField(s.open[p].seqNo, key, v)]).rec;
            && |t.open| == |s.open| && t == s.(open := t.open)
            && (forall i :: 0 <= i < |s.open| && i != p ==> t.open[i] == s.open[i])
            && t.open[p] == s.open[p].(fields := t.open[p].fields)
            && Updated(s.open[p].fields, [(key, v)], t.open[p].fields)
  {
    var s := Run(cfg, steps).rec;
    CompletedAtMostOnce(cfg, steps);
    RunSnoc(cfg, steps, SetField(s.open[p].seqNo, key, v));
    assert Position(s.open, s.open[p].seqNo) == Some(p);
    PutFieldUpdates(s.open[p].fields, key, v);
  }

  lemma PutFieldUpdates(fields: Fields, key: string, v: Val)
    ensures Updated(fields, [(key, v)], PutField(fields, key, v))
  {
    forall k
      ensures FieldOf(PutField(fields, key, v), k) == if k == key then Some(v) else FieldOf(fields, k)
    {
      FieldOfPutField(fields, key, v, k);
    }
    assert [(key, v)][..0] == [];
  }

  /** An event is recorded at once, under its own number and the spans its thread has open. */
  lemma EventRecords(cfg: Config, steps: seq<Step>, a: EventArgs)
    ensures var s, t := Run(cfg, steps).rec, Run(cfg, steps + [Record(a)]).rec;
            && t.next == s.next + 1 && t.open == s.open && t.exited == s.exited && t.unmatched == s.unmatched
            && |t.log| == |s.log| + 1 && t.log[..|s.log|] == s.log
            && var e := t.log[|s.log|];
            && e.seqNo == s.next && e.kind == Event && e.cls == Top && e.outcome == None
            && e.subsystem == a.subsystem && e.op == a.op && e.thread == a.thread
            && e.depth == |On(s.open, a.thread)|
            && Updated([], a.fields, e.fields)
  {
    RunSnoc(cfg, steps, Record(a));
    OnCounts(Run(cfg, steps).rec.open, a.thread);
    forall key
      ensures FieldOf(OwnFields(a.fields), key) == LatestOf(a.fields, key)
    {
      PutAllGives([], a.fields, key);
    }
  }

  /**
   * How a span ends at the exit: interrupted when another thread began it, whatever it is and whatever the code; on the
   * thread that is leaving, a command succeeded for code 0 and failed otherwise, and a leaf is interrupted.
   */
  ghost predicate EndsAtExit(o: OpenSpan, thread: nat, code: int, outcome: Outcome) {
    && (o.thread != thread ==> outcome == Abandoned)
    && (o.thread == thread && o.cls == Leaf ==> outcome == Abandoned)
    && (o.thread == thread && o.cls == Top && code == 0 ==> outcome == Success)
    && (o.thread == thread && o.cls == Top && code != 0 ==> outcome == Failed)
  }

  /** A first shutdown ends every open span, in order, and then records the exit. */
  ghost predicate ShutDown(s: Recorder, t: Recorder, cfg: Config, code: int, thread: nat, failures: nat)
    requires cfg.cap >= 1
  {
    var n, m := |s.log|, |s.log| + |s.open|;
    && t.open == [] && t.exited && t.next == s.next + 1 && t.unmatched == s.unmatched
    && |t.log| == m + 1 && t.log[..n] == s.log
    && (forall i :: 0 <= i < |s.open| ==> EndedAtExit(t.log[n + i], s.open[i], thread, code))
    && IsExitEntry(t.log[m], s.next, cfg.role, thread)
    && SaysAtExit(t.log[m].fields, code, |Elsewhere(s.open, thread)|, failures, |RingOf(t.log[..m], cfg.cap).gone|)
  }

  lemma ShutdownStep(s: Recorder, cfg: Config, code: int, thread: nat, failures: nat)
    requires cfg.cap >= 1 && !s.exited
    ensures ShutDown(s, DoShutdown(s, cfg, code, thread, failures), cfg, code, thread, failures)
  {
    hide EndedAtExit, SaysAtExit, RingOf, CloseAll, Elsewhere, ExitFields;
    var closed := s.log + CloseAll(s.open, thread, code);
    assert DoShutdown(s, cfg, code, thread, failures).log[..|closed|] == closed;
    AllEndedAtExit(s.open, thread, code);
    OnCounts(s.open, thread);
    GoneCount(closed, cfg.cap);
    ExitFieldsAre(code, CutOff(s.open, thread), failures, Evicted(|closed|, cfg.cap));
  }

  /** So it does after every run in which none has been called; a later one changes nothing. */
  lemma ShutdownRecords(cfg: Config, steps: seq<Step>, code: int, thread: nat, failures: nat)
    requires cfg.cap >= 1
    ensures var sys, t := Run(cfg, steps), Run(cfg, steps + [Shutdown(code, thread, failures)]);
            if sys.rec.exited then t == sys
            else ShutDown(sys.rec, t.rec, cfg, code, thread, failures) && t.pending == sys.pending
  {
    hide ShutDown;
    RunSnoc(cfg, steps, Shutdown(code, thread, failures));
    if !Run(cfg, steps).rec.exited {
      ShutdownStep(Run(cfg, steps).rec, cfg, code, thread, failures);
    }
  }

  ghost predicate IsExitEntry(e: Entry, n: nat, role: Subsystem, thread: nat) {
    && e.seqNo == n && e.kind == Event && e.op == "exit" && e.subsystem == role && e.thread == thread && e.depth == 0
    && e.outcome == None
  }

  lemma AllEndedAtExit(open: seq<OpenSpan>, thread: nat, code: int)
    ensures |CloseAll(open, thread, code)| == |open|
    ensures forall i :: 0 <= i < |open| ==> EndedAtExit(CloseAll(open, thread, code)[i], open[i], thread, code)
  {
    hide EndedAtExit;
    forall i | 0 <= i < |open|
      ensures EndedAtExit(CloseAll(open, thread, code)[i], open[i], thread, code)
    {
      ClosedAtExit(open[i], thread, code);
    }
  }

  ghost predicate EndedAtExit(e: Entry, o: OpenSpan, thread: nat, code: int) {
    e.outcome.Some? && EndsAtExit(o, thread, code, e.outcome.value) && Records(e, o, e.outcome.value, [])
  }

  lemma ClosedAtExit(o: OpenSpan, thread: nat, code: int)
    ensures EndedAtExit(Closed(o, ExitOutcome(o, thread, code), []), o, thread, code)
    ensures EndsAtExit(o, thread, code, ExitOutcome(o, thread, code))
  {
    ClosedRecords(o, ExitOutcome(o, thread, code), []);
  }

  /** The exit entry gives the code, and each count that is not zero. */
  ghost predicate SaysAtExit(fields: Fields, code: int, cutOff: nat, failures: nat, evicted: nat) {
    && FieldOf(fields, "code") == Some(I64(code))
    && FieldOf(fields, "cut_off") == (if cutOff > 0 then Some(U64(cutOff)) else None)
    && FieldOf(fields, "write_failures") == (if failures > 0 then Some(U64(failures)) else None)
    && FieldOf(fields, "evicted") == (if evicted > 0 then Some(U64(evicted)) else None)
    && forall key :: FieldOf(fields, key).Some? ==> key in {"code", "cut_off", "write_failures", "evicted"}
  }

  lemma ExitFieldsAre(code: int, cutOff: nat, failures: nat, evicted: nat)
    ensures SaysAtExit(ExitFields(code, cutOff, failures, evicted), code, cutOff, failures, evicted)
  {
    assert "code"[1] == 'o' && "cut_off"[1] == 'u' && "write_failures"[0] == 'w' && "evicted"[0] == 'e';
    var fields := ExitFields(code, cutOff, failures, evicted);
    var counts := OneField("cut_off", cutOff) + OneField("write_failures", failures) + OneField("evicted", evicted);
    assert fields == [("code", I64(code))] + counts;
    forall key
      ensures FieldOf(fields, key) ==
              if key == "code" then Some(I64(code))
              else if key == "cut_off" && cutOff > 0 then Some(U64(cutOff))
              else if key == "write_failures" && failures > 0 then Some(U64(failures))
              else if key == "evicted" && evicted > 0 then Some(U64(evicted))
              else None
    {
      FieldOfMore([("code", I64(code))], counts, key);
      var first := OneField("cut_off", cutOff) + OneField("write_failures", failures);
      FieldOfMore(first, OneField("evicted", evicted), key);
      FieldOfMore(OneField("cut_off", cutOff), OneField("write_failures", failures), key);
    }
  }

  function OneField(key: string, n: nat): Fields {
    if n > 0 then [(key, U64(n))] else []
  }

  lemma {:induction false} FieldOfMore(fields: Fields, more: Fields, key: string)
    ensures FieldOf(fields + more, key) ==
            if FieldOf(fields, key).Some? then FieldOf(fields, key) else FieldOf(more, key)
  {
    if fields == [] {
      assert fields + more == more;
    } else {
      FieldOfMore(fields[1..], more, key);
      assert (fields + more)[1..] == fields[1..] + more;
    }
  }

  // ----- Over whole runs -----

  /** Every value the callers gave span `n`, in the order given: at its beginning, while it was open, at its end. */
  ghost function Given(cfg: Config, steps: seq<Step>, n: nat): Fields {
    if steps == [] then []
    else
      var front := steps[..|steps| - 1];
      Given(cfg, front, n) + GivenNow(Run(cfg, front), steps[|steps| - 1], n)
  }

  ghost function GivenNow(sys: System, step: Step, n: nat): Fields {
    match step
    case Begin(m, a) => if m == n && n in sys.pending then a.fields else []
    case SetField(m, key, v) => if m == n && IsOpen(sys.rec.open, n) then [(key, v)] else []
    case End(m, _, extra) => if m == n && IsOpen(sys.rec.open, n) then extra else []
    case _ => []
  }

  /** Step `b` of the run began the span as it stands: class, subsystem, operation, thread, and the depth there. */
  ghost predicate BegunBy(cfg: Config, steps: seq<Step>, b: nat, o: OpenSpan) {
    && b < |steps| && steps[b].Begin? && o.seqNo in Run(cfg, steps[..b]).pending
    && Begun(o, steps[b].seqNo, steps[b].span, |On(Run(cfg, steps[..b]).rec.open, o.thread)|)
  }

  /** Step `f` ended the span: an `End` of its number with that outcome, or the exit, by the thread and the code. */
  ghost predicate EndedBy(steps: seq<Step>, f: nat, o: OpenSpan, outcome: Outcome) {
    && f < |steps|
    && (|| (steps[f].End? && steps[f].seqNo == o.seqNo && steps[f].outcome == outcome)
        || (steps[f].Shutdown? && EndsAtExit(o, steps[f].thread, steps[f].code, outcome)))
  }

  /** The value under each key is the last one given, and no key stands twice. */
  ghost predicate Holds(fields: Fields, given: Fields) {
    KeysDistinct(fields) && forall key :: FieldOf(fields, key) == LatestOf(given, key)
  }

  ghost predicate OpenStory(cfg: Config, steps: seq<Step>, o: OpenSpan) {
    Holds(o.fields, Given(cfg, steps, o.seqNo)) && exists b :: BegunBy(cfg, steps, b, o)
  }

  /** The span an entry is about, as it stood at its end. */
  function SpanOf(e: Entry): OpenSpan {
    OpenSpan(e.seqNo, e.cls, e.subsystem, e.op, e.fields, e.depth, e.thread)
  }

  ghost predicate EntryStory(cfg: Config, steps: seq<Step>, e: Entry) {
    && Holds(e.fields, Given(cfg, steps, e.seqNo))
    && exists b, f, outcome ::
         && b < f && BegunBy(cfg, steps, b, SpanOf(e)) && EndedBy(steps, f, SpanOf(e), outcome)
         && e.outcome == Some(outcome)
  }

  lemma {:induction false} GivenSnoc(cfg: Config, front: seq<Step>, step: Step, n: nat)
    ensures Given(cfg, front + [step], n) == Given(cfg, front, n) + GivenNow(Run(cfg, front), step, n)
  {
    assert (front + [step])[..|front|] == front;
  }

  lemma {:induction false} BegunStays(cfg: Config, front: seq<Step>, step: Step, b: nat, o: OpenSpan)
    requires BegunBy(cfg, front, b, o)
    ensures BegunBy(cfg, front + [step], b, o)
  {
    assert (front + [step])[..b] == front[..b];
  }

  /** A step that gives a span nothing leaves its story as it is. */
  lemma {:induction false} OpenStoryKept(cfg: Config, front: seq<Step>, step: Step, o: OpenSpan)
    requires OpenStory(cfg, front, o) && GivenNow(Run(cfg, front), step, o.seqNo) == []
    ensures OpenStory(cfg, front + [step], o)
  {
    hide BegunBy, Holds, Given, GivenNow, Run;
    GivenSnoc(cfg, front, step, o.seqNo);
    assert Given(cfg, front + [step], o.seqNo) == Given(cfg, front, o.seqNo);
    var b: nat :| BegunBy(cfg, front, b, o);
    BegunStays(cfg, front, step, b, o);
  }

  lemma {:induction false} EntryStoryKept(cfg: Config, front: seq<Step>, step: Step, e: Entry)
    requires EntryStory(cfg, front, e) && GivenNow(Run(cfg, front), step, e.seqNo) == []
    ensures EntryStory(cfg, front + [step], e)
  {
    hide BegunBy, EndsAtExit, Holds, Given, GivenNow, Run;
    GivenSnoc(cfg, front, step, e.seqNo);
    assert Given(cfg, front + [step], e.seqNo) == Given(cfg, front, e.seqNo);
    var b, f, outcome :|
      b < f && BegunBy(cfg, front, b, SpanOf(e)) && EndedBy(front, f, SpanOf(e), outcome) && e.outcome == Some(outcome);
    BegunStays(cfg, front, step, b, SpanOf(e));
    assert EndedBy(front + [step], f, SpanOf(e), outcome);
  }

  lemma {:induction false} LatestOfMore(given: Fields, more: Fields, key: string)
    ensures LatestOf(given + more, key) ==
            if LatestOf(more, key).Some? then LatestOf(more, key) else LatestOf(given, key)
  {
    if more == [] {
      assert given + more == given;
    } else {
      LatestOfMore(given, more[..|more| - 1], key);
      assert (given + more)[..|given + more| - 1] == given + more[..|more| - 1];
    }
  }

  lemma HoldsMore(fields: Fields, given: Fields, extra: Fields)
    requires Holds(fields, given)
    ensures Holds(PutAll(fields, extra), given + extra)
  {
    PutAllKeepsLatest(fields, extra, "");
    forall key
      ensures FieldOf(PutAll(fields, extra), key) == LatestOf(given + extra, key)
    {
      PutAllKeepsLatest(fields, extra, key);
      LatestOfMore(given, extra, key);
    }
  }

  lemma NothingHeld()
    ensures Holds([], [])
  {
  }

  /** A number is with the recorder from its span's beginning on, so before it nothing was given. */
  lemma {:induction false} NothingGivenBefore(cfg: Config, steps: seq<Step>, n: nat)
    ensures Held(Run(cfg, steps).rec, n) == 0 ==> Given(cfg, steps, n) == []
  {
    if steps != [] {
      var front, step := steps[..|steps| - 1], steps[|steps| - 1];
      NothingGivenBefore(cfg, front, n);
      EveryRunConserves(cfg, front);
      EveryRunConserves(cfg, steps);
      StaysHeld(Run(cfg, front), cfg, step, n);
      IsHeld(Run(cfg, front).rec, n);
      IsHeld(Run(cfg, steps).rec, n);
      assert step.Begin? && step.seqNo == n && n in Run(cfg, front).pending ==>
          Run(cfg, steps).rec.open[|Run(cfg, front).rec.open|].seqNo == n;
    }
  }

  lemma StaysHeld(sys: System, cfg: Config, step: Step, n: nat)
    requires Conserved(sys) && Conserved(Apply(sys, cfg, step))
    ensures Held(sys.rec, n) > 0 ==> Held(Apply(sys, cfg, step).rec, n) > 0
  {
    hide Held, DoBegin, DoEnd, DoSetField, DoEvent, DoShutdown;
    StepConserves(sys, cfg, step, n);
    if Held(sys.rec, n) > 0 {
      assert sys.pending[n] + Held(sys.rec, n) == if n < sys.rec.next then 1 else 0;
    }
  }

  lemma IsHeld(s: Recorder, n: nat)
    ensures IsOpen(s.open, n) ==> Held(s, n) > 0
    ensures (exists i :: 0 <= i < |s.log| && s.log[i].seqNo == n) ==> Held(s, n) > 0
  {
    if IsOpen(s.open, n) {
      var i :| 0 <= i < |s.open| && s.open[i].seqNo == n;
      assert SpanNos(s.open)[i] == n;
    }
    if exists i :: 0 <= i < |s.log| && s.log[i].seqNo == n {
      var i :| 0 <= i < |s.log| && s.log[i].seqNo == n;
      assert EntryNos(s.log)[i] == n;
    }
  }

  lemma {:induction false} OpenStoryNext(cfg: Config, front: seq<Step>, step: Step, o: OpenSpan)
    requires forall x :: x in Run(cfg, front).rec.open ==> OpenStory(cfg, front, x)
    requires o in Run(cfg, front + [step]).rec.open
    ensures OpenStory(cfg, front + [step], o)
  {
    hide OpenStory, Conserved, Opened, PutField;
    var sys := Run(cfg, front);
    var s := sys.rec;
    CompletedAtMostOnce(cfg, front);
    RunSnoc(cfg, front, step);
    if o in s.open && GivenNow(sys, step, o.seqNo) == [] {
      OpenStoryKept(cfg, front, step, o);
    } else if step.Begin? {
      BegunStory(cfg, front, step.seqNo, step.span, o);
    } else {
      SetStory(cfg, front, step, o);
    }
  }

  lemma {:induction false} BegunStory(cfg: Config, front: seq<Step>, n: nat, a: SpanArgs, o: OpenSpan)
    requires n in Run(cfg, front).pending && o in Run(cfg, front + [Begin(n, a)]).rec.open
    requires o !in Run(cfg, front).rec.open || o.seqNo == n
    ensures OpenStory(cfg, front + [Begin(n, a)], o)
  {
    hide Holds, Held, Given, Run, PutAll;
    var s := Run(cfg, front).rec;
    var steps := front + [Begin(n, a)];
    RunSnoc(cfg, front, Begin(n, a));
    EveryRunConserves(cfg, front);
    assert Run(cfg, front).pending[n] + Held(s, n) <= 1;
    IsHeld(s, n);
    assert o == Opened(s.open, n, a);
    NothingGivenBefore(cfg, front, n);
    GivenSnoc(cfg, front, Begin(n, a), n);
    assert Given(cfg, steps, n) == [] + a.fields;
    NothingHeld();
    HoldsMore([], [], a.fields);
    OnCounts(s.open, a.thread);
    assert steps[..|front|] == front;
    assert BegunBy(cfg, steps, |front|, o);
  }
  lemma {:induction false} SetStory(cfg: Config, front: seq<Step>, step: Step, o: OpenSpan)
    requires forall x :: x in Run(cfg, front).rec.open ==> OpenStory(cfg, front, x)
    requires step.SetField? && o in Run(cfg, front + [step]).rec.open
    requires o !in Run(cfg, front).rec.open || o.seqNo == step.seqNo
    ensures OpenStory(cfg, front + [step], o)
  {
    hide Holds, BegunBy;
    var s := Run(cfg, front).rec;
    var given := Given(cfg, front, step.seqNo);
    RunSnoc(cfg, front, step);
    GivenSnoc(cfg, front, step, step.seqNo);
    CompletedAtMostOnce(cfg, front);
    var p := Position(s.open, step.seqNo).value;
    var was := s.open[p];
    assert o == was.(fields := PutField(was.fields, step.key, step.v));
    assert OpenStory(cfg, front, was);
    HoldsMore(was.fields, given, [(step.key, step.v)]);
    PutAllOne(was.fields, step.key, step.v);
    var b: nat :| BegunBy(cfg, front, b, was);
    BegunStays(cfg, front, step, b, was);
    SameSpanBegun(cfg, front + [step], b, was, o);
  }

  lemma PutAllOne(fields: Fields, key: string, v: Val)
    ensures PutAll(fields, [(key, v)]) == PutField(fields, key, v)
  {
    assert [(key, v)][1..] == [];
    assert PutAll(PutField(fields, key, v), []) == PutField(fields, key, v);
  }

  lemma SameSpanBegun(cfg: Config, steps: seq<Step>, b: nat, was: OpenSpan, now: OpenSpan)
    requires BegunBy(cfg, steps, b, was) && now == was.(fields := now.fields)
    ensures BegunBy(cfg, steps, b, now)
  {
  }

  lemma {:induction false} EntryStoryNext(cfg: Config, front: seq<Step>, step: Step, e: Entry)
    requires forall x :: x in Run(cfg, front).rec.open ==> OpenStory(cfg, front, x)
    requires forall x :: x in Run(cfg, front).rec.log && x.kind.Span? ==> EntryStory(cfg, front, x)
    requires e in Run(cfg, front + [step]).rec.log && e.kind.Span?
    ensures EntryStory(cfg, front + [step], e)
  {
    hide OpenStory, EntryStory, Closed, ExitOutcome, Run, EndsAtExit, Records;
    var sys := Run(cfg, front);
    var s := sys.rec;
    CompletedAtMostOnce(cfg, front);
    RunSnoc(cfg, front, step);
    if e in s.log {
      RecordedGetsNothing(cfg, front, step, e);
      EntryStoryKept(cfg, front, step, e);
    } else if step.End? {
      var p := Position(s.open, step.seqNo).value;
      assert s.open[p] in s.open;
      ClosedStory(cfg, front, step, s.open[p], step.outcome, step.extra);
    } else {
      var i :| 0 <= i < |s.open| && e == Closed(s.open[i], ExitOutcome(s.open[i], step.thread, step.code), []);
      ClosedAtExit(s.open[i], step.thread, step.code);
      assert s.open[i] in s.open;
      ClosedStory(cfg, front, step, s.open[i], ExitOutcome(s.open[i], step.thread, step.code), []);
    }
  }

  lemma {:induction false} RecordedGetsNothing(cfg: Config, front: seq<Step>, step: Step, e: Entry)
    requires e in Run(cfg, front).rec.log
    ensures GivenNow(Run(cfg, front), step, e.seqNo) == []
  {
    hide Held;
    var sys := Run(cfg, front);
    CompletedAtMostOnce(cfg, front);
    EveryRunConserves(cfg, front);
    IsHeld(sys.rec, e.seqNo);
    assert sys.pending[e.seqNo] + Held(sys.rec, e.seqNo) <= 1;
  }

  lemma {:induction false} ClosedStory(cfg: Config, front: seq<Step>, step: Step, o: OpenSpan, outcome: Outcome,
      extra: Fields)
    requires OpenStory(cfg, front, o) && GivenNow(Run(cfg, front), step, o.seqNo) == extra
    requires EndedBy([step], 0, o, outcome)
    ensures EntryStory(cfg, front + [step], Closed(o, outcome, extra))
  {
    hide Holds, BegunBy, EndsAtExit, Given, GivenNow, Run, PutAll;
    var e := Closed(o, outcome, extra);
    var steps := front + [step];
    GivenSnoc(cfg, front, step, o.seqNo);
    HoldsMore(o.fields, Given(cfg, front, o.seqNo), extra);
    var b: nat :| BegunBy(cfg, front, b, o);
    BegunIsBefore(cfg, front, b, o);
    BegunStays(cfg, front, step, b, o);
    SameSpanBegun(cfg, steps, b, o, SpanOf(e));
    if step.Shutdown? {
      SameSpanEnds(o, SpanOf(e), step, outcome);
    }
    assert EndedBy(steps, |front|, SpanOf(e), outcome);
  }

  lemma BegunIsBefore(cfg: Config, steps: seq<Step>, b: nat, o: OpenSpan)
    requires BegunBy(cfg, steps, b, o)
    ensures b < |steps|
  {
  }

  lemma SameSpanEnds(was: OpenSpan, now: OpenSpan, step: Step, outcome: Outcome)
    requires now == was.(fields := now.fields) && step.Shutdown?
    ensures EndsAtExit(was, step.thread, step.code, outcome) ==> EndsAtExit(now, step.thread, step.code, outcome)
  {
  }

  /**
   * Over every run, each recorded span tells its own story: one step began it as it is described, a later one ended it
   * with its outcome, and under each key it holds the last value given for it. So does each open span, so far.
   */
  lemma {:induction false} EverySpanTellsItsStory(cfg: Config, steps: seq<Step>)
    ensures forall o :: o in Run(cfg, steps).rec.open ==> OpenStory(cfg, steps, o)
    ensures forall e :: e in Run(cfg, steps).rec.log && e.kind.Span? ==> EntryStory(cfg, steps, e)
  {
    hide OpenStory, EntryStory, Apply;
    if steps != [] {
      var front, step := steps[..|steps| - 1], steps[|steps| - 1];
      assert steps == front + [step];
      EverySpanTellsItsStory(cfg, front);
      EveryRunConserves(cfg, front);
      RunSnoc(cfg, front, step);
      var sys := Run(cfg, front);
      forall o | o in Run(cfg, steps).rec.open
        ensures OpenStory(cfg, steps, o)
      {
        OpenStoryNext(cfg, front, step, o);
      }
      forall e | e in Run(cfg, steps).rec.log && e.kind.Span?
        ensures EntryStory(cfg, steps, e)
      {
        EntryStoryNext(cfg, front, step, e);
      }
    }
  }
}
