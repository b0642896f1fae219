// The property sweep of src/prop_sweep.rs: merging the blocks asked for, asking every code once, and what a dump says
// about a code it holds no entry for.

module Sweep {
  import opened Wrappers
  import opened Bytes
  import opened PropDesc

  const NOT_SUPPORTED: nat := 0x200A
  const MAX_CONSECUTIVE_FAILURES: nat := 3

  type Code = c: nat | c <= 0xFFFF

  // ----- Blocks of codes -----

  datatype Block = Block(lo: Code, hi: Code) {
    predicate Contains(c: Code) {
      lo <= c <= hi
    }

    function Count(): int {
      hi - lo + 1
    }

    predicate AtMost(other: Block) {
      lo < other.lo || (lo == other.lo && hi <= other.hi)
    }
  }

  /** A block as its parser leaves it: never reversed. */
  type CodeRange = r: Block | r.lo <= r.hi witness Block(0, 0)

  predicate Covers(rs: seq<CodeRange>, c: Code) {
    exists i :: 0 <= i < |rs| && rs[i].Contains(c)
  }

  /** In order, with at least one code of no block between two neighbours. */
  predicate Normal(rs: seq<CodeRange>) {
    forall i :: 0 < i < |rs| ==> rs[i - 1].hi + 1 < rs[i].lo
  }

  predicate SortedBlocks(rs: seq<CodeRange>) {
    forall i, j :: 0 <= i <= j < |rs| ==> rs[i].AtMost(rs[j])
  }

  function InsertBlock(rs: seq<CodeRange>, r: CodeRange): seq<CodeRange> {
    if rs == [] || rs[|rs| - 1].AtMost(r) then rs + [r]
    else InsertBlock(rs[..|rs| - 1], r) + [rs[|rs| - 1]]
  }

  function SortBlocks(rs: seq<CodeRange>): seq<CodeRange> {
    if rs == [] then [] else InsertBlock(SortBlocks(rs[..|rs| - 1]), rs[|rs| - 1])
  }

  lemma CoversSnoc(rs: seq<CodeRange>, r: CodeRange)
    ensures forall c: Code :: Covers(rs + [r], c) <==> Covers(rs, c) || r.Contains(c)
  {
    var all := rs + [r];
    forall c: Code ensures Covers(all, c) <==> Covers(rs, c) || r.Contains(c) {
      if Covers(rs, c) {
        var i :| 0 <= i < |rs| && rs[i].Contains(c);
        assert all[i].Contains(c);
      }
      if r.Contains(c) {
        assert all[|rs|].Contains(c);
      }
    }
  }

  lemma CoversSplit(rs: seq<CodeRange>)
    requires rs != []
    ensures forall c: Code :: Covers(rs, c) <==> Covers(rs[..|rs| - 1], c) || rs[|rs| - 1].Contains(c)
  {
    CoversSnoc(rs[..|rs| - 1], rs[|rs| - 1]);
    assert rs == rs[..|rs| - 1] + [rs[|rs| - 1]];
  }

  lemma {:induction false} InsertKeeps(rs: seq<CodeRange>, r: CodeRange)
    requires SortedBlocks(rs)
    ensures SortedBlocks(InsertBlock(rs, r))
    ensures forall x :: x in InsertBlock(rs, r) <==> x in rs || x == r
    ensures forall c: Code :: Covers(InsertBlock(rs, r), c) <==> Covers(rs, c) || r.Contains(c)
  {
    if rs == [] || rs[|rs| - 1].AtMost(r) {
      CoversSnoc(rs, r);
    } else {
      var front, last := rs[..|rs| - 1], rs[|rs| - 1];
      InsertKeeps(front, r);
      CoversSplit(rs);
      CoversSnoc(InsertBlock(front, r), last);
      assert rs == front + [last];
      forall i | 0 <= i < |InsertBlock(front, r)| ensures InsertBlock(front, r)[i].AtMost(last) {
        assert InsertBlock(front, r)[i] in front || InsertBlock(front, r)[i] == r;
      }
    }
  }

  lemma {:induction false} SortKeeps(rs: seq<CodeRange>)
    ensures SortedBlocks(SortBlocks(rs))
    ensures forall c: Code :: Covers(SortBlocks(rs), c) <==> Covers(rs, c)
  {
    if rs != [] {
      SortKeeps(rs[..|rs| - 1]);
      InsertKeeps(SortBlocks(rs[..|rs| - 1]), rs[|rs| - 1]);
      CoversSplit(rs);
    }
  }

  /** The blocks merged: the codes are those asked for, and no two blocks overlap or touch. */
  method Normalize(ranges: seq<CodeRange>) returns (out: seq<CodeRange>)
    ensures Normal(out)
    ensures forall c: Code :: Covers(out, c) <==> Covers(ranges, c)
  {
    SortKeeps(ranges);
    var sorted := SortBlocks(ranges);
    out := [];
    for i := 0 to |sorted|
      invariant Normal(out)
      invariant out != [] ==> i > 0
      invariant i > 0 ==> out != [] && out[|out| - 1].lo <= sorted[i - 1].lo
      invariant forall c: Code :: Covers(out, c) <==> Covers(sorted[..i], c)
    {
      var r := sorted[i];
      assert i > 0 ==> sorted[i - 1].AtMost(r);
      CoversSnoc(sorted[..i], r);
      CoversSnoc(out, r);
      assert sorted[..i + 1] == sorted[..i] + [r];
      if out != [] && r.lo <= out[|out| - 1].hi + 1 {
        var last := out[|out| - 1];
        var wider := Block(last.lo, if last.hi >= r.hi then last.hi else r.hi);
        CoversSplit(out);
        CoversSplit(out[|out| - 1 := wider]);
        out := out[|out| - 1 := wider];
      } else {
        out := out + [r];
      }
    }
    assert sorted[..|sorted|] == sorted;
  }

  /** There is only one such list for a set of codes. */
  lemma {:induction false} NormalIsUnique(x: seq<CodeRange>, y: seq<CodeRange>)
    requires Normal(x) && Normal(y)
    requires forall c: Code :: Covers(x, c) <==> Covers(y, c)
    ensures x == y
    decreases |x|
  {
    if x == [] || y == [] {
      if x != [] {
        assert x[0].Contains(x[0].lo);
        assert Covers(x, x[0].lo);
      }
      if y != [] {
        assert y[0].Contains(y[0].lo);
        assert Covers(y, y[0].lo);
      }
    } else {
      var n, m := |x| - 1, |y| - 1;
      EndsNoLater(x, y);
      EndsNoLater(y, x);
      BeginsNoEarlier(x, y);
      BeginsNoEarlier(y, x);
      assert x[n] == y[m];
      CoversSplit(x);
      CoversSplit(y);
      forall c: Code ensures Covers(x[..n], c) <==> Covers(y[..m], c) {
        FrontIsBelow(x, c);
        FrontIsBelow(y, c);
        assert Covers(x, c) <==> Covers(x[..n], c) || x[n].Contains(c);
        assert Covers(y, c) <==> Covers(y[..m], c) || y[m].Contains(c);
      }
      NormalIsUnique(x[..n], y[..m]);
      assert x == x[..n] + [x[n]] && y == y[..m] + [y[m]];
    }
  }

  lemma {:induction false} NormalInOrder(x: seq<CodeRange>, i: nat)
    requires Normal(x) && i < |x|
    ensures x[i].hi <= x[|x| - 1].hi
    ensures i < |x| - 1 ==> x[i].hi + 1 < x[|x| - 1].lo
    decreases |x| - i
  {
    if i < |x| - 1 {
      NormalInOrder(x, i + 1);
    }
  }

  lemma FrontIsBelow(x: seq<CodeRange>, c: Code)
    requires Normal(x) && x != []
    ensures Covers(x[..|x| - 1], c) ==> c + 1 < x[|x| - 1].lo
  {
    if Covers(x[..|x| - 1], c) {
      var i :| 0 <= i < |x| - 1 && x[i].Contains(c);
      NormalInOrder(x, i);
    }
  }

  lemma EndsNoLater(x: seq<CodeRange>, y: seq<CodeRange>)
    requires Normal(y) && x != [] && y != []
    requires forall c: Code :: Covers(x, c) ==> Covers(y, c)
    ensures x[|x| - 1].hi <= y[|y| - 1].hi
  {
    var c := x[|x| - 1].hi;
    assert x[|x| - 1].Contains(c);
    assert Covers(x, c);
    var i :| 0 <= i < |y| && y[i].Contains(c);
    NormalInOrder(y, i);
  }

  lemma BeginsNoEarlier(x: seq<CodeRange>, y: seq<CodeRange>)
    requires Normal(x) && Normal(y) && x != [] && y != []
    requires forall c: Code :: Covers(x, c) <==> Covers(y, c)
    requires x[|x| - 1].hi == y[|y| - 1].hi
    ensures x[|x| - 1].lo <= y[|y| - 1].lo
  {
    var a, b := x[|x| - 1], y[|y| - 1];
    if b.lo < a.lo {
      // The code just below `a` lies in `b`, so in `y`, and in no block of `x`.
      var c := a.lo - 1;
      assert b.Contains(c);
      assert Covers(y, c);
      CoversSplit(x);
      FrontIsBelow(x, c);
    }
  }

  // ----- The codes, in order -----

  function BlockCodes(r: CodeRange): (s: seq<Code>)
    ensures |s| == r.Count()
  {
    seq(r.hi - r.lo + 1, i requires 0 <= i <= r.hi - r.lo => r.lo + i)
  }

  function CodesOf(rs: seq<CodeRange>): seq<Code> {
    if rs == [] then [] else CodesOf(rs[..|rs| - 1]) + BlockCodes(rs[|rs| - 1])
  }

  function Total(rs: seq<CodeRange>): nat {
    if rs == [] then 0 else Total(rs[..|rs| - 1]) + rs[|rs| - 1].Count()
  }

  predicate Ascending(s: seq<Code>) {
    forall i, j :: 0 <= i < j < |s| ==> s[i] < s[j]
  }

  lemma {:induction false} CodesInOrder(rs: seq<CodeRange>)
    requires Normal(rs)
    ensures Ascending(CodesOf(rs)) && |CodesOf(rs)| == Total(rs)
    ensures forall c: Code :: c in CodesOf(rs) <==> Covers(rs, c)
  {
    if rs != [] {
      var front, last := rs[..|rs| - 1], rs[|rs| - 1];
      CodesInOrder(front);
      var s := BlockCodes(last);
      forall c: Code ensures c in s <==> last.Contains(c) {
        if last.Contains(c) {
          assert s[c - last.lo] == c;
        }
      }
      forall c: Code ensures c in CodesOf(rs) <==> Covers(rs, c) {
        CoversSplit(rs);
      }
      forall i | 0 <= i < |CodesOf(front)| ensures CodesOf(front)[i] < last.lo {
        assert CodesOf(front)[i] in CodesOf(front);
        FrontIsBelow(rs, CodesOf(front)[i]);
      }
    }
  }

  /** Where the sweep is when it asks code `wide` of block `j`. */
  lemma {:induction false} CodeAt(rs: seq<CodeRange>, j: nat, wide: Code)
    requires j < |rs| && rs[j].Contains(wide)
    ensures var k := |CodesOf(rs[..j])| + (wide - rs[j].lo);
            k < |CodesOf(rs)| && CodesOf(rs)[k] == wide
  {
    if j == |rs| - 1 {
      assert BlockCodes(rs[j])[wide - rs[j].lo] == wide;
    } else {
      var front := rs[..|rs| - 1];
      CodeAt(front, j, wide);
      assert front[..j] == rs[..j];
    }
  }

  lemma NextBlock(rs: seq<CodeRange>, j: nat)
    requires j < |rs|
    ensures |CodesOf(rs[..j + 1])| == |CodesOf(rs[..j])| + rs[j].Count()
  {
    assert rs[..j + 1][..j] == rs[..j];
  }

  // ----- What the body answers -----

  /** The kinds of transport error the sweep tells apart. */
  datatype Trouble = TimedOut | SessionPoisoned | Usb | Other(kind: string) {
    predicate Fatal() {
      TimedOut? || SessionPoisoned? || Usb?
    }
  }

  datatype Reply = Data(data: seq<byte>) | OperationFailed(code: nat) | Broken(trouble: Trouble, detail: string)

  datatype Answer =
    | Desc(data: seq<byte>)
    | NotSupported
    | RefusedWith(code: nat)
    | Unusable(tag: Trouble, detail: string, fatal: bool)

  function Classify(r: Reply): Answer {
    match r
    case Data(data) => Desc(data)
    case OperationFailed(code) => if code == NOT_SUPPORTED then NotSupported else RefusedWith(code)
    case Broken(trouble, detail) => Unusable(trouble, detail, trouble.Fatal())
  }

  /** A body: what it answers to each code. A sweep asks a code at most once. */
  type CameraBody = Code -> Reply

  datatype SweepEntry =
    | Present(raw: seq<byte>, listed: bool, desc: Option<PropDesc>)
    | Refused(code: nat)
    | Failed(tag: Trouble, detail: string)

  datatype Counts = Counts(asked: nat, present: nat, bytesOnly: nat, notSupported: nat, refused: nat, failed: nat)

  datatype Reason = SessionLost(detail: string) | InARow(replies: nat, last: string)

  datatype Aborted = Aborted(at: Code, reason: Reason)

  datatype Progress = Progress(code: Code, done: nat, total: nat)

  datatype Dump = Dump(
    ranges: seq<CodeRange>,
    counts: Counts,
    aborted: Option<Aborted>,
    entries: map<Code, SweepEntry>)
  {
    /** Whether the dump says anything about a code: asked, and before the code an aborted sweep stopped at. */
    predicate Covered(c: Code) {
      Covers(ranges, c) && (aborted.Some? ==> c < aborted.value.at)
    }

    function At(c: Code): Option<SweepEntry> {
      if c in entries then Some(entries[c]) else None
    }
  }

  // ----- What a sweep is to leave -----

  /** The entry an answer leaves: none exactly for "not supported". */
  function Kept(body: CameraBody, listed: set<Code>, c: Code): (r: Option<SweepEntry>)
    ensures r.None? <==> body(c) == OperationFailed(NOT_SUPPORTED)
  {
    match Classify(body(c))
    case Desc(data) => Some(Present(data, c in listed, Parsed(data, c)))
    case NotSupported => None
    case RefusedWith(code) => Some(Refused(code))
    case Unusable(tag, detail, _) => Some(SweepEntry.Failed(tag, detail))
  }

  datatype Class = Described | BytesOnly | Unsupported | RefusedCode | NoAnswer

  function ClassOf(body: CameraBody, c: Code): Class {
    match Classify(body(c))
    case Desc(data) => if Parsed(data, c).Some? then Described else BytesOnly
    case NotSupported => Unsupported
    case RefusedWith(_) => RefusedCode
    case Unusable(_, _, _) => NoAnswer
  }

  function CountOf(asked: seq<Code>, body: CameraBody, k: Class): nat {
    if asked == [] then 0
    else CountOf(asked[..|asked| - 1], body, k) + if ClassOf(body, asked[|asked| - 1]) == k then 1 else 0
  }

  predicate Tallied(n: Counts, asked: seq<Code>, body: CameraBody) {
    && n.asked == |asked|
    && n.present == CountOf(asked, body, Described) + CountOf(asked, body, BytesOnly)
    && n.bytesOnly == CountOf(asked, body, BytesOnly)
    && n.notSupported == CountOf(asked, body, Unsupported)
    && n.refused == CountOf(asked, body, RefusedCode)
    && n.failed == CountOf(asked, body, NoAnswer)
  }

  ghost predicate Recorded(entries: map<Code, SweepEntry>, asked: seq<Code>, body: CameraBody, listed: set<Code>) {
    forall c: Code ::
      (if c in entries then Some(entries[c]) else None) == if c in asked then Kept(body, listed, c) else None
  }

  predicate NoUse(codes: seq<Code>, i: int, body: CameraBody) {
    0 <= i < |codes| && body(codes[i]).Broken?
  }

  /** Asking the i-th code ends the sweep: a fatal failure, or the third unusable reply in a row. */
  predicate Halts(codes: seq<Code>, i: nat, body: CameraBody) {
    && NoUse(codes, i, body)
    && (body(codes[i]).trouble.Fatal() || (NoUse(codes, i - 1, body) && NoUse(codes, i - 2, body)))
  }

  function ReasonFor(body: CameraBody, c: Code): Reason
    requires body(c).Broken?
  {
    if body(c).trouble.Fatal() then SessionLost(body(c).detail) else InARow(MAX_CONSECUTIVE_FAILURES, body(c).detail)
  }

  /** The dump of a sweep of `body`: it asked its codes in order, up to the first that ends the sweep. */
  ghost predicate Swept(d: Dump, body: CameraBody, listed: set<Code>) {
    var codes, n := CodesOf(d.ranges), d.counts.asked;
    && Normal(d.ranges)
    && n <= |codes|
    && Recorded(d.entries, codes[..n], body, listed)
    && Tallied(d.counts, codes[..n], body)
    && (forall i :: 0 <= i < n - 1 ==> !Halts(codes, i, body))
    && (if d.aborted.Some? then
          n > 0 && Halts(codes, n - 1, body) && d.aborted.value == Aborted(codes[n - 1], ReasonFor(body, codes[n - 1]))
        else
          n == |codes| && (n > 0 ==> !Halts(codes, n - 1, body)))
  }

  // ----- The sweep -----

  /** The counter says how many of the latest replies were unusable, as long as nothing has ended the sweep. */
  predicate Streak(failures: nat, codes: seq<Code>, k: nat, body: CameraBody) {
    && failures <= 2
    && (failures >= 1 <==> NoUse(codes, k - 1, body))
    && (failures == 2 <==> NoUse(codes, k - 1, body) && NoUse(codes, k - 2, body))
  }

  /** What the loop holds after some codes. */
  datatype Notes = Notes(entries: map<Code, SweepEntry>, counts: Counts, failures: nat, steps: seq<Progress>)

  ghost predicate Holds(n: Notes, codes: seq<Code>, body: CameraBody, listed: set<Code>) {
    var k := n.counts.asked;
    && k <= |codes|
    && Recorded(n.entries, codes[..k], body, listed)
    && Tallied(n.counts, codes[..k], body)
    && |n.steps| == k
    && Shown(n.steps, codes)
  }

  /** A progress line per code asked, in order. */
  ghost predicate Shown(steps: seq<Progress>, codes: seq<Code>) {
    |steps| <= |codes| && forall i :: 0 <= i < |steps| ==> steps[i] == Progress(codes[i], i, |codes|)
  }

  /** Nothing has ended the sweep yet. */
  ghost predicate Going(n: Notes, codes: seq<Code>, body: CameraBody) {
    && Streak(n.failures, codes, n.counts.asked, body)
    && forall i :: 0 <= i < n.counts.asked ==> !Halts(codes, i, body)
  }

  lemma RecordOne(entries: map<Code, SweepEntry>, codes: seq<Code>, k: nat, body: CameraBody, listed: set<Code>)
    requires k < |codes| && Ascending(codes) && Recorded(entries, codes[..k], body, listed)
    ensures var e := Kept(body, listed, codes[k]);
            Recorded(if e.Some? then entries[codes[k] := e.value] else entries, codes[..k + 1], body, listed)
  {
    hide Kept;
    var c := codes[k];
    assert c !in codes[..k];
    assert codes[..k + 1] == codes[..k] + [c];
  }

  function OneMore(n: Counts, k: Class): Counts {
    var m := n.(asked := n.asked + 1);
    match k
    case Described => m.(present := n.present + 1)
    case BytesOnly => m.(present := n.present + 1, bytesOnly := n.bytesOnly + 1)
    case Unsupported => m.(notSupported := n.notSupported + 1)
    case RefusedCode => m.(refused := n.refused + 1)
    case NoAnswer => m.(failed := n.failed + 1)
  }

  lemma TallyOne(n: Counts, codes: seq<Code>, k: nat, body: CameraBody)
    requires k < |codes| && Tallied(n, codes[..k], body)
    ensures Tallied(OneMore(n, ClassOf(body, codes[k])), codes[..k + 1], body)
  {
    hide ClassOf;
    assert codes[..k + 1][..k] == codes[..k];
  }

  /** The notes after one more answer, whatever it was. */
  lemma AskOne(n: Notes, m: Notes, codes: seq<Code>, body: CameraBody, listed: set<Code>)
    requires Holds(n, codes, body, listed) && Going(n, codes, body) && Ascending(codes) && n.counts.asked < |codes|
    requires var c, k := codes[n.counts.asked], n.counts.asked;
             var e := Kept(body, listed, c);
             && m.entries == (if e.Some? then n.entries[c := e.value] else n.entries)
             && m.counts == OneMore(n.counts, ClassOf(body, c))
             && m.steps == n.steps + [Progress(c, k, |codes|)]
             && m.failures == if body(c).Broken? then n.failures + 1 else 0
    ensures Holds(m, codes, body, listed) && m.counts.asked == n.counts.asked + 1
    ensures var r := body(codes[n.counts.asked]);
            if r.Broken? && (r.trouble.Fatal() || m.failures >= MAX_CONSECUTIVE_FAILURES) then
              && Halts(codes, n.counts.asked, body)
              && (m.failures >= MAX_CONSECUTIVE_FAILURES ==> m.failures == MAX_CONSECUTIVE_FAILURES)
            else Going(m, codes, body)
  {
    hide Recorded, Tallied, Kept, ClassOf;
    var k := n.counts.asked;
    RecordOne(n.entries, codes, k, body, listed);
    TallyOne(n.counts, codes, k, body);
  }

  lemma Stopped(was: Notes, n: Notes, d: Dump, codes: seq<Code>, body: CameraBody, listed: set<Code>)
    requires Normal(d.ranges) && codes == CodesOf(d.ranges) && Holds(n, codes, body, listed)
    requires d.entries == n.entries && d.counts == n.counts
    requires Going(was, codes, body) && n.counts.asked == was.counts.asked + 1 && Halts(codes, was.counts.asked, body)
    requires d.aborted == Some(Aborted(codes[was.counts.asked], ReasonFor(body, codes[was.counts.asked])))
    ensures Swept(d, body, listed) && Shown(n.steps, codes) && |n.steps| == d.counts.asked
  {
    hide Recorded, Tallied, Halts, Normal, CodesOf, Shown;
  }

  lemma Completed(n: Notes, d: Dump, codes: seq<Code>, body: CameraBody, listed: set<Code>)
    requires Normal(d.ranges) && codes == CodesOf(d.ranges) && Holds(n, codes, body, listed)
    requires d.entries == n.entries && d.counts == n.counts && d.aborted.None?
    requires Going(n, codes, body) && n.counts.asked == |codes|
    ensures Swept(d, body, listed) && Shown(n.steps, codes) && |n.steps| == d.counts.asked
  {
    hide Recorded, Tallied, Halts, Normal, CodesOf, Shown;
  }

  /** Ask one code and note what came back. */
  method NoteAnswer(code: Code, body: CameraBody, listed: set<Code>, before: map<Code, SweepEntry>, tally: Counts,
      streak: nat)
    returns (entries: map<Code, SweepEntry>, counts: Counts, failures: nat, aborted: Option<Aborted>)
    ensures entries == if Kept(body, listed, code).Some? then before[code := Kept(body, listed, code).value] else before
    ensures counts == OneMore(tally, ClassOf(body, code))
    ensures failures == if body(code).Broken? then streak + 1 else 0
    ensures aborted.Some? <==>
            body(code).Broken? && (body(code).trouble.Fatal() || failures >= MAX_CONSECUTIVE_FAILURES)
    ensures aborted.Some? && failures <= MAX_CONSECUTIVE_FAILURES ==>
            aborted.value == Aborted(code, ReasonFor(body, code))
  {
    hide ClassOf, Kept, Parsed;
    Keeps(body, listed, code);
    entries, counts, failures, aborted := before, tally.(asked := tally.asked + 1), streak, None;
    match Classify(body(code)) {
      case Desc(data) =>
        failures := 0;
        counts := counts.(present := counts.present + 1);
        var desc := ParsePropDesc(data, code);
        if desc.None? {
          counts := counts.(bytesOnly := counts.bytesOnly + 1);
        }
        entries := entries[code := Present(data, code in listed, desc)];
      case NotSupported =>
        failures := 0;
        counts := counts.(notSupported := counts.notSupported + 1);
      case RefusedWith(c) =>
        failures := 0;
        counts := counts.(refused := counts.refused + 1);
        entries := entries[code := Refused(c)];
      case Unusable(tag, detail, fatal) =>
        counts := counts.(failed := counts.failed + 1);
        failures := failures + 1;
        entries := entries[code := SweepEntry.Failed(tag, detail)];
        if fatal || failures >= MAX_CONSECUTIVE_FAILURES {
          aborted := Some(Aborted(code, if fatal then SessionLost(detail) else InARow(failures, detail)));
        }
    }
  }

  /** Ask every code of the blocks, merged, until the body stops answering; `steps` is what a progress line saw. */
  method SweepBody(asked: seq<CodeRange>, listed: set<Code>, body: CameraBody) returns (d: Dump, steps: seq<Progress>)
    ensures Swept(d, body, listed)
    ensures forall c: Code :: Covers(d.ranges, c) <==> Covers(asked, c)
    ensures |steps| == d.counts.asked && Shown(steps, CodesOf(d.ranges))
  {
    hide Covers, Normal, Recorded, Tallied, ClassOf, Kept, Parsed, Swept, Going, Halts, ReasonFor, OneMore, Shown,
        CodesOf;
    var ranges := Normalize(asked);
    CodesInOrder(ranges);
    ghost var codes := CodesOf(ranges);
    var total := Total(ranges);
    var entries: map<Code, SweepEntry> := map[];
    var counts := Counts(0, 0, 0, 0, 0, 0);
    var aborted: Option<Aborted> := None;
    var failures := 0;
    steps := [];
    Nothing(codes, body, listed);
    assert ranges[..0] == [];
    label blocks: for j := 0 to |ranges|
      invariant counts.asked == |CodesOf(ranges[..j])| <= |codes| && aborted.None?
      invariant Holds(Notes(entries, counts, failures, steps), codes, body, listed)
      invariant Going(Notes(entries, counts, failures, steps), codes, body)
    {
      NextBlock(ranges, j);
      for wide := ranges[j].lo to ranges[j].hi + 1
        invariant counts.asked == |CodesOf(ranges[..j])| + (wide - ranges[j].lo) <= |codes| && aborted.None?
        invariant Holds(Notes(entries, counts, failures, steps), codes, body, listed)
        invariant Going(Notes(entries, counts, failures, steps), codes, body)
      {
        var code: Code := wide;
        ghost var was := Notes(entries, counts, failures, steps);
        CodeAt(ranges, j, code);
        steps := steps + [Progress(code, counts.asked, total)];
        entries, counts, failures, aborted := NoteAnswer(code, body, listed, entries, counts, failures);
        AskOne(was, Notes(entries, counts, failures, steps), codes, body, listed);
        if aborted.Some? {
          Stopped(was, Notes(entries, counts, failures, steps), Dump(ranges, counts, aborted, entries), codes, body,
              listed);
          break blocks;
        }
      }
    }
    d := Dump(ranges, counts, aborted, entries);
    if aborted.None? {
      assert ranges[..|ranges|] == ranges;
      Completed(Notes(entries, counts, failures, steps), d, codes, body, listed);
    }
  }

  lemma Nothing(codes: seq<Code>, body: CameraBody, listed: set<Code>)
    ensures var n := Notes(map[], Counts(0, 0, 0, 0, 0, 0), 0, []);
            Holds(n, codes, body, listed) && Going(n, codes, body) && CodesOf([]) == []
  {
  }

  lemma Keeps(body: CameraBody, listed: set<Code>, c: Code)
    ensures var a := Classify(body(c));
            && (a.Desc? ==>
                  && Kept(body, listed, c) == Some(Present(a.data, c in listed, Parsed(a.data, c)))
                  && ClassOf(body, c) == if Parsed(a.data, c).Some? then Described else BytesOnly)
            && (a.NotSupported? ==> Kept(body, listed, c).None? && ClassOf(body, c) == Unsupported)
            && (a.RefusedWith? ==> Kept(body, listed, c) == Some(Refused(a.code)) && ClassOf(body, c) == RefusedCode)
            && (a.Unusable? ==>
                  && Kept(body, listed, c) == Some(SweepEntry.Failed(a.tag, a.detail))
                  && ClassOf(body, c) == NoAnswer)
  {
  }

  // ----- What a dump says -----

  /** Every code asked was answered in one of four ways, and the counts say how often. */
  lemma {:induction false} ClassesAddUp(asked: seq<Code>, body: CameraBody)
    ensures |asked| == CountOf(asked, body, Described) + CountOf(asked, body, BytesOnly)
                       + CountOf(asked, body, Unsupported)
                       + CountOf(asked, body, RefusedCode) + CountOf(asked, body, NoAnswer)
  {
    if asked != [] {
      ClassesAddUp(asked[..|asked| - 1], body);
    }
  }

  lemma CountsAddUp(d: Dump, body: CameraBody, listed: set<Code>)
    requires Swept(d, body, listed)
    ensures d.counts.asked == d.counts.present + d.counts.notSupported + d.counts.refused + d.counts.failed
    ensures d.counts.bytesOnly <= d.counts.present
  {
    ClassesAddUp(CodesOf(d.ranges)[..d.counts.asked], body);
  }

  /** What a dump covers: the codes asked, less the one it stopped at. */
  lemma CoverageIsWhatWasAnswered(d: Dump, body: CameraBody, listed: set<Code>, c: Code)
    requires Swept(d, body, listed)
    ensures d.Covered(c) <==> c in CodesOf(d.ranges)[..d.counts.asked - if d.aborted.Some? then 1 else 0]
  {
    hide Recorded, Tallied, Halts;
    var codes, n := CodesOf(d.ranges), d.counts.asked;
    CodesInOrder(d.ranges);
    if d.aborted.Some? {
      if c in codes && c < codes[n - 1] {
        var i :| 0 <= i < |codes| && codes[i] == c;
        assert i < n - 1;
        assert codes[..n - 1][i] == c;
      }
    } else {
      assert codes[..n] == codes;
    }
  }

  /** A covered code has the entry its answer leaves, so no entry means "not supported" and nothing else. */
  lemma CoveredCodeHasItsAnswer(d: Dump, body: CameraBody, listed: set<Code>, c: Code)
    requires Swept(d, body, listed) && d.Covered(c)
    ensures d.At(c) == Kept(body, listed, c)
    ensures c !in d.entries <==> body(c) == OperationFailed(NOT_SUPPORTED)
  {
    hide Tallied, Halts;
    CoverageIsWhatWasAnswered(d, body, listed, c);
    var asked := CodesOf(d.ranges)[..d.counts.asked];
    assert c in asked;
  }

  /** What a covered code's entry is, said of the reply; and that a dump says nothing is the reply 0x200A, no other. */
  lemma EntrySaysTheReply(d: Dump, body: CameraBody, listed: set<Code>, c: Code)
    requires Swept(d, body, listed) && d.Covered(c)
    ensures d.At(c) == match body(c)
            case Data(raw) => Some(Present(raw, c in listed, Parsed(raw, c)))
            case OperationFailed(code) => if code == 0x200A then None else Some(Refused(code))
            case Broken(trouble, detail) => Some(SweepEntry.Failed(trouble, detail))
  {
    hide Swept, Parsed;
    CoveredCodeHasItsAnswer(d, body, listed, c);
  }

  predicate NotUsable(r: Reply) {
    r.Broken?
  }

  /** A time-out, a poisoned session or a USB failure: after it no reply can be trusted. */
  predicate LosesTheSession(r: Reply) {
    r.Broken? && (r.trouble == TimedOut || r.trouble == SessionPoisoned || r.trouble == Usb)
  }

  /** Which replies end a sweep: one that loses the session, or the third unusable one in a row. */
  lemma HaltsExactlyWhen(codes: seq<Code>, i: nat, body: CameraBody)
    ensures Halts(codes, i, body) <==>
            && i < |codes|
            && (|| LosesTheSession(body(codes[i]))
                || (i >= 2 && forall k :: i - 2 <= k <= i ==> NotUsable(body(codes[k]))))
  {
  }

  /** A sweep stops at all exactly when some reply ends it, and then at the first that does. */
  lemma StopsAtTheFirst(d: Dump, body: CameraBody, listed: set<Code>, i: nat)
    requires Swept(d, body, listed) && i < |CodesOf(d.ranges)| && Halts(CodesOf(d.ranges), i, body)
    requires forall k :: 0 <= k < i ==> !Halts(CodesOf(d.ranges), k, body)
    ensures d.counts.asked == i + 1 && d.aborted.Some? && d.aborted.value.at == CodesOf(d.ranges)[i]
  {
    hide Recorded, Tallied;
  }

  lemma NeverStopped(d: Dump, body: CameraBody, listed: set<Code>)
    requires Swept(d, body, listed) && forall k :: 0 <= k < |CodesOf(d.ranges)| ==> !Halts(CodesOf(d.ranges), k, body)
    ensures d.aborted.None? && d.counts.asked == Total(d.ranges)
  {
    hide Recorded, Tallied;
    CodesInOrder(d.ranges);
  }
}
