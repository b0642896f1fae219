// Comparing two sweeps, as src/prop_sweep.rs does: over the codes both dumps cover, with the changes a third dump of
// the same body also shows set aside.

module SweepDiff {
  import opened Wrappers
  import opened Bytes
  import opened PropDesc
  import opened Sweep

  datatype ChangeKind = Appeared | Vanished | Changed {
    function Reversed(): ChangeKind {
      match this
      case Appeared => Vanished
      case Vanished => Appeared
      case Changed => Changed
    }
  }

  /** One line of a change, before it is put into words. */
  datatype Detail =
    | NewAnswer(now: SweepEntry)
    | LostAnswer(was: SweepEntry)
    | OtherAnswer(from: Option<SweepEntry>, to: Option<SweepEntry>)
    | DataType(fromType: nat, toType: nat)
    | Access(fromAccess: byte, toAccess: byte)
    | Default(fromDefault: Option<PropValue>, toDefault: Option<PropValue>)
    | Current(fromCurrent: Option<PropValue>, toCurrent: Option<PropValue>)
    | Allowed(fromForm: Option<PropForm>, toForm: Option<PropForm>)
    | Listed(fromListed: bool, toListed: bool)
    | BytesDiffer
    | Refusal(fromCode: nat, toCode: nat)
    | FailureTag(fromTag: Trouble, toTag: Trouble)

  datatype Difference = Difference(kind: ChangeKind, details: seq<Detail>)

  datatype Change = Change(code: Code, difference: Difference)

  datatype Diff = Diff(compared: nat, notCompared: nat, changes: seq<Change>, volatile: seq<Change>)

  // ----- One code -----

  function DescDetails(x: PropDesc, y: PropDesc): seq<Detail> {
    (if x.dataType != y.dataType then [DataType(x.dataType, y.dataType)] else [])
    + (if x.getSet != y.getSet then [Access(x.getSet, y.getSet)] else [])
    + (if x.default != y.default then [Default(x.default, y.default)] else [])
    + (if x.current != y.current then [Current(x.current, y.current)] else [])
    + (if x.form != y.form then [Allowed(x.form, y.form)] else [])
  }

  function PresentDetails(x: SweepEntry, y: SweepEntry): seq<Detail>
    requires x.Present? && y.Present?
  {
    var fields := if x.desc.Some? && y.desc.Some? then DescDetails(x.desc.value, y.desc.value) else [];
    var named := fields + if x.listed != y.listed then [Listed(x.listed, y.listed)] else [];
    if named == [] && x.raw != y.raw then [BytesDiffer] else named
  }

  /** The difference between two answers, if there is one to report. */
  function EntryChange(a: Option<SweepEntry>, b: Option<SweepEntry>): Option<Difference> {
    match (a, b)
    case (None, None) => None
    case (None, Some(Present(_, _, _))) => Some(Difference(Appeared, [NewAnswer(b.value)]))
    case (Some(Present(_, _, _)), None) => Some(Difference(Vanished, [LostAnswer(a.value)]))
    case (Some(Present(_, _, _)), Some(Present(_, _, _))) =>
      var details := PresentDetails(a.value, b.value);
      if details == [] then None else Some(Difference(Changed, details))
    case (Some(Refused(x)), Some(Refused(y))) =>
      if x == y then None else Some(Difference(Changed, [Refusal(x, y)]))
    case (Some(Failed(x, _)), Some(Failed(y, _))) =>
      if x == y then None else Some(Difference(Changed, [FailureTag(x, y)]))
    case _ => Some(Difference(Changed, [OtherAnswer(a, b)]))
  }

  /** The same answer to a code: none, the same bytes and listing, the same refusal, or the same kind of failure. */
  predicate SameAnswer(a: Option<SweepEntry>, b: Option<SweepEntry>) {
    match (a, b)
    case (None, None) => true
    case (Some(Present(ra, la, _)), Some(Present(rb, lb, _))) => ra == rb && la == lb
    case (Some(Refused(x)), Some(Refused(y))) => x == y
    case (Some(Failed(x, _)), Some(Failed(y, _))) => x == y
    case _ => false
  }

  /** A difference in bytes no field shows is still a difference, and equal bytes never differ. */
  lemma ChangeExactlyWhenAnswersDiffer(a: Option<SweepEntry>, b: Option<SweepEntry>, c: Code)
    requires a.Some? && a.value.Present? ==> a.value.desc == Parsed(a.value.raw, c)
    requires b.Some? && b.value.Present? ==> b.value.desc == Parsed(b.value.raw, c)
    ensures EntryChange(a, b).None? <==> SameAnswer(a, b)
  {
    hide Parsed;
  }

  /** Read the other way round, the same codes differ, and what appeared has vanished. */
  lemma ChangeReversed(a: Option<SweepEntry>, b: Option<SweepEntry>)
    ensures EntryChange(a, b).None? <==> EntryChange(b, a).None?
    ensures EntryChange(a, b).Some? ==> EntryChange(b, a).value.kind == EntryChange(a, b).value.kind.Reversed()
  {
  }

  // ----- Counting codes -----

  function CountWhere(s: seq<Code>, p: Code -> bool): nat {
    if s == [] then 0 else CountWhere(s[..|s| - 1], p) + if p(s[|s| - 1]) then 1 else 0
  }

  function Coverage(d: Dump): set<Code> {
    set c | c in CodesOf(d.ranges) && d.Covered(c)
  }

  function CoveredBy(x: Dump, y: Dump, inY: bool): Code -> bool {
    (c: Code) => x.Covered(c) && y.Covered(c) == inY
  }

  function CoveredIn(x: Dump): Code -> bool {
    (c: Code) => x.Covered(c)
  }

  function Picked(s: seq<Code>, p: Code -> bool): set<Code> {
    set c | c in s && p(c)
  }

  /** No code that `p` picks is listed twice. */
  predicate Once(s: seq<Code>, p: Code -> bool) {
    forall i, j :: 0 <= i < j < |s| && p(s[i]) ==> s[i] != s[j]
  }

  lemma PickedSnoc(s: seq<Code>, p: Code -> bool)
    requires s != []
    ensures var front, last := s[..|s| - 1], s[|s| - 1];
            && Picked(s, p) == (if p(last) then Picked(front, p) + {last} else Picked(front, p))
            && (last in Picked(front, p) <==> p(last) && last in front)
  {
    assert s == s[..|s| - 1] + [s[|s| - 1]];
  }

  lemma OnceSnoc(s: seq<Code>, p: Code -> bool)
    requires s != []
    ensures var front, last := s[..|s| - 1], s[|s| - 1];
            Once(s, p) <==> Once(front, p) && !(p(last) && last in front)
  {
    var front, last := s[..|s| - 1], s[|s| - 1];
    if p(last) && last in front {
      var i :| 0 <= i < |front| && front[i] == last;
      assert s[i] == s[|s| - 1];
    }
    if Once(s, p) {
      forall i, j | 0 <= i < j < |front| && p(front[i]) ensures front[i] != front[j] {
        assert s[i] != s[j];
      }
    }
  }

  /** Counting along the blocks counts codes exactly when the blocks list none of them twice. */
  lemma {:induction false} CountIsSizeExactlyWhen(s: seq<Code>, p: Code -> bool)
    ensures |Picked(s, p)| <= CountWhere(s, p)
    ensures CountWhere(s, p) == |Picked(s, p)| <==> Once(s, p)
  {
    hide Picked, Once;
    if s == [] {
      NoneListed(p);
    } else {
      CountIsSizeExactlyWhen(s[..|s| - 1], p);
      PickedSnoc(s, p);
      OnceSnoc(s, p);
    }
  }

  lemma NoneListed(p: Code -> bool)
    ensures Picked([], p) == {} && Once([], p)
  {
  }

  /** A dump file's blocks are taken as they stand: where they overlap, a code is compared once and counted twice. */
  lemma OverlapCountsTwice(d: Dump)
    requires d.ranges == [Block(5, 5), Block(5, 5)] && d.aborted.None?
    ensures CountWhere(CodesOf(d.ranges), CoveredBy(d, d, true)) == 2 && Coverage(d) == {5}
  {
    hide CodesOf, CountWhere;
    CodesOfOverlap(d.ranges);
    assert d.ranges[0].Contains(5);
    assert d.Covered(5);
    CountOfBoth(CoveredBy(d, d, true));
  }

  lemma CodesOfOverlap(rs: seq<CodeRange>)
    requires rs == [Block(5, 5), Block(5, 5)]
    ensures CodesOf(rs) == [5, 5]
  {
    assert rs[..1] == [Block(5, 5)] && rs[..1][..0] == [];
    assert BlockCodes(Block(5, 5)) == [5];
    assert CodesOf(rs[..1]) == [5];
  }

  lemma CountOfBoth(p: Code -> bool)
    requires p(5)
    ensures CountWhere([5, 5], p) == 2
  {
    assert [5, 5][..1] == [5] && [5][..0] == [];
    assert CountWhere([5], p) == 1;
  }

  lemma CoverageIn(d: Dump, c: Code)
    requires Normal(d.ranges)
    ensures c in Coverage(d) <==> d.Covered(c)
  {
    CodesInOrder(d.ranges);
  }

  lemma CountsCoverage(x: Dump, y: Dump, inY: bool)
    requires Normal(x.ranges) && Normal(y.ranges)
    ensures CountWhere(CodesOf(x.ranges), CoveredBy(x, y, inY)) ==
            |if inY then Coverage(x) * Coverage(y) else Coverage(x) - Coverage(y)|
  {
    hide Normal, CodesOf, CountWhere;
    var s, p := CodesOf(x.ranges), CoveredBy(x, y, inY);
    CodesInOrder(x.ranges);
    CountIsSizeExactlyWhen(s, p);
    forall c: Code ensures c in Coverage(y) <==> y.Covered(c) {
      CoverageIn(y, c);
    }
    var which := if inY then Coverage(x) * Coverage(y) else Coverage(x) - Coverage(y);
    assert Picked(s, p) == which;
  }

  // ----- The report -----

  predicate InOrder(out: seq<Change>) {
    forall i, j :: 0 <= i < j < |out| ==> out[i].code < out[j].code
  }

  /** The difference to report for a code, if there is one: both cover it and their answers differ. */
  function Reportable(a: Dump, b: Dump, c: Code): Option<Difference> {
    if a.Covered(c) && b.Covered(c) then EntryChange(a.At(c), b.At(c)) else None
  }

  predicate Reports(out: seq<Change>, c: Code) {
    exists i :: 0 <= i < |out| && out[i].code == c
  }

  /** The report holds, in order of code and each once, exactly what there is to report about codes below `bound`. */
  ghost predicate Exact(out: seq<Change>, a: Dump, b: Dump, bound: nat) {
    && InOrder(out)
    && (forall i :: 0 <= i < |out| ==> out[i].code < bound && Reportable(a, b, out[i].code) == Some(out[i].difference))
    && forall c: Code :: c < bound && Reportable(a, b, c).Some? ==> Reports(out, c)
  }

  lemma ExactStep(out: seq<Change>, a: Dump, b: Dump, c: Code)
    requires Exact(out, a, b, c)
    ensures Reportable(a, b, c).None? ==> Exact(out, a, b, c + 1)
    ensures Reportable(a, b, c).Some? ==> Exact(out + [Change(c, Reportable(a, b, c).value)], a, b, c + 1)
  {
    hide Reportable;
    if Reportable(a, b, c).Some? {
      var more := out + [Change(c, Reportable(a, b, c).value)];
      assert more[|out|].code == c;
      forall d: Code | d < c && Reportable(a, b, d).Some? ensures Reports(more, d) {
        var i :| 0 <= i < |out| && out[i].code == d;
        assert more[i].code == d;
      }
      assert Reports(more, c);
    }
  }

  lemma UnkeptIsUnreported(a: Dump, b: Dump, c: Code)
    requires c !in a.entries && c !in b.entries
    ensures Reportable(a, b, c).None?
  {
  }

  /** The codes both cover, those only `a` covers, and what differs, in order of code. */
  method ChangesBetween(a: Dump, b: Dump) returns (both: nat, onlyA: nat, out: seq<Change>)
    ensures both == CountWhere(CodesOf(a.ranges), CoveredBy(a, b, true))
    ensures onlyA == CountWhere(CodesOf(a.ranges), CoveredBy(a, b, false))
    ensures Exact(out, a, b, 0x1_0000)
  {
    hide EntryChange, CodesOf, CountWhere, Exact;
    var codes := CodesOf(a.ranges);
    var inA := CountWhere(codes, CoveredIn(a));
    both := CountWhere(codes, CoveredBy(a, b, true));
    CountSplits(codes, a, b);
    out := [];
    NothingYet(a, b);
    for code := 0 to 0x1_0000
      invariant Exact(out, a, b, code)
    {
      var c: Code := code;
      ExactStep(out, a, b, c);
      if c !in a.entries && c !in b.entries {
        UnkeptIsUnreported(a, b, c);
      } else if a.Covered(c) && b.Covered(c) {
        var change := EntryChange(a.At(c), b.At(c));
        if change.Some? {
          out := out + [Change(c, change.value)];
        }
      }
    }
    onlyA := inA - both;
  }

  lemma NothingYet(a: Dump, b: Dump)
    ensures Exact([], a, b, 0)
  {
  }

  lemma {:induction false} CountSplits(s: seq<Code>, x: Dump, y: Dump)
    ensures CountWhere(s, CoveredIn(x)) ==
            CountWhere(s, CoveredBy(x, y, true)) + CountWhere(s, CoveredBy(x, y, false))
  {
    if s != [] {
      CountSplits(s[..|s| - 1], x, y);
    }
  }

  function CodesIn(out: seq<Change>): (s: set<Code>)
    ensures forall c :: c in s <==> Reports(out, c)
  {
    set i | 0 <= i < |out| :: out[i].code
  }

  function Setting(out: seq<Change>, moving: set<Code>, keep: bool): seq<Change> {
    if out == [] then []
    else
      var rest := Setting(out[..|out| - 1], moving, keep);
      if (out[|out| - 1].code in moving) == keep then rest + [out[|out| - 1]] else rest
  }

  /** Exactly the changes whose code is (or is not) one of `moving`, in the order they had. */
  ghost predicate Part(part: seq<Change>, out: seq<Change>, moving: set<Code>, keep: bool) {
    && InOrder(part)
    && forall x: Change :: x in part <==> x in out && (x.code in moving) == keep
  }

  lemma {:induction false} SettingIsPart(out: seq<Change>, moving: set<Code>, keep: bool)
    requires InOrder(out)
    ensures Part(Setting(out, moving, keep), out, moving, keep)
  {
    hide Part;
    if out == [] {
      NoPart(moving, keep);
    } else {
      SettingIsPart(out[..|out| - 1], moving, keep);
      PartSnoc(Setting(out[..|out| - 1], moving, keep), out, moving, keep);
    }
  }

  lemma NoPart(moving: set<Code>, keep: bool)
    ensures Part([], [], moving, keep)
  {
  }

  lemma PartSnoc(rest: seq<Change>, out: seq<Change>, moving: set<Code>, keep: bool)
    requires InOrder(out) && out != [] && Part(rest, out[..|out| - 1], moving, keep)
    ensures var last := out[|out| - 1];
            Part(if (last.code in moving) == keep then rest + [last] else rest, out, moving, keep)
  {
    var front, last := out[..|out| - 1], out[|out| - 1];
    assert out == front + [last];
    forall i | 0 <= i < |rest| ensures rest[i].code < last.code {
      assert rest[i] in front;
    }
  }

  /** What the noise dump shows to move by itself. */
  ghost predicate Moves(a: Dump, noise: Option<Dump>, c: Code) {
    noise.Some? && Reportable(a, noise.value, c).Some?
  }

  /** The comparison, and of its changes those that `noise` shows to move of themselves. */
  method DiffSweeps(a: Dump, b: Dump, noise: Option<Dump>, keepVolatile: bool) returns (d: Diff)
    ensures d.compared == CountWhere(CodesOf(a.ranges), CoveredBy(a, b, true))
    ensures d.notCompared == CountWhere(CodesOf(a.ranges), CoveredBy(a, b, false))
                             + CountWhere(CodesOf(b.ranges), CoveredBy(b, a, false))
    ensures SetAside(d, a, b, noise, keepVolatile)
    ensures forall x: Change :: x in d.changes || x in d.volatile ==> Tells(a.At(x.code), b.At(x.code), x.difference)
  {
    hide Exact, CodesOf, CountWhere, Reportable, SetAside, Tells;
    var compared, onlyA, changes := ChangesBetween(a, b);
    var onlyB := CountWhere(CodesOf(b.ranges), CoveredBy(b, a, false));
    var volatile: seq<Change> := [];
    ghost var all := changes;
    if noise.Some? && !keepVolatile {
      var _, _, moves := ChangesBetween(a, noise.value);
      var moving := CodesIn(moves);
      changes, volatile := Setting(changes, moving, false), Setting(changes, moving, true);
      AsideByNoise(Diff(compared, onlyA + onlyB, changes, volatile), all, moves, a, b, noise.value);
    } else {
      NoneAside(Diff(compared, onlyA + onlyB, changes, volatile), a, b, noise, keepVolatile);
    }
    d := Diff(compared, onlyA + onlyB, changes, volatile);
    ListedChangesTell(d, a, b, noise, keepVolatile);
  }

  lemma ListedChangesTell(d: Diff, a: Dump, b: Dump, noise: Option<Dump>, keepVolatile: bool)
    requires SetAside(d, a, b, noise, keepVolatile)
    ensures forall x: Change :: x in d.changes || x in d.volatile ==> Tells(a.At(x.code), b.At(x.code), x.difference)
  {
    hide EntryChange, Tells;
    forall x: Change | x in d.changes || x in d.volatile
      ensures Tells(a.At(x.code), b.At(x.code), x.difference)
    {
      ChangeTells(a.At(x.code), b.At(x.code));
    }
  }

  /** Each difference is in exactly one of the two lists, and which one is the noise dump's to say. */
  ghost predicate SetAside(d: Diff, a: Dump, b: Dump, noise: Option<Dump>, keepVolatile: bool) {
    && InOrder(d.changes) && InOrder(d.volatile)
    && (forall x: Change :: x in d.changes <==>
          Reportable(a, b, x.code) == Some(x.difference) && (keepVolatile || !Moves(a, noise, x.code)))
    && (forall x: Change :: x in d.volatile <==>
          Reportable(a, b, x.code) == Some(x.difference) && !keepVolatile && Moves(a, noise, x.code))
  }

  lemma ExactMembers(out: seq<Change>, a: Dump, b: Dump)
    requires Exact(out, a, b, 0x1_0000)
    ensures forall x: Change :: x in out <==> Reportable(a, b, x.code) == Some(x.difference)
    ensures forall c: Code :: c in CodesIn(out) <==> Reportable(a, b, c).Some?
  {
    hide Reportable;
    forall x: Change | Reportable(a, b, x.code) == Some(x.difference) ensures x in out {
      assert Reports(out, x.code);
      var i :| 0 <= i < |out| && out[i].code == x.code;
      assert out[i] == x;
    }
  }

  lemma AsideByNoise(d: Diff, all: seq<Change>, moves: seq<Change>, a: Dump, b: Dump, noise: Dump)
    requires Exact(all, a, b, 0x1_0000) && Exact(moves, a, noise, 0x1_0000)
    requires d.changes == Setting(all, CodesIn(moves), false) && d.volatile == Setting(all, CodesIn(moves), true)
    ensures SetAside(d, a, b, Some(noise), false)
  {
    hide Reportable;
    ExactMembers(all, a, b);
    ExactMembers(moves, a, noise);
    SettingIsPart(all, CodesIn(moves), true);
    SettingIsPart(all, CodesIn(moves), false);
  }

  lemma NoneAside(d: Diff, a: Dump, b: Dump, noise: Option<Dump>, keepVolatile: bool)
    requires Exact(d.changes, a, b, 0x1_0000) && d.volatile == [] && (noise.None? || keepVolatile)
    ensures SetAside(d, a, b, noise, keepVolatile)
  {
    hide Reportable;
    ExactMembers(d.changes, a, b);
  }

  // ----- What a change says -----

  predicate HasData(e: Option<SweepEntry>) {
    e.Some? && e.value.Present?
  }

  /** Both answers are present and both descriptors were read. */
  predicate BothRead(a: SweepEntry, b: SweepEntry) {
    a.Present? && b.Present? && a.desc.Some? && b.desc.Some?
  }

  /** Where details stand in a list of them. */
  function Rank(d: Detail): nat {
    match d
    case DataType(_, _) => 1
    case Access(_, _) => 2
    case Default(_, _) => 3
    case Current(_, _) => 4
    case Allowed(_, _) => 5
    case Listed(_, _) => 6
    case _ => 7
  }

  /** What each detail of two present answers is about: a field that differs, with the old value and the new one. */
  predicate IsTrue(d: Detail, a: SweepEntry, b: SweepEntry)
    requires a.Present? && b.Present?
  {
    match d
    case DataType(x, y) => BothRead(a, b) && x == a.desc.value.dataType && y == b.desc.value.dataType && x != y
    case Access(x, y) => BothRead(a, b) && x == a.desc.value.getSet && y == b.desc.value.getSet && x != y
    case Default(x, y) => BothRead(a, b) && x == a.desc.value.default && y == b.desc.value.default && x != y
    case Current(x, y) => BothRead(a, b) && x == a.desc.value.current && y == b.desc.value.current && x != y
    case Allowed(x, y) => BothRead(a, b) && x == a.desc.value.form && y == b.desc.value.form && x != y
    case Listed(x, y) => x == a.listed && y == b.listed && x != y
    case _ => false
  }

  /** All that is true of the two, in order and once each, or that just the bytes differ. */
  ghost predicate TellsAll(details: seq<Detail>, a: SweepEntry, b: SweepEntry)
    requires a.Present? && b.Present?
  {
    if exists d :: IsTrue(d, a, b) then
      && (forall d :: d in details <==> IsTrue(d, a, b))
      && (forall i, j :: 0 <= i < j < |details| ==> Rank(details[i]) < Rank(details[j]))
    else a.raw != b.raw && details == [BytesDiffer]
  }

  /**
   * What a change says of the two answers: `Appeared` when data came where there was no property, `Vanished` when it
   * went, and `Changed` otherwise, with what differs.
   */
  ghost predicate Tells(a: Option<SweepEntry>, b: Option<SweepEntry>, change: Difference) {
    && (change.kind == Appeared <==> a.None? && HasData(b))
    && (change.kind == Vanished <==> HasData(a) && b.None?)
    && (change.kind == Appeared ==> change.details == [NewAnswer(b.value)])
    && (change.kind == Vanished ==> change.details == [LostAnswer(a.value)])
    && (change.kind == Changed ==>
          if HasData(a) && HasData(b) then TellsAll(change.details, a.value, b.value)
          else if a.Some? && a.value.Refused? && b.Some? && b.value.Refused? then
            change.details == [Refusal(a.value.code, b.value.code)]
          else if a.Some? && a.value.Failed? && b.Some? && b.value.Failed? then
            change.details == [FailureTag(a.value.tag, b.value.tag)]
          else change.details == [OtherAnswer(a, b)])
  }

  lemma ChangeTells(a: Option<SweepEntry>, b: Option<SweepEntry>)
    ensures EntryChange(a, b).Some? ==> Tells(a, b, EntryChange(a, b).value)
  {
    hide PresentDetails, TellsAll;
    if HasData(a) && HasData(b) && PresentDetails(a.value, b.value) != [] {
      DetailsTellAll(a.value, b.value);
    }
  }

  lemma DetailsTellAll(a: SweepEntry, b: SweepEntry)
    requires a.Present? && b.Present? && PresentDetails(a, b) != []
    ensures TellsAll(PresentDetails(a, b), a, b)
  {
    hide DescDetails, IsTrue;
    var fields := if BothRead(a, b) then DescDetails(a.desc.value, b.desc.value) else [];
    var named := fields + if a.listed != b.listed then [Listed(a.listed, b.listed)] else [];
    DetailsAreTrue(a, b);
    DetailsInOrder(a, b);
    if named == [] {
      assert PresentDetails(a, b) == [BytesDiffer];
    } else {
      assert IsTrue(named[0], a, b);
    }
  }

  lemma DetailsAreTrue(a: SweepEntry, b: SweepEntry)
    requires a.Present? && b.Present?
    ensures var fields := if BothRead(a, b) then DescDetails(a.desc.value, b.desc.value) else [];
            var named := fields + if a.listed != b.listed then [Listed(a.listed, b.listed)] else [];
            forall d :: d in named <==> IsTrue(d, a, b)
  {
    hide DescDetails, Rank;
    var fields := if BothRead(a, b) then DescDetails(a.desc.value, b.desc.value) else [];
    var listed := if a.listed != b.listed then [Listed(a.listed, b.listed)] else [];
    if BothRead(a, b) {
      DescDetailsAre(a.desc.value, b.desc.value);
    }
    assert forall d :: d in fields + listed <==> d in fields || d in listed;
  }

  lemma DetailsInOrder(a: SweepEntry, b: SweepEntry)
    requires a.Present? && b.Present?
    ensures var fields := if BothRead(a, b) then DescDetails(a.desc.value, b.desc.value) else [];
            RanksWithin(fields + if a.listed != b.listed then [Listed(a.listed, b.listed)] else [], 1, 6)
  {
    hide DescDetails, RanksWithin;
    var fields := if BothRead(a, b) then DescDetails(a.desc.value, b.desc.value) else [];
    var listed := if a.listed != b.listed then [Listed(a.listed, b.listed)] else [];
    NoneRanked();
    if BothRead(a, b) {
      DescDetailsInOrder(a.desc.value, b.desc.value);
    }
    RanksOfOne(listed, 6);
    RanksJoin(fields, listed, 1, 5, 6);
  }

  lemma DescDetailsAre(x: PropDesc, y: PropDesc)
    ensures forall d :: d in DescDetails(x, y) <==>
              match d
              case DataType(p, q) => p == x.dataType && q == y.dataType && p != q
              case Access(p, q) => p == x.getSet && q == y.getSet && p != q
              case Default(p, q) => p == x.default && q == y.default && p != q
              case Current(p, q) => p == x.current && q == y.current && p != q
              case Allowed(p, q) => p == x.form && q == y.form && p != q
              case _ => false
  {
    hide Rank;
    var dataType := if x.dataType != y.dataType then [DataType(x.dataType, y.dataType)] else [];
    var access := if x.getSet != y.getSet then [Access(x.getSet, y.getSet)] else [];
    var default := if x.default != y.default then [Default(x.default, y.default)] else [];
    var current := if x.current != y.current then [Current(x.current, y.current)] else [];
    var allowed := if x.form != y.form then [Allowed(x.form, y.form)] else [];
    MembersOfAll(dataType, access, default, current, allowed);
  }

  lemma MembersOfAll<T>(a: seq<T>, b: seq<T>, c: seq<T>, d: seq<T>, e: seq<T>)
    ensures forall x :: x in a + b + c + d + e <==> x in a || x in b || x in c || x in d || x in e
  {
  }

  lemma DescDetailsInOrder(x: PropDesc, y: PropDesc)
    ensures RanksWithin(DescDetails(x, y), 1, 5)
  {
    hide RanksWithin;
    var dataType := if x.dataType != y.dataType then [DataType(x.dataType, y.dataType)] else [];
    var access := if x.getSet != y.getSet then [Access(x.getSet, y.getSet)] else [];
    var default := if x.default != y.default then [Default(x.default, y.default)] else [];
    var current := if x.current != y.current then [Current(x.current, y.current)] else [];
    var allowed := if x.form != y.form then [Allowed(x.form, y.form)] else [];
    RanksOfOne(dataType, 1);
    RanksOfOne(access, 2);
    RanksOfOne(default, 3);
    RanksOfOne(current, 4);
    RanksOfOne(allowed, 5);
    RanksJoin(dataType, access, 1, 1, 2);
    RanksJoin(dataType + access, default, 1, 2, 3);
    RanksJoin(dataType + access + default, current, 1, 3, 4);
    RanksJoin(dataType + access + default + current, allowed, 1, 4, 5);
  }

  lemma RanksOfOne(details: seq<Detail>, rank: nat)
    requires |details| <= 1 && (details != [] ==> Rank(details[0]) == rank)
    ensures RanksWithin(details, rank, rank)
  {
  }

  lemma NoneRanked()
    ensures RanksWithin([], 1, 5)
  {
  }

  predicate RanksWithin(details: seq<Detail>, lo: nat, hi: nat) {
    && (forall i :: 0 <= i < |details| ==> lo <= Rank(details[i]) <= hi)
    && (forall i, j :: 0 <= i < j < |details| ==> Rank(details[i]) < Rank(details[j]))
  }

  lemma RanksJoin(x: seq<Detail>, y: seq<Detail>, lo: nat, mid: nat, hi: nat)
    requires lo <= mid < hi && RanksWithin(x, lo, mid) && RanksWithin(y, mid + 1, hi)
    ensures RanksWithin(x + y, lo, hi)
  {
  }

  // ----- Dumps made by a sweep -----

  /** The same answer from two bodies, told apart only as far as a dump does. */
  predicate SameReply(x: Reply, inX: bool, y: Reply, inY: bool) {
    match (Classify(x), Classify(y))
    case (Desc(p), Desc(q)) => p == q && inX == inY
    case (NotSupported, NotSupported) => true
    case (RefusedWith(p), RefusedWith(q)) => p == q
    case (Unusable(p, _, _), Unusable(q, _, _)) => p == q
    case _ => false
  }

  /** Of two bodies: a property appeared exactly when the first said 0x200A and the second gave data. */
  ghost predicate KindSays(kind: ChangeKind, x: Reply, y: Reply) {
    && (kind == Appeared <==> x == OperationFailed(0x200A) && y.Data?)
    && (kind == Vanished <==> x.Data? && y == OperationFailed(0x200A))
    && (kind == Changed <==> !(x == OperationFailed(0x200A) && y.Data?) && !(x.Data? && y == OperationFailed(0x200A)))
  }

  /** So every change a comparison of two sweeps lists says of the bodies what became of the property. */
  lemma ChangesSayWhatBecame(d: Diff, a: Dump, x: CameraBody, inA: set<Code>, b: Dump, y: CameraBody, inB: set<Code>,
      noise: Option<Dump>, keepVolatile: bool)
    requires Swept(a, x, inA) && Swept(b, y, inB) && SetAside(d, a, b, noise, keepVolatile)
    ensures forall c: Change :: c in d.changes || c in d.volatile ==>
              KindSays(c.difference.kind, x(c.code), y(c.code))
  {
    hide Swept, EntryChange, Parsed, Dump.Covered;
    forall c: Change | c in d.changes || c in d.volatile
      ensures KindSays(c.difference.kind, x(c.code), y(c.code))
    {
      EntrySaysTheReply(a, x, inA, c.code);
      EntrySaysTheReply(b, y, inB, c.code);
      ChangeTells(a.At(c.code), b.At(c.code));
    }
  }

  /** A report of two sweeps is silent about a code exactly when one of them does not cover it or both bodies said the
      same about it. */
  lemma SilentExactlyWhenAnswersMatch(a: Dump, x: CameraBody, inA: set<Code>, b: Dump, y: CameraBody, inB: set<Code>,
      c: Code)
    requires Swept(a, x, inA) && Swept(b, y, inB) && a.Covered(c) && b.Covered(c)
    ensures Reportable(a, b, c).None? <==> SameReply(x(c), c in inA, y(c), c in inB)
  {
    hide Parsed, Swept, EntryChange;
    CoveredCodeHasItsAnswer(a, x, inA, c);
    CoveredCodeHasItsAnswer(b, y, inB, c);
    ChangeExactlyWhenAnswersDiffer(a.At(c), b.At(c), c);
  }

  /** Compared and not compared are the codes both cover and the codes one covers, each counted once. */
  lemma ComparedIsTheCommonCoverage(a: Dump, x: CameraBody, inA: set<Code>, b: Dump, y: CameraBody, inB: set<Code>)
    requires Swept(a, x, inA) && Swept(b, y, inB)
    ensures CountWhere(CodesOf(a.ranges), CoveredBy(a, b, true)) == |Coverage(a) * Coverage(b)|
    ensures CountWhere(CodesOf(a.ranges), CoveredBy(a, b, false))
            + CountWhere(CodesOf(b.ranges), CoveredBy(b, a, false))
            == |(Coverage(a) - Coverage(b)) + (Coverage(b) - Coverage(a))|
  {
    hide CountWhere, Coverage, CodesOf, CoveredBy, Recorded, Tallied, Halts;
    CountsCoverage(a, b, true);
    CountsCoverage(a, b, false);
    CountsCoverage(b, a, false);
    assert (Coverage(a) - Coverage(b)) !! (Coverage(b) - Coverage(a));
  }

  lemma {:induction false} SameCodesSameList(x: seq<Change>, y: seq<Change>)
    requires InOrder(x) && InOrder(y)
    requires forall c: Code :: Reports(x, c) <==> Reports(y, c)
    ensures |x| == |y| && forall i :: 0 <= i < |x| ==> x[i].code == y[i].code
    decreases |x|
  {
    if x == [] || y == [] {
      if x != [] {
        assert Reports(x, x[0].code);
      }
      if y != [] {
        assert Reports(y, y[0].code);
      }
    } else {
      var n, m := |x| - 1, |y| - 1;
      assert Reports(x, x[n].code) && Reports(y, y[m].code);
      assert x[n].code == y[m].code;
      forall c: Code ensures Reports(x[..n], c) <==> Reports(y[..m], c) {
        ReportsFront(x, c);
        ReportsFront(y, c);
      }
      SameCodesSameList(x[..n], y[..m]);
    }
  }

  lemma ReportsFront(x: seq<Change>, c: Code)
    requires InOrder(x) && x != []
    ensures Reports(x[..|x| - 1], c) <==> Reports(x, c) && c != x[|x| - 1].code
  {
    if Reports(x[..|x| - 1], c) {
      var i :| 0 <= i < |x| - 1 && x[..|x| - 1][i].code == c;
      assert x[i].code == c;
    }
    if Reports(x, c) && c != x[|x| - 1].code {
      var i :| 0 <= i < |x| && x[i].code == c;
      assert x[..|x| - 1][i].code == c;
    }
  }

  /** Comparing the other way round lists the same codes, with what appeared and what vanished exchanged. */
  lemma SwappingDumps(ab: seq<Change>, ba: seq<Change>, a: Dump, b: Dump)
    requires Exact(ab, a, b, 0x1_0000) && Exact(ba, b, a, 0x1_0000)
    ensures |ab| == |ba|
    ensures forall i :: 0 <= i < |ab| ==>
              ba[i].code == ab[i].code && ba[i].difference.kind == ab[i].difference.kind.Reversed()
  {
    hide EntryChange;
    forall c: Code ensures Reports(ab, c) <==> Reports(ba, c) {
      ChangeReversed(a.At(c), b.At(c));
      ReportsExactly(ab, a, b, c);
      ReportsExactly(ba, b, a, c);
    }
    SameCodesSameList(ab, ba);
    forall i | 0 <= i < |ab| ensures ba[i].difference.kind == ab[i].difference.kind.Reversed() {
      ChangeReversed(a.At(ab[i].code), b.At(ab[i].code));
    }
  }

  lemma ReportsExactly(out: seq<Change>, a: Dump, b: Dump, c: Code)
    requires Exact(out, a, b, 0x1_0000)
    ensures Reports(out, c) <==> Reportable(a, b, c).Some?
  {
    hide Reportable;
  }
}
