// Comparing the FTP profile lists of two snapshots: blobs cancel as multisets, what is left pairs by unique name, and
// the order of what both hold is compared.

module FtpDiff {
  import opened Wrappers
  import opened Sequences

  datatype ProfileEntry = ProfileEntry(slot: nat, hex: string)

  /** One row of a decoded profile. A secret one shows a mask, never its value. */
  datatype ProfileField = ProfileField(caption: string, value: string, secret: Option<string>) {
    function Clear(): string {
      if secret.Some? then secret.value else value
    }
  }

  datatype Profile = Profile(name: string, fields: seq<ProfileField>)

  /** What a blob decodes to depends on the blob alone. */
  type Decoder = string -> Option<Profile>

  datatype Prof = Prof(entry: ProfileEntry, name: Option<string>, fields: seq<ProfileField>)

  datatype Store = Store(profiles: seq<ProfileEntry>, activeSlot: Option<nat>)

  datatype FtpState = NotOnModel | ReadFailed(tag: string, detail: string) | Stored(store: Store)

  datatype Label = Named(name: string) | Undecodable(slot: nat)

  datatype Difference = Changed | OnlyInA | OnlyInB

  datatype Item =
    | Section
    | Order
    | Active
    | Whole(profile: Label)
    | FieldRow(profile: Label, caption: string, secret: bool)
    | HiddenPart(profile: Label)

  datatype Shown =
    | State(state: FtpState)
    | Labels(labels: seq<Label>)
    | ActiveLabel(active: Option<Label>)
    | Text(text: string)
    | ByteCount(n: nat)

  datatype Change = Change(item: Item, difference: Difference, a: Option<Shown>, b: Option<Shown>)

  function ProfOf(e: ProfileEntry, dec: Decoder): Prof {
    match dec(e.hex)
    case Some(p) => Prof(e, Some(p.name), p.fields)
    case None => Prof(e, None, [])
  }

  function Profs(list: seq<ProfileEntry>, dec: Decoder): (r: seq<Prof>)
    ensures |r| == |list| && forall i :: 0 <= i < |list| ==> r[i] == ProfOf(list[i], dec)
  {
    seq(|list|, i requires 0 <= i < |list| => ProfOf(list[i], dec))
  }

  function LabelOf(p: Prof): Label {
    if p.name.Some? then Named(p.name.value) else Undecodable(p.entry.slot)
  }

  function Hexes(ps: seq<Prof>): (r: seq<string>)
    ensures |r| == |ps| && forall i :: 0 <= i < |ps| ==> r[i] == ps[i].entry.hex
  {
    seq(|ps|, i requires 0 <= i < |ps| => ps[i].entry.hex)
  }

  /** The first profile with these bytes. */
  function FindHex(ps: seq<Prof>, hex: string): (r: Option<nat>)
    ensures r.Some? ==> r.value < |ps| && ps[r.value].entry.hex == hex
    ensures r.None? ==> forall i :: 0 <= i < |ps| ==> ps[i].entry.hex != hex
  {
    if ps == [] then None
    else if ps[0].entry.hex == hex then Some(0)
    else
      var rest := FindHex(ps[1..], hex);
      if rest.Some? then Some(rest.value + 1) else None
  }

  // ----- Cancellation -----

  /** Each of `xs` in turn cancels the first of what is left of `ys` with the same bytes. */
  function Cancel(xs: seq<Prof>, ys: seq<Prof>): (seq<Prof>, seq<Prof>) {
    if xs == [] then ([], ys)
    else
      var n := |xs| - 1;
      var (left, right) := Cancel(xs[..n], ys);
      var at := FindHex(right, xs[n].entry.hex);
      if at.Some? then (left, RemoveAt(right, at.value)) else (left + [xs[n]], right)
  }

  method CancelOut(xs: seq<Prof>, ys: seq<Prof>) returns (left: seq<Prof>, right: seq<Prof>)
    ensures (left, right) == Cancel(xs, ys)
  {
    left, right := [], ys;
    for i := 0 to |xs|
      invariant (left, right) == Cancel(xs[..i], ys)
    {
      assert xs[..i + 1][..i] == xs[..i];
      var at := FindHex(right, xs[i].entry.hex);
      if at.Some? {
        right := RemoveAt(right, at.value);
      } else {
        left := left + [xs[i]];
      }
    }
    assert xs[..|xs|] == xs;
  }

  lemma HexesSnoc(ps: seq<Prof>, p: Prof)
    ensures Hexes(ps + [p]) == Hexes(ps) + [p.entry.hex]
  {
  }

  lemma HexesRemove(ps: seq<Prof>, i: nat)
    requires i < |ps|
    ensures multiset(Hexes(RemoveAt(ps, i))) == multiset(Hexes(ps)) - multiset{ps[i].entry.hex}
  {
    RemoveAtMultiset(Hexes(ps), i);
    assert Hexes(RemoveAt(ps, i)) == RemoveAt(Hexes(ps), i);
  }

  function Copies(ps: seq<Prof>, hex: string): nat {
    multiset(Hexes(ps))[hex]
  }

  function Minus(a: nat, b: nat): nat {
    if a > b then a - b else 0
  }

  lemma CancelSnoc(xs: seq<Prof>, x: Prof, ys: seq<Prof>)
    ensures var (left, right) := Cancel(xs, ys); var at := FindHex(right, x.entry.hex);
            Cancel(xs + [x], ys) == if at.Some? then (left, RemoveAt(right, at.value)) else (left + [x], right)
  {
    hide FindHex;
    assert (xs + [x])[..|xs|] == xs;
  }

  ghost predicate CountsCancel(xs: seq<Prof>, ys: seq<Prof>, hex: string) {
    && Copies(Cancel(xs, ys).0, hex) == Minus(Copies(xs, hex), Copies(ys, hex))
    && Copies(Cancel(xs, ys).1, hex) == Minus(Copies(ys, hex), Copies(xs, hex))
  }

  lemma {:induction false} CancelCounts(xs: seq<Prof>, ys: seq<Prof>, hex: string)
    ensures CountsCancel(xs, ys, hex)
  {
    if xs == [] {
      assert Hexes(xs) == [];
    } else {
      hide CountsCancel;
      var n := |xs| - 1;
      CancelCounts(xs[..n], ys, hex);
      CancelCountsSnoc(xs[..n], xs[n], ys, hex);
      assert xs == xs[..n] + [xs[n]];
    }
  }

  lemma CancelCountsSnoc(xs: seq<Prof>, x: Prof, ys: seq<Prof>, hex: string)
    requires CountsCancel(xs, ys, hex)
    ensures CountsCancel(xs + [x], ys, hex)
  {
    hide Copies, FindHex, Cancel;
    CancelSnoc(xs, x, ys);
    CancelCountsStep(xs, x, Cancel(xs, ys).0, Cancel(xs, ys).1, hex);
  }

  lemma CancelCountsStep(xs: seq<Prof>, x: Prof, left: seq<Prof>, right: seq<Prof>, hex: string)
    ensures Copies(xs + [x], hex) == Copies(xs, hex) + if x.entry.hex == hex then 1 else 0
    ensures Copies(left + [x], hex) == Copies(left, hex) + if x.entry.hex == hex then 1 else 0
    ensures var at := FindHex(right, x.entry.hex);
            && (at.Some? ==>
                  Copies(RemoveAt(right, at.value), hex) == Copies(right, hex) - if x.entry.hex == hex then 1 else 0)
            && (at.None? && x.entry.hex == hex ==> Copies(right, hex) == 0)
  {
    HexesSnoc(xs, x);
    HexesSnoc(left, x);
    var at := FindHex(right, x.entry.hex);
    if at.Some? {
      HexesRemove(right, at.value);
      assert Hexes(right)[at.value] == x.entry.hex;
      assert x.entry.hex in multiset(Hexes(right));
    } else {
      assert forall i :: 0 <= i < |right| ==> Hexes(right)[i] != x.entry.hex;
      assert x.entry.hex !in multiset(Hexes(right));
    }
  }

  /** What is left over is the two multiset differences. */
  lemma {:induction false} CancelLeavesDifferences(xs: seq<Prof>, ys: seq<Prof>)
    ensures var (left, right) := Cancel(xs, ys);
            && multiset(Hexes(left)) == multiset(Hexes(xs)) - multiset(Hexes(ys))
            && multiset(Hexes(right)) == multiset(Hexes(ys)) - multiset(Hexes(xs))
  {
    hide Cancel, Hexes;
    var (left, right) := Cancel(xs, ys);
    forall hex
      ensures multiset(Hexes(left))[hex] == (multiset(Hexes(xs)) - multiset(Hexes(ys)))[hex]
      ensures multiset(Hexes(right))[hex] == (multiset(Hexes(ys)) - multiset(Hexes(xs)))[hex]
    {
      CancelCounts(xs, ys, hex);
      assert CountsCancel(xs, ys, hex);
    }
  }

  /** The profiles of `ps` the other side holds too, in this side's order. */
  function Common(ps: seq<Prof>, rest: seq<Prof>): seq<Prof> {
    Cancel(ps, rest).0
  }

  /** Both order lists hold the multiset intersection of the two lists. */
  lemma {:induction false} CommonIsTheIntersection(xs: seq<Prof>, ys: seq<Prof>)
    ensures var (left, right) := Cancel(xs, ys);
            && multiset(Hexes(Common(xs, left))) == multiset(Hexes(xs)) * multiset(Hexes(ys))
            && multiset(Hexes(Common(ys, right))) == multiset(Hexes(xs)) * multiset(Hexes(ys))
  {
    hide Cancel, Hexes;
    var (left, right) := Cancel(xs, ys);
    CancelLeavesDifferences(xs, ys);
    CancelLeavesDifferences(xs, left);
    CancelLeavesDifferences(ys, right);
  }

  lemma {:induction false} CancelNothing(xs: seq<Prof>)
    ensures Cancel(xs, []) == (xs, [])
  {
    if xs != [] {
      var n := |xs| - 1;
      CancelNothing(xs[..n]);
      assert xs == xs[..n] + [xs[n]];
    }
  }

  ghost predicate NoRepeats(hexes: seq<string>) {
    forall i, j :: 0 <= i < j < |hexes| ==> hexes[i] != hexes[j]
  }

  function Keep(hexes: seq<string>, other: seq<string>): seq<string> {
    if hexes == [] then []
    else Keep(hexes[..|hexes| - 1], other) + if hexes[|hexes| - 1] in other then [hexes[|hexes| - 1]] else []
  }

  /** The copies of each blob after the first `first[h]` of them, in order. */
  function Later(hexes: seq<string>, first: multiset<string>): seq<string> {
    if hexes == [] then []
    else
      var front, h := hexes[..|hexes| - 1], hexes[|hexes| - 1];
      Later(front, first) + if multiset(front)[h] >= first[h] then [h] else []
  }

  lemma LaterSnoc(hexes: seq<string>, h: string, first: multiset<string>)
    ensures Later(hexes + [h], first) == Later(hexes, first) + if multiset(hexes)[h] >= first[h] then [h] else []
  {
    assert (hexes + [h])[..|hexes|] == hexes;
  }

  /** What cancelling leaves over of a side is, of each blob, the copies after as many as the other side has. */
  lemma {:induction false} CancelLeavesLater(xs: seq<Prof>, ys: seq<Prof>)
    ensures Hexes(Cancel(xs, ys).0) == Later(Hexes(xs), multiset(Hexes(ys)))
  {
    if xs == [] {
      assert Hexes(xs) == [];
    } else {
      hide Cancel, FindHex, Hexes, Later;
      var n := |xs| - 1;
      var front, x := xs[..n], xs[n];
      CancelLeavesLater(front, ys);
      assert xs == front + [x];
      CancelSnoc(front, x, ys);
      HexesSnoc(front, x);
      HexesSnoc(Cancel(front, ys).0, x);
      FoundWhileLeft(front, ys, x.entry.hex);
      LaterSnoc(Hexes(front), x.entry.hex, multiset(Hexes(ys)));
    }
  }

  lemma {:induction false} FoundWhileLeft(xs: seq<Prof>, ys: seq<Prof>, hex: string)
    ensures FindHex(Cancel(xs, ys).1, hex).Some? <==> multiset(Hexes(xs))[hex] < multiset(Hexes(ys))[hex]
  {
    hide Cancel;
    var right := Cancel(xs, ys).1;
    CancelCounts(xs, ys, hex);
    assert CountsCancel(xs, ys, hex);
    var at := FindHex(right, hex);
    if at.Some? {
      assert Hexes(right)[at.value] == hex;
      assert hex in multiset(Hexes(right));
    } else {
      assert forall i :: 0 <= i < |right| ==> Hexes(right)[i] != hex;
      assert hex !in multiset(Hexes(right));
    }
  }

  /** For any two lists: each order list drops, of each blob, as many first copies as that side has too many, and the
      orders are reported to differ exactly when what remains does. */
  lemma OrderReportedExactlyWhen(xs: seq<Prof>, ys: seq<Prof>)
    ensures var (left, right) := Cancel(xs, ys);
            var hx, hy := Hexes(xs), Hexes(ys);
            var tooManyX, tooManyY := multiset(hx) - multiset(hy), multiset(hy) - multiset(hx);
            && Hexes(Common(xs, left)) == Later(hx, tooManyX)
            && Hexes(Common(ys, right)) == Later(hy, tooManyY)
            && (OrderChange(Common(xs, left), Common(ys, right)) == [] <==> Later(hx, tooManyX) == Later(hy, tooManyY))
  {
    hide Cancel, Hexes, Later;
    var (left, right) := Cancel(xs, ys);
    CancelLeavesDifferences(xs, ys);
    CancelLeavesLater(xs, left);
    CancelLeavesLater(ys, right);
  }

  /** Where a side repeats nothing, its order list is that side without what the other lacks. */
  lemma CommonKeepsOrder(xs: seq<Prof>, ys: seq<Prof>)
    requires NoRepeats(Hexes(xs))
    ensures Hexes(Common(xs, Cancel(xs, ys).0)) == Keep(Hexes(xs), Hexes(ys))
  {
    hide Cancel, Hexes, Common, OrderChange;
    OrderReportedExactlyWhen(xs, ys);
    LaterOfDistinct(Hexes(xs), Hexes(xs), Hexes(ys));
  }

  lemma {:induction false} LaterOfDistinct(hexes: seq<string>, all: seq<string>, other: seq<string>)
    requires NoRepeats(all) && hexes <= all
    ensures Later(hexes, multiset(all) - multiset(other)) == Keep(hexes, other)
  {
    if hexes != [] {
      var n := |hexes| - 1;
      var h := hexes[n];
      LaterOfDistinct(hexes[..n], all, other);
      DistinctCount(all);
      assert h == all[n] && h in all;
      assert h !in hexes[..n];
      assert h in other <==> h in multiset(other);
    }
  }

  /**
   * With repeats the two order lists can differ although one list only had a copy appended: cancelling leaves the
   * last copy over, and what is common drops the first.
   */
  lemma AppendedCopyReadsAsReordered(p: Prof, q: Prof)
    requires p.entry.hex != q.entry.hex
    ensures var (left, right) := Cancel([p, q, p], [p, q]);
            && left == [p] && right == []
            && Common([p, q, p], left) == [q, p]
            && Common([p, q], right) == [p, q]
  {
    hide Cancel;
    CancelsTheFirstCopy(p, q);
    DropsTheFirstCopy(p, q);
    CancelNothing([p, q]);
  }

  lemma CancelsTheFirstCopy(p: Prof, q: Prof)
    requires p.entry.hex != q.entry.hex
    ensures Cancel([p, q, p], [p, q]) == ([p], [])
  {
    hide Cancel, FindHex;
    FindFirst(p, [q]);
    FindFirst(q, []);
    FindNone(p);
    assert [p] + [q] == [p, q] && [p, q] + [p] == [p, q, p] && [q] + [] == [q] && [] + [p] == [p];
    CancelEmpty([p, q]);
    CancelSnoc([], p, [p, q]);
    CancelSnoc([p], q, [p, q]);
    CancelSnoc([p, q], p, [p, q]);
  }

  lemma DropsTheFirstCopy(p: Prof, q: Prof)
    requires p.entry.hex != q.entry.hex
    ensures Cancel([p, q, p], [p]).0 == [q, p]
  {
    hide Cancel, FindHex;
    FindFirst(p, []);
    FindNone(q);
    FindNone(p);
    assert [p] + [] == [p] && [] + [p] == [p] && [p] + [q] == [p, q] && [p, q] + [p] == [p, q, p];
    assert [] + [q] == [q] && [q] + [p] == [q, p];
    CancelEmpty([p]);
    CancelSnoc([], p, [p]);
    CancelSnoc([p], q, [p]);
    CancelSnoc([p, q], p, [p]);
  }

  lemma CancelEmpty(ys: seq<Prof>)
    ensures Cancel([], ys) == ([], ys)
  {
  }

  lemma FindFirst(p: Prof, rest: seq<Prof>)
    ensures FindHex([p] + rest, p.entry.hex) == Some(0)
    ensures RemoveAt([p] + rest, 0) == rest
  {
    assert ([p] + rest)[0] == p;
  }

  lemma FindNone(p: Prof)
    ensures FindHex([], p.entry.hex) == None
  {
  }

  lemma {:induction false} DistinctCount(hexes: seq<string>)
    requires NoRepeats(hexes)
    ensures forall h :: h in hexes ==> multiset(hexes)[h] == 1
  {
    if hexes != [] {
      var n := |hexes| - 1;
      DistinctCount(hexes[..n]);
      assert hexes == hexes[..n] + [hexes[n]];
      assert hexes[n] !in hexes[..n];
    }
  }

  // ----- Pairing by name -----

  function CountNamed(ps: seq<Prof>, name: string): nat {
    if ps == [] then 0
    else CountNamed(ps[..|ps| - 1], name) + if ps[|ps| - 1].name == Some(name) then 1 else 0
  }

  function FindName(ps: seq<Prof>, name: string): (r: Option<nat>)
    ensures r.Some? ==> r.value < |ps| && ps[r.value].name == Some(name)
    ensures r.None? ==> forall i :: 0 <= i < |ps| ==> ps[i].name != Some(name)
  {
    if ps == [] then None
    else if ps[0].name == Some(name) then Some(0)
    else
      var rest := FindName(ps[1..], name);
      if rest.Some? then Some(rest.value + 1) else None
  }

  /** Whom `x` of `left` is compared with: its namesake, if neither side has two of that name. */
  function Partner(left: seq<Prof>, right: seq<Prof>, x: Prof): (r: Option<nat>)
    ensures r.Some? ==> r.value < |right| && x.name.Some? && right[r.value].name == x.name
  {
    if x.name.Some? && CountNamed(left, x.name.value) == 1 && CountNamed(right, x.name.value) == 1
    then FindName(right, x.name.value)
    else None
  }

  lemma {:induction false} NamedAt(ps: seq<Prof>, i: nat, name: string)
    requires i < |ps| && ps[i].name == Some(name)
    ensures CountNamed(ps, name) >= 1
  {
    if i < |ps| - 1 {
      NamedAt(ps[..|ps| - 1], i, name);
    }
  }

  lemma {:induction false} NamedTwice(ps: seq<Prof>, i: nat, j: nat, name: string)
    requires i < j < |ps| && ps[i].name == ps[j].name == Some(name)
    ensures CountNamed(ps, name) >= 2
  {
    if j < |ps| - 1 {
      NamedTwice(ps[..|ps| - 1], i, j, name);
    } else {
      NamedAt(ps[..|ps| - 1], i, name);
    }
  }

  /** Pairing is a matching: no two profiles of one side have the same partner. */
  lemma PartnersAreDistinct(left: seq<Prof>, right: seq<Prof>, i: nat, j: nat)
    requires i < |left| && j < |left| && i != j
    requires Partner(left, right, left[i]).Some? && Partner(left, right, left[j]).Some?
    ensures Partner(left, right, left[i]) != Partner(left, right, left[j])
  {
    if left[i].name == left[j].name {
      NamedTwice(left, if i < j then i else j, if i < j then j else i, left[i].name.value);
    }
  }

  /** Profiles with the same bytes decode alike. */
  ghost predicate Decoded(ps: seq<Prof>, dec: Decoder) {
    forall i :: 0 <= i < |ps| ==> ps[i] == ProfOf(ps[i].entry, dec)
  }

  function WithoutHex(ps: seq<Prof>, hex: string): seq<Prof> {
    if ps == [] then []
    else WithoutHex(ps[..|ps| - 1], hex) + if ps[|ps| - 1].entry.hex != hex then [ps[|ps| - 1]] else []
  }

  /** What is unpaired of `right` once the first `k` of `left` have looked for a partner. */
  function Unpaired(left: seq<Prof>, right: seq<Prof>, k: nat): seq<Prof>
    requires k <= |left|
  {
    if k == 0 then right
    else
      var partner := Partner(left, right, left[k - 1]);
      var before := Unpaired(left, right, k - 1);
      if partner.Some? then WithoutHex(before, right[partner.value].entry.hex) else before
  }

  function Pairs(left: seq<Prof>, right: seq<Prof>, k: nat): nat
    requires k <= |left|
  {
    if k == 0 then 0 else Pairs(left, right, k - 1) + if Partner(left, right, left[k - 1]).Some? then 1 else 0
  }

  /** Removing a blob takes away its copies and leaves every other profile. */
  ghost predicate TakesAway(ps: seq<Prof>, hex: string, other: string) {
    && Copies(WithoutHex(ps, hex), other) == (if other == hex then 0 else Copies(ps, other))
    && |WithoutHex(ps, hex)| == |ps| - Copies(ps, hex)
  }

  lemma {:induction false} WithoutHexTakesAway(ps: seq<Prof>, hex: string, other: string)
    ensures TakesAway(ps, hex, other)
  {
    if ps == [] {
      assert Hexes(ps) == [];
    } else {
      hide TakesAway;
      var n := |ps| - 1;
      WithoutHexTakesAway(ps[..n], hex, other);
      TakesAwaySnoc(ps[..n], ps[n], hex, other);
      assert ps == ps[..n] + [ps[n]];
    }
  }

  lemma TakesAwaySnoc(ps: seq<Prof>, p: Prof, hex: string, other: string)
    requires TakesAway(ps, hex, other)
    ensures TakesAway(ps + [p], hex, other)
  {
    assert (ps + [p])[..|ps|] == ps;
    HexesSnoc(ps, p);
    HexesSnoc(WithoutHex(ps, hex), p);
    assert p.entry.hex == hex ==> WithoutHex(ps, hex) + [] == WithoutHex(ps, hex);
  }

  /** A blob whose name is unique is held once. */
  lemma {:induction false} UniqueNameHeldOnce(ps: seq<Prof>, dec: Decoder, at: nat)
    requires Decoded(ps, dec) && at < |ps| && ps[at].name.Some? && CountNamed(ps, ps[at].name.value) == 1
    ensures Copies(ps, ps[at].entry.hex) == 1
    ensures forall i :: 0 <= i < |ps| && i != at ==> ps[i].entry.hex != ps[at].entry.hex
  {
    forall i | 0 <= i < |ps| && i != at
      ensures ps[i].entry.hex != ps[at].entry.hex
    {
      if ps[i].name == ps[at].name {
        NamedTwice(ps, if i < at then i else at, if i < at then at else i, ps[at].name.value);
      }
    }
    HeldOnce(ps, at);
  }

  lemma HeldOnce(ps: seq<Prof>, at: nat)
    requires at < |ps|
    requires forall i :: 0 <= i < |ps| && i != at ==> ps[i].entry.hex != ps[at].entry.hex
    ensures Copies(ps, ps[at].entry.hex) == 1
  {
    var hs, h := Hexes(ps), ps[at].entry.hex;
    assert hs == hs[..at] + [h] + hs[at + 1..];
    assert forall i :: 0 <= i < |hs| && i != at ==> hs[i] != h;
    assert h !in hs[..at] && h !in hs[at + 1..];
  }

  /** Whether one of the first `k` of `left` is paired with `right[j]`. */
  predicate Taken(left: seq<Prof>, right: seq<Prof>, k: nat, j: nat)
    requires k <= |left|
  {
    k > 0 && (Partner(left, right, left[k - 1]) == Some(j) || Taken(left, right, k - 1, j))
  }

  lemma {:induction false} TakenBefore(left: seq<Prof>, right: seq<Prof>, k: nat, m: nat)
    requires k <= m < |left| && Partner(left, right, left[m]).Some?
    ensures !Taken(left, right, k, Partner(left, right, left[m]).value)
  {
    if k > 0 {
      if Partner(left, right, left[k - 1]).Some? {
        PartnersAreDistinct(left, right, k - 1, m);
      }
      TakenBefore(left, right, k - 1, m);
    }
  }

  /** What stays unpaired of the right side is what is no one's partner. */
  lemma {:induction false} UnpairedIsTheRest(left: seq<Prof>, right: seq<Prof>, dec: Decoder, k: nat, j: nat)
    requires Decoded(right, dec) && k <= |left| && j < |right|
    ensures Copies(Unpaired(left, right, k), right[j].entry.hex) ==
            if Taken(left, right, k, j) then 0 else Copies(right, right[j].entry.hex)
  {
    if k > 0 {
      UnpairedIsTheRest(left, right, dec, k - 1, j);
      var partner := Partner(left, right, left[k - 1]);
      if partner.Some? {
        WithoutHexTakesAway(Unpaired(left, right, k - 1), right[partner.value].entry.hex, right[j].entry.hex);
        UniqueNameHeldOnce(right, dec, partner.value);
      }
    }
  }

  /** Every pair takes one profile off each side. */
  lemma {:induction false} PairsAndUnpaired(left: seq<Prof>, right: seq<Prof>, dec: Decoder, k: nat)
    requires Decoded(right, dec) && k <= |left|
    ensures Pairs(left, right, k) + |Unpaired(left, right, k)| == |right|
  {
    if k > 0 {
      PairsAndUnpaired(left, right, dec, k - 1);
      var partner := Partner(left, right, left[k - 1]);
      if partner.Some? {
        var hex := right[partner.value].entry.hex;
        UnpairedIsTheRest(left, right, dec, k - 1, partner.value);
        TakenBefore(left, right, k - 1, k - 1);
        UniqueNameHeldOnce(right, dec, partner.value);
        WithoutHexTakesAway(Unpaired(left, right, k - 1), hex, hex);
      }
    }
  }

  // ----- The report -----

  function Bytes(p: Prof): Option<Shown> {
    Some(ByteCount(|p.entry.hex| / 2))
  }

  function FieldRowChange(a: Prof, x: ProfileField, y: ProfileField): seq<Change> {
    if x.Clear() == y.Clear() then []
    else
      var secret := x.secret.Some? || y.secret.Some?;
      [Change(FieldRow(LabelOf(a), x.caption, secret), Changed,
              if secret then None else Some(Text(x.value)), if secret then None else Some(Text(y.value)))]
  }

  /** The rows that differ among the first `k` both profiles have. */
  function RowChanges(a: Prof, b: Prof, k: nat): seq<Change>
    requires k <= |a.fields| && k <= |b.fields|
  {
    if k == 0 then [] else RowChanges(a, b, k - 1) + FieldRowChange(a, a.fields[k - 1], b.fields[k - 1])
  }

  function Rows(a: Prof, b: Prof): (n: nat)
    ensures n <= |a.fields| && n <= |b.fields|
  {
    if |a.fields| < |b.fields| then |a.fields| else |b.fields|
  }

  /** Two profiles of one name: the rows that differ, or, when none does, that something not shown differs. */
  function PairChanges(a: Prof, b: Prof): seq<Change> {
    var rows := RowChanges(a, b, Rows(a, b));
    if rows == [] && a.entry.hex != b.entry.hex then [Change(HiddenPart(LabelOf(a)), Changed, Bytes(a), Bytes(b))]
        else rows
  }

  method FieldChanges(a: Prof, b: Prof, out: seq<Change>) returns (now: seq<Change>)
    ensures now == out + PairChanges(a, b)
  {
    now := out;
    for k := 0 to Rows(a, b)
      invariant now == out + RowChanges(a, b, k)
    {
      var x, y := a.fields[k], b.fields[k];
      if x.Clear() == y.Clear() {
        continue;
      }
      var secret := x.secret.Some? || y.secret.Some?;
      var va, vb := if secret then None else Some(Text(x.value)), if secret then None else Some(Text(y.value));
      now := now + [Change(FieldRow(LabelOf(a), x.caption, secret), Changed, va, vb)];
    }
    if |now| == |out| && a.entry.hex != b.entry.hex {
      now := now + [Change(HiddenPart(LabelOf(a)), Changed, Bytes(a), Bytes(b))];
    }
  }

  function OrderChange(ca: seq<Prof>, cb: seq<Prof>): seq<Change> {
    if Hexes(ca) == Hexes(cb) then []
    else [Change(Order, Changed, Some(Labels(LabelsOf(ca))), Some(Labels(LabelsOf(cb))))]
  }

  function LabelsOf(ps: seq<Prof>): seq<Label> {
    seq(|ps|, i requires 0 <= i < |ps| => LabelOf(ps[i]))
  }

  function LeftChange(left: seq<Prof>, right: seq<Prof>, x: Prof): seq<Change> {
    var partner := Partner(left, right, x);
    if partner.Some? then PairChanges(x, right[partner.value])
    else [Change(Whole(LabelOf(x)), OnlyInA, Bytes(x), None)]
  }

  function LeftChanges(left: seq<Prof>, right: seq<Prof>, k: nat): seq<Change>
    requires k <= |left|
  {
    if k == 0 then [] else LeftChanges(left, right, k - 1) + LeftChange(left, right, left[k - 1])
  }

  function RightChanges(ps: seq<Prof>): (r: seq<Change>)
    ensures |r| == |ps|
  {
    seq(|ps|, i requires 0 <= i < |ps| => Change(Whole(LabelOf(ps[i])), OnlyInB, None, Bytes(ps[i])))
  }

  /** Everything the report says about the two lists, the active profile aside. */
  function ListChanges(pa: seq<Prof>, pb: seq<Prof>): seq<Change> {
    var (left, right) := Cancel(pa, pb);
    OrderChange(Common(pa, left), Common(pb, right))
    + LeftChanges(left, right, |left|)
    + RightChanges(Unpaired(left, right, |left|))
  }

  function ActiveOf(s: Store, ps: seq<Prof>): Option<Label> {
    if s.activeSlot.Some? && s.activeSlot.value < |ps| then Some(LabelOf(ps[s.activeSlot.value])) else None
  }

  /** Left unsaid when some profile could only be told by its slot. */
  function ActiveChange(a: Store, b: Store, pa: seq<Prof>, pb: seq<Prof>): seq<Change> {
    if a.activeSlot != b.activeSlot && (forall i :: 0 <= i < |pa + pb| ==> (pa + pb)[i].name.Some?)
        && ActiveOf(a, pa) != ActiveOf(b, pb)
    then [Change(Active, Changed, Some(ActiveLabel(ActiveOf(a, pa))), Some(ActiveLabel(ActiveOf(b, pb))))]
    else []
  }

  /** Report each of `left` against its partner, and what no one is paired with. */
  method LeftPass(left: seq<Prof>, right: seq<Prof>) returns (out: seq<Change>, unpaired: seq<Prof>)
    ensures out == LeftChanges(left, right, |left|) && unpaired == Unpaired(left, right, |left|)
  {
    hide Partner, PairChanges, WithoutHex;
    out, unpaired := [], right;
    for k := 0 to |left|
      invariant unpaired == Unpaired(left, right, k) && out == LeftChanges(left, right, k)
    {
      var partner := PartnerOf(left, right, left[k]);
      if partner.Some? {
        var y := right[partner.value];
        unpaired := WithoutHex(unpaired, y.entry.hex);
        out := FieldChanges(left[k], y, out);
      } else {
        out := out + [Change(Whole(LabelOf(left[k])), OnlyInA, Bytes(left[k]), None)];
      }
    }
  }

  method PartnerOf(left: seq<Prof>, right: seq<Prof>, x: Prof) returns (r: Option<nat>)
    ensures r == Partner(left, right, x) && (r.Some? ==> r.value < |right|)
  {
    r := Partner(left, right, x);
  }

  method RightPass(unpaired: seq<Prof>) returns (out: seq<Change>)
    ensures out == RightChanges(unpaired)
  {
    out := [];
    for k := 0 to |unpaired|
      invariant out == RightChanges(unpaired)[..k]
    {
      out := out + [Change(Whole(LabelOf(unpaired[k])), OnlyInB, None, Bytes(unpaired[k]))];
    }
  }

  // ----- What the report means -----

  /** A profile left over on one side and one left over on the other never have the same bytes. */
  lemma LeftoversDiffer(xs: seq<Prof>, ys: seq<Prof>, i: nat, j: nat)
    requires i < |Cancel(xs, ys).0| && j < |Cancel(xs, ys).1|
    ensures Cancel(xs, ys).0[i].entry.hex != Cancel(xs, ys).1[j].entry.hex
  {
    hide Cancel;
    var (left, right) := Cancel(xs, ys);
    CancelLeavesDifferences(xs, ys);
    assert Hexes(left)[i] in multiset(Hexes(left)) && Hexes(right)[j] in multiset(Hexes(right));
  }

  lemma {:induction false} EveryLeftoverIsReported(pa: seq<Prof>, pb: seq<Prof>, k: nat)
    requires k <= |Cancel(pa, pb).0|
    ensures |LeftChanges(Cancel(pa, pb).0, Cancel(pa, pb).1, k)| >= k
  {
    hide Cancel, PairChanges, Partner;
    if k > 0 {
      EveryLeftoverIsReported(pa, pb, k - 1);
      LeftoverIsReported(pa, pb, k - 1);
    }
  }

  lemma LeftoverIsReported(pa: seq<Prof>, pb: seq<Prof>, i: nat)
    requires i < |Cancel(pa, pb).0|
    ensures |LeftChange(Cancel(pa, pb).0, Cancel(pa, pb).1, Cancel(pa, pb).0[i])| >= 1
  {
    hide Cancel;
    var (left, right) := Cancel(pa, pb);
    var partner := Partner(left, right, left[i]);
    if partner.Some? {
      LeftoversDiffer(pa, pb, i, partner.value);
    }
  }

  function CountOf(cs: seq<Change>, d: Difference): nat {
    if cs == [] then 0 else CountOf(cs[..|cs| - 1], d) + if cs[|cs| - 1].difference == d then 1 else 0
  }

  lemma {:induction false} CountOfBoth(x: seq<Change>, y: seq<Change>, d: Difference)
    ensures CountOf(x + y, d) == CountOf(x, d) + CountOf(y, d)
  {
    if y == [] {
      assert x + y == x;
    } else {
      var n := |y| - 1;
      assert (x + y)[..|x + y| - 1] == x + y[..n];
      CountOfBoth(x, y[..n], d);
    }
  }

  lemma {:induction false} CountOfUniform(cs: seq<Change>, d: Difference, of: Difference)
    requires forall c <- cs :: c.difference == of
    ensures CountOf(cs, d) == if d == of then |cs| else 0
  {
    if cs != [] {
      CountOfUniform(cs[..|cs| - 1], d, of);
    }
  }

  lemma {:induction false} PairChangesAreChanged(a: Prof, b: Prof, k: nat)
    requires k <= |a.fields| && k <= |b.fields|
    ensures forall c <- RowChanges(a, b, k) :: c.difference == Changed
  {
    if k > 0 {
      PairChangesAreChanged(a, b, k - 1);
    }
  }

  lemma LeftChangeCounts(left: seq<Prof>, right: seq<Prof>, x: Prof)
    ensures CountOf(LeftChange(left, right, x), OnlyInA) == if Partner(left, right, x).Some? then 0 else 1
    ensures CountOf(LeftChange(left, right, x), OnlyInB) == 0
  {
    hide Partner, RowChanges, CountOf;
    var of := if Partner(left, right, x).Some? then Changed else OnlyInA;
    if Partner(left, right, x).Some? {
      var y := right[Partner(left, right, x).value];
      PairChangesAreChanged(x, y, Rows(x, y));
    }
    CountOfUniform(LeftChange(left, right, x), OnlyInA, of);
    CountOfUniform(LeftChange(left, right, x), OnlyInB, of);
  }

  lemma LeftChangesUnfold(left: seq<Prof>, right: seq<Prof>, k: nat)
    requires k <= |left|
    ensures k == 0 ==> LeftChanges(left, right, k) == [] && Pairs(left, right, k) == 0
    ensures k > 0 ==>
              && LeftChanges(left, right, k) == LeftChanges(left, right, k - 1) + LeftChange(left, right, left[k - 1])
              && Pairs(left, right, k) ==
                 Pairs(left, right, k - 1) + if Partner(left, right, left[k - 1]).Some? then 1 else 0
  {
    hide Partner, LeftChange;
  }

  /** Each of the first `k` leftovers of the first side is in a pair or has its own entry. */
  lemma {:induction false} LeftAccountedFor(left: seq<Prof>, right: seq<Prof>, k: nat)
    requires k <= |left|
    ensures Pairs(left, right, k) + CountOf(LeftChanges(left, right, k), OnlyInA) == k
    ensures CountOf(LeftChanges(left, right, k), OnlyInB) == 0
  {
    hide Partner, LeftChange, LeftChanges, Pairs, CountOf;
    LeftChangesUnfold(left, right, k);
    if k == 0 {
      CountOfUniform([], OnlyInA, Changed);
      CountOfUniform([], OnlyInB, Changed);
    } else {
      LeftAccountedFor(left, right, k - 1);
      var more := LeftChange(left, right, left[k - 1]);
      LeftChangeCounts(left, right, left[k - 1]);
      CountOfBoth(LeftChanges(left, right, k - 1), more, OnlyInA);
      CountOfBoth(LeftChanges(left, right, k - 1), more, OnlyInB);
    }
  }

  /** Every leftover of either side is in a pair or has its own entry, and no entry is for anything else. */
  lemma {:induction false} LeftoversAccountedFor(pa: seq<Prof>, pb: seq<Prof>, dec: Decoder)
    requires Decoded(pa, dec) && Decoded(pb, dec)
    ensures var (left, right) := Cancel(pa, pb);
            var pairs := Pairs(left, right, |left|);
            && pairs + CountOf(ListChanges(pa, pb), OnlyInA) == |left|
            && pairs + CountOf(ListChanges(pa, pb), OnlyInB) == |right|
  {
    hide Cancel, Pairs, LeftChanges, Unpaired, OrderChange, Common;
    var (left, right) := Cancel(pa, pb);
    var order := OrderChange(Common(pa, left), Common(pb, right));
    var unpaired := Unpaired(left, right, |left|);
    CancelledDecoded(pa, pb, dec);
    LeftAccountedFor(left, right, |left|);
    PairsAndUnpaired(left, right, dec, |left|);
    OrderIsAChange(Common(pa, left), Common(pb, right));
    forall d: Difference | d == OnlyInA || d == OnlyInB
      ensures CountOf(ListChanges(pa, pb), d) ==
              CountOf(LeftChanges(left, right, |left|), d) + if d == OnlyInB then |unpaired| else 0
    {
      CountOfUniform(order, d, Changed);
      CountOfUniform(RightChanges(unpaired), d, OnlyInB);
      CountOfBoth(order, LeftChanges(left, right, |left|), d);
      CountOfBoth(order + LeftChanges(left, right, |left|), RightChanges(unpaired), d);
    }
  }

  lemma OrderIsAChange(ca: seq<Prof>, cb: seq<Prof>)
    ensures forall c <- OrderChange(ca, cb) :: c.difference == Changed
  {
  }

  lemma CancelledDecoded(pa: seq<Prof>, pb: seq<Prof>, dec: Decoder)
    requires Decoded(pa, dec) && Decoded(pb, dec)
    ensures Decoded(Cancel(pa, pb).0, dec) && Decoded(Cancel(pa, pb).1, dec)
  {
    hide Cancel;
    CancelWithin(pa, pb);
    var (left, right) := Cancel(pa, pb);
    forall i | 0 <= i < |left|
      ensures left[i] == ProfOf(left[i].entry, dec)
    {
      assert left[i] in pa;
    }
    forall i | 0 <= i < |right|
      ensures right[i] == ProfOf(right[i].entry, dec)
    {
      assert right[i] in pb;
    }
  }

  /** Nothing is reported about the lists exactly when they hold the same blobs in the same order. */
  lemma NothingReportedExactlyWhen(pa: seq<Prof>, pb: seq<Prof>)
    ensures ListChanges(pa, pb) == [] <==> Hexes(pa) == Hexes(pb)
  {
    hide Cancel;
    var (left, right) := Cancel(pa, pb);
    CancelLeavesDifferences(pa, pb);
    if ListChanges(pa, pb) == [] {
      EveryLeftoverIsReported(pa, pb, |left|);
      CancelNothing(pa);
      CancelNothing(pb);
    } else if Hexes(pa) == Hexes(pb) {
      assert |multiset(Hexes(left))| == 0 && |multiset(Hexes(right))| == 0;
      CancelNothing(pa);
      CancelNothing(pb);
      assert false;
    }
  }

  /** The name of the active profile: none where no slot is active, or one past the list is. */
  function ActiveName(s: Store, ps: seq<Prof>): Option<string> {
    if s.activeSlot.Some? && s.activeSlot.value < |ps| then ps[s.activeSlot.value].name else None
  }

  /** The active profile is silent exactly when its slot is the same, or its name is, or some profile has no name to
      be told by: two profiles of one name are not told apart. */
  lemma ActiveSilentExactlyWhen(a: Store, b: Store, pa: seq<Prof>, pb: seq<Prof>)
    ensures ActiveChange(a, b, pa, pb) == [] <==>
            || a.activeSlot == b.activeSlot
            || (exists p :: (p in pa || p in pb) && p.name.None?)
            || ActiveName(a, pa) == ActiveName(b, pb)
  {
    var all := pa + pb;
    if p :| (p in pa || p in pb) && p.name.None? {
      assert p in all;
    } else {
      assert forall i :: 0 <= i < |all| ==> all[i] in pa || all[i] in pb;
      assert a.activeSlot.Some? && a.activeSlot.value < |pa| ==> pa[a.activeSlot.value] in pa;
      assert b.activeSlot.Some? && b.activeSlot.value < |pb| ==> pb[b.activeSlot.value] in pb;
    }
  }

  /** Two profiles of one name: nothing at all is said when the active one changes from the first to the second. */
  lemma NamesakesAreNotToldApart(p: Prof, q: Prof, list: seq<ProfileEntry>)
    requires p.entry.hex != q.entry.hex && p.name.Some? && p.name == q.name
    ensures ListChanges([p, q], [p, q]) == []
    ensures ActiveChange(Store(list, Some(0)), Store(list, Some(1)), [p, q], [p, q]) == []
  {
    hide ListChanges, ActiveChange;
    NothingReportedExactlyWhen([p, q], [p, q]);
    ActiveSilentExactlyWhen(Store(list, Some(0)), Store(list, Some(1)), [p, q], [p, q]);
  }

  /** A row that differs is reported under its caption, with no value when either side holds it as a secret. */
  lemma {:induction false} RowReported(a: Prof, b: Prof, k: nat, i: nat)
    requires i < k <= |a.fields| && k <= |b.fields| && a.fields[i].Clear() != b.fields[i].Clear()
    ensures exists c :: c in RowChanges(a, b, k) && c in FieldRowChange(a, a.fields[i], b.fields[i])
  {
    if i == k - 1 {
      assert FieldRowChange(a, a.fields[i], b.fields[i])[0] in RowChanges(a, b, k);
    } else {
      RowReported(a, b, k - 1, i);
      var c :| c in RowChanges(a, b, k - 1) && c in FieldRowChange(a, a.fields[i], b.fields[i]);
      assert c in RowChanges(a, b, k);
    }
  }

  /** The entry for row `k` of two profiles of one name, neither of which holds that row as a secret. */
  ghost predicate ShownRow(c: Change, p: Prof, q: Prof, k: nat) {
    && p.name.Some? && p.name == q.name
    && k < |p.fields| && k < |q.fields|
    && p.fields[k].secret.None? && q.fields[k].secret.None?
    && c == Change(FieldRow(LabelOf(p), p.fields[k].caption, false), Changed, Some(Text(p.fields[k].value)),
       Some(Text(q.fields[k].value)))
  }

  predicate ShowsText(c: Change) {
    (c.a.Some? && c.a.value.Text?) || (c.b.Some? && c.b.value.Text?)
  }

  /** What is shown is a row's two values, and neither side holds that row as a secret. */
  ghost predicate NoSecret(c: Change, pa: seq<Prof>, pb: seq<Prof>) {
    ShowsText(c) ==> exists p, q, k :: p in pa && q in pb && ShownRow(c, p, q, k)
  }

  lemma {:induction false} RowsKeepSecrets(a: Prof, b: Prof, pa: seq<Prof>, pb: seq<Prof>, k: nat)
    requires a in pa && b in pb && a.name.Some? && a.name == b.name && k <= |a.fields| && k <= |b.fields|
    ensures forall c :: c in RowChanges(a, b, k) ==> NoSecret(c, pa, pb)
  {
    if k > 0 {
      RowsKeepSecrets(a, b, pa, pb, k - 1);
      forall c | c in FieldRowChange(a, a.fields[k - 1], b.fields[k - 1])
        ensures NoSecret(c, pa, pb)
      {
        assert ShowsText(c) ==> ShownRow(c, a, b, k - 1);
      }
    }
  }

  lemma LeftChangeKeepsSecrets(left: seq<Prof>, right: seq<Prof>, pa: seq<Prof>, pb: seq<Prof>, x: Prof)
    requires x in pa && (forall p :: p in right ==> p in pb)
    ensures forall c :: c in LeftChange(left, right, x) ==> NoSecret(c, pa, pb)
  {
    hide RowChanges, ShownRow;
    var partner := Partner(left, right, x);
    if partner.Some? {
      var y := right[partner.value];
      assert y in right;
      RowsKeepSecrets(x, y, pa, pb, Rows(x, y));
    }
  }

  lemma {:induction false} LeftChangesKeepSecrets(left: seq<Prof>, right: seq<Prof>, pa: seq<Prof>, pb: seq<Prof>,
      k: nat)
    requires k <= |left| && (forall p :: p in left ==> p in pa) && (forall p :: p in right ==> p in pb)
    ensures forall c :: c in LeftChanges(left, right, k) ==> NoSecret(c, pa, pb)
  {
    hide NoSecret, LeftChange, Partner;
    LeftChangesUnfold(left, right, k);
    if k > 0 {
      LeftChangesKeepSecrets(left, right, pa, pb, k - 1);
      assert left[k - 1] in left;
      LeftChangeKeepsSecrets(left, right, pa, pb, left[k - 1]);
    }
  }

  lemma {:induction false} CancelWithin(xs: seq<Prof>, ys: seq<Prof>)
    ensures forall p :: p in Cancel(xs, ys).0 ==> p in xs
    ensures forall p :: p in Cancel(xs, ys).1 ==> p in ys
  {
    if xs != [] {
      var n := |xs| - 1;
      CancelWithin(xs[..n], ys);
      assert xs == xs[..n] + [xs[n]];
    }
  }

  /** Nothing the report shows is a secret of either side. */
  lemma SecretsAreNeverShown(pa: seq<Prof>, pb: seq<Prof>)
    ensures forall c :: c in ListChanges(pa, pb) ==> NoSecret(c, pa, pb)
  {
    hide Cancel;
    var (left, right) := Cancel(pa, pb);
    CancelWithin(pa, pb);
    LeftChangesKeepSecrets(left, right, pa, pb, |left|);
  }
}
