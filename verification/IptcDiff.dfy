// Comparing the IPTC slots of two snapshots: which differences are reported, and that none is silent.

module IptcDiff {
  import opened Wrappers
  import opened Bytes
  import opened Iptc

  /** A listed slot and its record, spelt in hex. */
  datatype SlotEntry = SlotEntry(slot: nat, hex: string) {
    function Preset(): Option<Preset> {
      var bytes := HexDecode(hex);
      if bytes.None? then None
      else match SlotOf(bytes.value)
        case Ok(Decoded(p)) => Some(p)
        case _ => None
    }

    predicate Decodable() {
      HexDecode(hex).Some? && SlotOf(HexDecode(hex).value).Ok?
    }
  }

  datatype Difference = Changed | OnlyInA | OnlyInB

  datatype Item =
    | Section
    | Repeated(slot: nat)
    | Slot(slot: nat)
    | PresetName(slot: nat)
    | PresetField(slot: nat, field: nat)
    | NotShown(slot: nat)

  datatype Shown =
    | State(describes: IptcState)
    | Times(n: nat)
    | Present
    | Value(text: Text)
    | ByteCount(n: nat, undecodable: bool)

  datatype Change = Change(item: Item, difference: Difference, a: Option<Shown>, b: Option<Shown>)

  datatype IptcState = NotRead | NotOnModel | ReadFailed(tag: string, detail: string) | Stored(slots: seq<SlotEntry>)

  // ----- What the two stores hold -----

  function First(slots: seq<SlotEntry>, slot: nat): Option<SlotEntry> {
    if slots == [] then None
    else if First(slots[..|slots| - 1], slot).Some? then First(slots[..|slots| - 1], slot)
    else if slots[|slots| - 1].slot == slot then Some(slots[|slots| - 1])
    else None
  }

  function TimesListed(slots: seq<SlotEntry>, slot: nat): nat {
    if slots == [] then 0
    else TimesListed(slots[..|slots| - 1], slot) + if slots[|slots| - 1].slot == slot then 1 else 0
  }

  lemma {:induction false} ListedFirst(slots: seq<SlotEntry>, slot: nat)
    ensures First(slots, slot).Some? <==> TimesListed(slots, slot) > 0
    ensures First(slots, slot).Some? ==> First(slots, slot).value in slots && First(slots, slot).value.slot == slot
  {
    if slots != [] {
      ListedFirst(slots[..|slots| - 1], slot);
    }
  }

  /** What one item of a report says about the two stores, when there is such a difference. */
  function ChangeFor(a: seq<SlotEntry>, b: seq<SlotEntry>, item: Item, difference: Difference): Option<Change> {
    match item
    case Section => None
    case Repeated(s) =>
      if difference == Changed && (TimesListed(a, s) > 1 || TimesListed(b, s) > 1)
      then Some(Change(item, Changed, Some(Times(ListedTimes(a, s))), Some(Times(ListedTimes(b, s)))))
      else None
    case Slot(s) =>
      if difference == OnlyInA && First(a, s).Some? && First(b, s).None?
          then Some(Change(item, OnlyInA, Some(Present), None))
      else if difference == OnlyInB && First(b, s).Some? && First(a, s).None?
          then Some(Change(item, OnlyInB, None, Some(Present)))
      else None
    case _ =>
      var x, y := First(a, item.slot), First(b, item.slot);
      if difference == Changed && x.Some? && y.Some? then SlotChangeFor(x.value, y.value, item) else None
  }

  /** A slot no side repeats is listed once on either side, for the report's purposes. */
  function ListedTimes(slots: seq<SlotEntry>, slot: nat): nat {
    if TimesListed(slots, slot) > 1 then TimesListed(slots, slot) else 1
  }

  function SlotChangeFor(x: SlotEntry, y: SlotEntry, item: Item): Option<Change> {
    if x.hex == y.hex then None
    else match (x.Preset(), y.Preset())
      case (Some(p), Some(q)) => (
        match item
        case PresetName(_) => if p.name != q.name
            then Some(Change(item, Changed, Some(Value(p.name)), Some(Value(q.name)))) else None
        case PresetField(_, k) =>
          if k < |p.fields| && k < |q.fields| && p.fields[k] != q.fields[k]
          then Some(Change(item, Changed, Some(Value(p.fields[k])), Some(Value(q.fields[k]))))
          else None
        case _ => None)
      case _ =>
        if item.NotShown?
        then Some(Change(item, Changed, Some(ByteCount(|x.hex| / 2, false)),
            Some(ByteCount(|y.hex| / 2, !y.Decodable()))))
        else None
  }

  /** A report is exact: it has an entry for an item exactly when the item differs, and the entry says how. */
  ghost predicate Exact(a: seq<SlotEntry>, b: seq<SlotEntry>, out: seq<Change>) {
    && (forall c :: c in out ==> ChangeFor(a, b, c.item, c.difference) == Some(c))
    && (forall item, d :: ChangeFor(a, b, item, d).Some? ==> ChangeFor(a, b, item, d).value in out)
  }

  // ----- The order of a report -----

  ghost predicate Ascending(keys: seq<nat>) {
    forall i, j :: 0 <= i < j < |keys| ==> keys[i] < keys[j]
  }

  function Insert(keys: seq<nat>, k: nat): (r: seq<nat>)
    requires Ascending(keys)
    ensures Ascending(r)
    ensures forall x :: x in r <==> x == k || x in keys
  {
    if keys == [] then [k]
    else
      var n := |keys| - 1;
      assert keys == keys[..n] + [keys[n]];
      if keys[n] < k then keys + [k]
      else if keys[n] == k then keys
      else
        var rest := Insert(keys[..n], k);
        assert forall i :: 0 <= i < |rest| ==> rest[i] in rest && rest[i] < keys[n];
        rest + [keys[n]]
  }

  method SortedKeys(s: set<nat>) returns (keys: seq<nat>)
    ensures Ascending(keys) && forall k :: k in keys <==> k in s
  {
    var left := s;
    keys := [];
    while left != {}
      invariant left <= s && Ascending(keys)
      invariant forall k :: k in keys <==> k in s - left
      decreases |left|
    {
      var k :| k in left;
      left := left - {k};
      keys := Insert(keys, k);
    }
  }

  // ----- The report -----

  /** Each slot's first entry, and the count of those that have several. */
  method BySlot(slots: seq<SlotEntry>) returns (first: map<nat, SlotEntry>, times: map<nat, nat>)
    ensures forall s: nat :: s in first <==> First(slots, s).Some?
    ensures forall s: nat :: s in first ==> First(slots, s) == Some(first[s])
    ensures forall s: nat :: s in times <==> TimesListed(slots, s) > 1
    ensures forall s: nat :: s in times ==> times[s] == TimesListed(slots, s)
  {
    first, times := map[], map[];
    for i := 0 to |slots|
      invariant forall s: nat :: s in first <==> First(slots[..i], s).Some?
      invariant forall s: nat :: s in first ==> First(slots[..i], s) == Some(first[s])
      invariant forall s: nat :: s in times <==> TimesListed(slots[..i], s) > 0
      invariant forall s: nat :: s in times ==> times[s] == TimesListed(slots[..i], s)
    {
      var e := slots[i];
      assert slots[..i + 1][..i] == slots[..i];
      if e.slot !in first {
        first := first[e.slot := e];
      }
      times := times[e.slot := if e.slot in times then times[e.slot] + 1 else 1];
    }
    assert slots[..|slots|] == slots;
    times := map s | s in times && times[s] > 1 :: times[s];
  }

  /** The differences of one slot both sides list. */
  function SlotChanges(x: SlotEntry, y: SlotEntry): seq<Change> {
    if x.hex == y.hex then []
    else match (x.Preset(), y.Preset())
      case (Some(p), Some(q)) =>
        (if p.name != q.name then [Change(PresetName(x.slot), Changed, Some(Value(p.name)), Some(Value(q.name)))]
            else [])
        + FieldChanges(x.slot, p.fields, q.fields, 0)
      case _ => [Change(NotShown(x.slot), Changed, Some(ByteCount(|x.hex| / 2, false)),
          Some(ByteCount(|y.hex| / 2, !y.Decodable())))]
  }

  function FieldChanges(slot: nat, p: seq<Text>, q: seq<Text>, from: nat): seq<Change>
    decreases |p| - from
  {
    if from >= |p| || from >= |q| then []
    else
      (if p[from] != q[from]
          then [Change(PresetField(slot, from), Changed, Some(Value(p[from])), Some(Value(q[from])))] else [])
      + FieldChanges(slot, p, q, from + 1)
  }

  lemma {:induction false} FieldChangesExact(slot: nat, p: seq<Text>, q: seq<Text>, from: nat)
    ensures forall c :: c in FieldChanges(slot, p, q, from) <==>
              exists k :: from <= k < |p| && k < |q| && p[k] != q[k] &&
                          c == Change(PresetField(slot, k), Changed, Some(Value(p[k])), Some(Value(q[k])))
    decreases |p| - from
  {
    if from < |p| && from < |q| {
      FieldChangesExact(slot, p, q, from + 1);
    }
  }

  lemma SlotChangesExact(x: SlotEntry, y: SlotEntry)
    requires x.slot == y.slot
    ensures forall c :: c in SlotChanges(x, y) <==>
              && c.difference == Changed && (c.item.PresetName? || c.item.PresetField? || c.item.NotShown?)
              && c.item.slot == x.slot && SlotChangeFor(x, y, c.item) == Some(c)
  {
    var (p, q) := (x.Preset(), y.Preset());
    if p.Some? && q.Some? {
      FieldChangesExact(x.slot, p.value.fields, q.value.fields, 0);
    }
  }

  /** Two sections of which at least one was not read are described alike. */
  predicate SameState(a: IptcState, b: IptcState) {
    (a.NotRead? && b.NotRead?) || (a.NotOnModel? && b.NotOnModel?) || (a.ReadFailed? && b.ReadFailed? && a.tag == b.tag)
  }

  datatype Phase = RepeatedSlots | SlotsOfA | SlotsOnlyInB

  /** What the report says at one slot, in each of its three passes. */
  function At(a: seq<SlotEntry>, b: seq<SlotEntry>, phase: Phase, s: nat): seq<Change> {
    match phase
    case RepeatedSlots =>
      if TimesListed(a, s) > 1 || TimesListed(b, s) > 1
      then [Change(Repeated(s), Changed, Some(Times(ListedTimes(a, s))), Some(Times(ListedTimes(b, s))))]
      else []
    case SlotsOfA =>
      if First(a, s).None? then []
      else if First(b, s).None? then [Change(Slot(s), OnlyInA, Some(Present), None)]
      else SlotChanges(First(a, s).value, First(b, s).value)
    case SlotsOnlyInB =>
      if First(b, s).Some? && First(a, s).None? then [Change(Slot(s), OnlyInB, None, Some(Present))] else []
  }

  function AtAll(a: seq<SlotEntry>, b: seq<SlotEntry>, phase: Phase, keys: seq<nat>): seq<Change> {
    if keys == [] then []
    else AtAll(a, b, phase, keys[..|keys| - 1]) + At(a, b, phase, keys[|keys| - 1])
  }

  lemma {:induction false} AtAllMembers(a: seq<SlotEntry>, b: seq<SlotEntry>, phase: Phase, keys: seq<nat>)
    ensures forall c :: c in AtAll(a, b, phase, keys) <==> exists k :: k in keys && c in At(a, b, phase, k)
  {
    hide At;
    if keys != [] {
      var n := |keys| - 1;
      AtAllMembers(a, b, phase, keys[..n]);
      assert keys == keys[..n] + [keys[n]];
    }
  }

  lemma AtAllSnoc(a: seq<SlotEntry>, b: seq<SlotEntry>, phase: Phase, keys: seq<nat>, i: nat)
    requires i < |keys|
    ensures AtAll(a, b, phase, keys[..i + 1]) == AtAll(a, b, phase, keys[..i]) + At(a, b, phase, keys[i])
  {
    assert keys[..i + 1][..i] == keys[..i];
  }

  /** The three passes over every slot either side lists make an exact report. */
  lemma PassesAreExact(a: seq<SlotEntry>, b: seq<SlotEntry>, repeated: seq<nat>, ofA: seq<nat>, onlyB: seq<nat>)
    requires forall s: nat :: s in repeated <==> TimesListed(a, s) > 1 || TimesListed(b, s) > 1
    requires forall s: nat :: s in ofA <==> First(a, s).Some?
    requires forall s: nat :: s in onlyB <==> First(b, s).Some? && First(a, s).None?
    ensures Exact(a, b, AtAll(a, b, RepeatedSlots, repeated) + AtAll(a, b, SlotsOfA, ofA)
                        + AtAll(a, b, SlotsOnlyInB, onlyB))
  {
    hide SlotChanges, SlotChangeFor, AtAll, First, TimesListed;
    var x, y, z := AtAll(a, b, RepeatedSlots, repeated), AtAll(a, b, SlotsOfA, ofA), AtAll(a, b, SlotsOnlyInB, onlyB);
    AtAllMembers(a, b, RepeatedSlots, repeated);
    AtAllMembers(a, b, SlotsOfA, ofA);
    AtAllMembers(a, b, SlotsOnlyInB, onlyB);
    forall c: Change | c in x + y + z
      ensures ChangeFor(a, b, c.item, c.difference) == Some(c)
    {
      if s: nat :| s in ofA && c in At(a, b, SlotsOfA, s) {
        AtSlotOfA(a, b, s, c);
      }
    }
    forall item, d | ChangeFor(a, b, item, d).Some?
      ensures ChangeFor(a, b, item, d).value in x + y + z
    {
      ReportedSomewhere(a, b, item, d);
      var c := ChangeFor(a, b, item, d).value;
      assert match PassOf(item, d)
        case RepeatedSlots => item.slot in repeated && c in x
        case SlotsOfA => item.slot in ofA && c in y
        case SlotsOnlyInB => item.slot in onlyB && c in z;
    }
  }

  lemma AtSlotOfA(a: seq<SlotEntry>, b: seq<SlotEntry>, s: nat, c: Change)
    requires c in At(a, b, SlotsOfA, s)
    ensures ChangeFor(a, b, c.item, c.difference) == Some(c)
  {
    ListedFirst(a, s);
    ListedFirst(b, s);
    if First(a, s).Some? && First(b, s).Some? {
      SlotChangesExact(First(a, s).value, First(b, s).value);
    }
  }

  /** The pass that reports an item. */
  function PassOf(item: Item, d: Difference): Phase {
    if item.Repeated? then RepeatedSlots
    else if item.Slot? && d == OnlyInB then SlotsOnlyInB
    else SlotsOfA
  }

  lemma ReportedSomewhere(a: seq<SlotEntry>, b: seq<SlotEntry>, item: Item, d: Difference)
    requires ChangeFor(a, b, item, d).Some?
    ensures !item.Section? && ChangeFor(a, b, item, d).value in At(a, b, PassOf(item, d), item.slot)
  {
    if item.PresetName? || item.PresetField? || item.NotShown? {
      ListedFirst(a, item.slot);
      ListedFirst(b, item.slot);
      SlotChangesExact(First(a, item.slot).value, First(b, item.slot).value);
    }
  }

  method RepeatedPass(a: seq<SlotEntry>, b: seq<SlotEntry>, da: map<nat, nat>, db: map<nat, nat>, keys: seq<nat>)
    returns (out: seq<Change>)
    requires forall s: nat :: s in da <==> TimesListed(a, s) > 1
    requires forall s: nat :: s in da ==> da[s] == TimesListed(a, s)
    requires forall s: nat :: s in db <==> TimesListed(b, s) > 1
    requires forall s: nat :: s in db ==> db[s] == TimesListed(b, s)
    requires forall s :: s in keys ==> s in da || s in db
    ensures out == AtAll(a, b, RepeatedSlots, keys)
  {
    out := [];
    for i := 0 to |keys|
      invariant out == AtAll(a, b, RepeatedSlots, keys[..i])
    {
      var s := keys[i];
      AtAllSnoc(a, b, RepeatedSlots, keys, i);
      assert s in keys;
      var ta, tb := if s in da then da[s] else 1, if s in db then db[s] else 1;
      out := out + [Change(Repeated(s), Changed, Some(Times(ta)), Some(Times(tb)))];
    }
    assert keys[..|keys|] == keys;
  }

  method SlotsPass(a: seq<SlotEntry>, b: seq<SlotEntry>, ma: map<nat, SlotEntry>, mb: map<nat, SlotEntry>,
      keys: seq<nat>)
    returns (out: seq<Change>)
    requires forall s: nat :: s in ma <==> First(a, s).Some?
    requires forall s: nat :: s in ma ==> First(a, s) == Some(ma[s])
    requires forall s: nat :: s in mb <==> First(b, s).Some?
    requires forall s: nat :: s in mb ==> First(b, s) == Some(mb[s])
    requires forall s :: s in keys ==> s in ma
    ensures out == AtAll(a, b, SlotsOfA, keys)
  {
    out := [];
    for i := 0 to |keys|
      invariant out == AtAll(a, b, SlotsOfA, keys[..i])
    {
      var s := keys[i];
      AtAllSnoc(a, b, SlotsOfA, keys, i);
      assert s in keys;
      if s !in mb {
        out := out + [Change(Slot(s), OnlyInA, Some(Present), None)];
      } else {
        out := out + SlotChanges(ma[s], mb[s]);
      }
    }
    assert keys[..|keys|] == keys;
  }

  method OnlyInBPass(a: seq<SlotEntry>, b: seq<SlotEntry>, keys: seq<nat>) returns (out: seq<Change>)
    requires forall s :: s in keys ==> First(b, s).Some? && First(a, s).None?
    ensures out == AtAll(a, b, SlotsOnlyInB, keys)
  {
    out := [];
    for i := 0 to |keys|
      invariant out == AtAll(a, b, SlotsOnlyInB, keys[..i])
    {
      AtAllSnoc(a, b, SlotsOnlyInB, keys, i);
      assert keys[i] in keys;
      out := out + [Change(Slot(keys[i]), OnlyInB, None, Some(Present))];
    }
    assert keys[..|keys|] == keys;
  }

  // ----- The order of the entries -----

  /** Repeated slots, then the first side's slots, then those only the other side has. */
  function PassNumber(c: Change): nat {
    if c.item.Repeated? then 0 else if c.item.Slot? && c.difference == OnlyInB then 2 else 1
  }

  predicate Before(c: Change, d: Change) {
    && !c.item.Section? && !d.item.Section?
    && (|| PassNumber(c) < PassNumber(d)
        || (PassNumber(c) == PassNumber(d)
            && (c.item.slot < d.item.slot || (c.item.slot == d.item.slot && Within(c.item) < Within(d.item)))))
  }

  /** Within a slot: what is about the whole of it or the name, then the fields. */
  function Within(item: Item): nat {
    if item.PresetField? then item.field + 1 else 0
  }

  /** By pass, by slot, and within a slot by field: so no entry comes twice. */
  ghost predicate InReportOrder(out: seq<Change>) {
    forall i, j :: 0 <= i < j < |out| ==> Before(out[i], out[j])
  }

  lemma OrderedThen(x: seq<Change>, y: seq<Change>)
    requires InReportOrder(x) && InReportOrder(y) && forall c, d :: c in x && d in y ==> Before(c, d)
    ensures InReportOrder(x + y)
  {
    hide Before;
  }

  lemma {:induction false} FieldsInOrder(slot: nat, p: seq<Text>, q: seq<Text>, from: nat)
    ensures InReportOrder(FieldChanges(slot, p, q, from))
    ensures forall c <- FieldChanges(slot, p, q, from) ::
              c.item.PresetField? && c.item.slot == slot && c.item.field >= from && c.difference == Changed
    decreases |p| - from
  {
    if from < |p| && from < |q| {
      FieldsInOrder(slot, p, q, from + 1);
      var first := if p[from] != q[from]
                   then [Change(PresetField(slot, from), Changed, Some(Value(p[from])), Some(Value(q[from])))] else [];
      OrderedThen(first, FieldChanges(slot, p, q, from + 1));
    }
  }

  lemma SlotInOrder(x: SlotEntry, y: SlotEntry)
    ensures InReportOrder(SlotChanges(x, y))
    ensures forall c <- SlotChanges(x, y) :: !c.item.Section? && c.item.slot == x.slot && PassNumber(c) == 1
  {
    hide SlotEntry.Preset, SlotEntry.Decodable, FieldChanges;
    var (p, q) := (x.Preset(), y.Preset());
    if x.hex != y.hex && p.Some? && q.Some? {
      NameThenFields(x.slot, p.value, q.value);
    }
  }

  lemma NameThenFields(slot: nat, p: Preset, q: Preset)
    ensures var name := if p.name != q.name
                        then [Change(PresetName(slot), Changed, Some(Value(p.name)), Some(Value(q.name)))] else [];
            var all := name + FieldChanges(slot, p.fields, q.fields, 0);
            && InReportOrder(all)
            && forall c <- all :: !c.item.Section? && c.item.slot == slot && PassNumber(c) == 1
  {
    hide FieldChanges;
    FieldsInOrder(slot, p.fields, q.fields, 0);
    var name := if p.name != q.name
                then [Change(PresetName(slot), Changed, Some(Value(p.name)), Some(Value(q.name)))] else [];
    OrderedThen(name, FieldChanges(slot, p.fields, q.fields, 0));
  }

  function NumberOf(phase: Phase): nat {
    match phase
    case RepeatedSlots => 0
    case SlotsOfA => 1
    case SlotsOnlyInB => 2
  }

  lemma AtInOrder(a: seq<SlotEntry>, b: seq<SlotEntry>, phase: Phase, s: nat)
    ensures InReportOrder(At(a, b, phase, s))
    ensures forall c <- At(a, b, phase, s) :: !c.item.Section? && c.item.slot == s && PassNumber(c) == NumberOf(phase)
  {
    if First(a, s).Some? && First(b, s).Some? {
      ListedFirst(a, s);
      SlotInOrder(First(a, s).value, First(b, s).value);
    }
  }

  lemma {:induction false} AtAllInOrder(a: seq<SlotEntry>, b: seq<SlotEntry>, phase: Phase, keys: seq<nat>)
    requires Ascending(keys)
    ensures InReportOrder(AtAll(a, b, phase, keys))
    ensures forall c <- AtAll(a, b, phase, keys) ::
              !c.item.Section? && c.item.slot in keys && PassNumber(c) == NumberOf(phase)
  {
    hide At, InReportOrder;
    if keys == [] {
      NoneInOrder();
    } else {
      var n := |keys| - 1;
      AtAllInOrder(a, b, phase, keys[..n]);
      AtInOrder(a, b, phase, keys[n]);
      assert keys == keys[..n] + [keys[n]];
      OrderedThen(AtAll(a, b, phase, keys[..n]), At(a, b, phase, keys[n]));
    }
  }

  lemma NoneInOrder()
    ensures InReportOrder([])
  {
  }

  lemma {:induction false} PassesInOrder(a: seq<SlotEntry>, b: seq<SlotEntry>, repeated: seq<nat>, ofA: seq<nat>,
                                         onlyB: seq<nat>)
    requires Ascending(repeated) && Ascending(ofA) && Ascending(onlyB)
    ensures InReportOrder(AtAll(a, b, RepeatedSlots, repeated) + AtAll(a, b, SlotsOfA, ofA)
                          + AtAll(a, b, SlotsOnlyInB, onlyB))
  {
    hide AtAll, InReportOrder;
    AtAllInOrder(a, b, RepeatedSlots, repeated);
    AtAllInOrder(a, b, SlotsOfA, ofA);
    AtAllInOrder(a, b, SlotsOnlyInB, onlyB);
    OrderedThen(AtAll(a, b, RepeatedSlots, repeated), AtAll(a, b, SlotsOfA, ofA));
    OrderedThen(AtAll(a, b, RepeatedSlots, repeated) + AtAll(a, b, SlotsOfA, ofA), AtAll(a, b, SlotsOnlyInB, onlyB));
  }

  /** Every difference between two sets of slots: the repeated ones, then the first side's slots, then the other's. */
  method IptcChanges(a: IptcState, b: IptcState) returns (out: seq<Change>)
    ensures a.Stored? && b.Stored? ==> Exact(a.slots, b.slots, out) && InReportOrder(out)
    ensures !(a.Stored? && b.Stored?) ==>
              out == if a == b || (a.ReadFailed? && b.ReadFailed? && b == a.(detail := b.detail)) then []
              else [Change(Section, Changed, Some(State(a)), Some(State(b)))]
  {
    if !(a.Stored? && b.Stored?) {
      if SameState(a, b) {
        return [];
      }
      return [Change(Section, Changed, Some(State(a)), Some(State(b)))];
    }
    var ma, da := BySlot(a.slots);
    var mb, db := BySlot(b.slots);
    var repeated := SortedKeys(da.Keys + db.Keys);
    var ofA := SortedKeys(ma.Keys);
    var onlyB := SortedKeys(mb.Keys - ma.Keys);
    var x := RepeatedPass(a.slots, b.slots, da, db, repeated);
    var y := SlotsPass(a.slots, b.slots, ma, mb, ofA);
    var z := OnlyInBPass(a.slots, b.slots, onlyB);
    PassesAreExact(a.slots, b.slots, repeated, ofA, onlyB);
    PassesInOrder(a.slots, b.slots, repeated, ofA, onlyB);
    out := x + y + z;
  }

  // ----- What an entry is read as -----

  /** An entry's preset is the one whose bytes its text writes, in letters of either case. */
  lemma PresetExactlyWhen(e: SlotEntry, p: Preset)
    ensures e.Preset() == Some(p) <==> EncodePreset(p).Ok? && SameDigits(e.hex, HexEncode(EncodePreset(p).value))
  {
    hide EncodePreset, SameDigits, SlotOf, HexDecode, HexEncode;
    if HexDecode(e.hex).Some? {
      CodecIsABijection(HexDecode(e.hex).value, p);
    }
    if EncodePreset(p).Ok? {
      HexIgnoresCase(e.hex, EncodePreset(p).value);
      CodecIsABijection(EncodePreset(p).value, p);
    }
  }

  /** An entry can be decoded exactly when it is a preset's or its bytes say it is of another kind. */
  lemma DecodableExactlyWhen(e: SlotEntry)
    ensures e.Decodable() <==>
            || (exists p :: EncodePreset(p).Ok? && SameDigits(e.hex, HexEncode(EncodePreset(p).value)))
            || (exists b :: SameDigits(e.hex, HexEncode(b)) && |b| >= 12 && (b[6] != 1 || b[7] != 0))
  {
    hide EncodePreset, SameDigits, SlotOf, HexDecode, HexEncode;
    forall p
      ensures e.Preset() == Some(p) <==> EncodePreset(p).Ok? && SameDigits(e.hex, HexEncode(EncodePreset(p).value))
    {
      PresetExactlyWhen(e, p);
    }
    forall b
      ensures HexDecode(e.hex) == Some(b) <==> SameDigits(e.hex, HexEncode(b))
    {
      HexIgnoresCase(e.hex, b);
    }
    if HexDecode(e.hex).Some? {
      var b := HexDecode(e.hex).value;
      SlotSays(b);
      if |b| >= 12 && (b[6] != 1 || b[7] != 0) {
        assert SlotOf(b) == Ok(Other(b[6] as int + 0x100 * b[7] as int, |b| - 12));
      }
      match SlotOf(b)
      case Ok(Decoded(p)) => assert e.Preset() == Some(p);
      case Ok(Other(kind, len)) => assert SlotOf(b) == Ok(Other(kind, len));
      case Err(_) =>
    }
  }

  // ----- Bytes that differ are never silent -----

  ghost predicate NoneRepeated(slots: seq<SlotEntry>) {
    forall s: nat :: TimesListed(slots, s) <= 1
  }

  /** Both list the same slots and every slot's first entry has the same bytes; text in another case may spell them. */
  ghost predicate SameBytes(a: seq<SlotEntry>, b: seq<SlotEntry>) {
    forall s: nat :: First(a, s).Some? == First(b, s).Some? &&
                     (First(a, s).Some? ==> SameRecord(First(a, s).value, First(b, s).value))
  }

  predicate SameRecord(x: SlotEntry, y: SlotEntry) {
    x.hex == y.hex || (x.Preset().Some? && y.Preset().Some? && HexDecode(x.hex) == HexDecode(y.hex))
  }

  /** Nothing is reported exactly when no slot is listed twice and every slot has the same bytes on both sides. */
  lemma NothingReportedExactlyWhen(a: seq<SlotEntry>, b: seq<SlotEntry>, out: seq<Change>)
    requires Exact(a, b, out)
    ensures out == [] <==> NoneRepeated(a) && NoneRepeated(b) && SameBytes(a, b)
  {
    if out == [] {
      forall s: nat
        ensures TimesListed(a, s) <= 1 && TimesListed(b, s) <= 1
      {
        assert ChangeFor(a, b, Repeated(s), Changed).None?;
      }
      forall s: nat
        ensures First(a, s).Some? == First(b, s).Some?
                && (First(a, s).Some? ==> SameRecord(First(a, s).value, First(b, s).value))
      {
        assert ChangeFor(a, b, Slot(s), OnlyInA).None? && ChangeFor(a, b, Slot(s), OnlyInB).None?;
        if First(a, s).Some? {
          SilentSlot(a, b, s, out);
        }
      }
    } else {
      var c := out[0];
      assert c in out;
      SameMeansSilent(a, b, c.item, c.difference);
    }
  }

  lemma SilentSlot(a: seq<SlotEntry>, b: seq<SlotEntry>, s: nat, out: seq<Change>)
    requires Exact(a, b, out) && out == [] && First(a, s).Some? && First(b, s).Some?
    ensures SameRecord(First(a, s).value, First(b, s).value)
  {
    hide ValidUtf8, SlotOf, EncodePreset, HexDecode, SlotEntry.Decodable;
    var x, y := First(a, s).value, First(b, s).value;
    assert ChangeFor(a, b, NotShown(s), Changed).None? && ChangeFor(a, b, PresetName(s), Changed).None?;
    if x.hex != y.hex {
      var p, q := x.Preset().value, y.Preset().value;
      forall k | 0 <= k < |p.fields| && k < |q.fields|
        ensures p.fields[k] == q.fields[k]
      {
        assert ChangeFor(a, b, PresetField(s, k), Changed).None?;
      }
      SamePreset(x, y);
    }
  }

  /** Two records that decode to presets equal in every part are the same bytes, because the decoder is strict. */
  lemma SamePreset(x: SlotEntry, y: SlotEntry)
    requires x.Preset().Some? && y.Preset().Some?
    ensures var p, q := x.Preset().value, y.Preset().value;
            && |p.fields| == |q.fields| == FIELD_COUNT
            && (p.name == q.name && (forall k :: 0 <= k < FIELD_COUNT ==> p.fields[k] == q.fields[k]) ==>
               HexDecode(x.hex) == HexDecode(y.hex))
  {
    hide ValidUtf8, SlotOf, HexDecode;
    var p, q := x.Preset().value, y.Preset().value;
    CodecIsABijection(HexDecode(x.hex).value, p);
    CodecIsABijection(HexDecode(y.hex).value, q);
    if p.name == q.name && forall k :: 0 <= k < FIELD_COUNT ==> p.fields[k] == q.fields[k] {
      assert p.fields == q.fields;
      assert p == q;
    }
  }

  lemma SameMeansSilent(a: seq<SlotEntry>, b: seq<SlotEntry>, item: Item, d: Difference)
    ensures NoneRepeated(a) && NoneRepeated(b) && SameBytes(a, b) ==> ChangeFor(a, b, item, d).None?
  {
    if item.Repeated? {
      assert NoneRepeated(a) ==> TimesListed(a, item.slot) <= 1;
    } else if !item.Section? {
      assert SameBytes(a, b) ==> First(a, item.slot).Some? == First(b, item.slot).Some?;
    }
  }

  ghost predicate SameText(a: seq<SlotEntry>, b: seq<SlotEntry>) {
    forall s: nat :: First(a, s).Some? == First(b, s).Some? &&
                     (First(a, s).Some? ==> First(a, s).value.hex == First(b, s).value.hex)
  }

  /** For text as the writer spells it, that is the same slots with the same text. */
  lemma LowerCaseStores(a: seq<SlotEntry>, b: seq<SlotEntry>, out: seq<Change>)
    requires Exact(a, b, out) && NoneRepeated(a) && NoneRepeated(b)
    requires forall e :: e in a || e in b ==> LowerHex(e.hex)
    ensures out == [] <==> SameText(a, b)
  {
    NothingReportedExactlyWhen(a, b, out);
    if SameBytes(a, b) {
      forall s: nat
        ensures First(a, s).Some? == First(b, s).Some?
                && (First(a, s).Some? ==> First(a, s).value.hex == First(b, s).value.hex)
      {
        assert First(a, s).Some? == First(b, s).Some?;
        if First(a, s).Some? {
          ListedFirst(a, s);
          ListedFirst(b, s);
          LowerCaseRecord(First(a, s).value, First(b, s).value);
        }
      }
    }
  }

  lemma LowerCaseRecord(x: SlotEntry, y: SlotEntry)
    requires LowerHex(x.hex) && LowerHex(y.hex)
    ensures SameRecord(x, y) <==> x.hex == y.hex
  {
    if HexDecode(x.hex).Some? {
      HexIsInjective(x.hex, HexDecode(x.hex).value);
      HexIsInjective(y.hex, HexDecode(x.hex).value);
    }
  }
}
