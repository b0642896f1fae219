// The report on two stores of FTP profiles, and exactly what is in it.

module FtpReport {
  import opened Wrappers
  import opened Sequences
  import opened FtpDiff

  // ----- Who is compared with whom -----

  /** `left[i]` and `right[j]` have one name, and neither side has another profile of that name. */
  ghost predicate Compared(left: seq<Prof>, right: seq<Prof>, i: nat, j: nat) {
    && i < |left| && j < |right| && left[i].name.Some? && right[j].name == left[i].name
    && (forall k :: 0 <= k < |left| && k != i ==> left[k].name != left[i].name)
    && (forall k :: 0 <= k < |right| && k != j ==> right[k].name != left[i].name)
  }

  lemma PartnerExactlyWhen(left: seq<Prof>, right: seq<Prof>, i: nat, j: nat)
    requires i < |left|
    ensures Partner(left, right, left[i]) == Some(j) <==> Compared(left, right, i, j)
  {
    hide CountNamed, FindName;
    if left[i].name.Some? {
      var name := left[i].name.value;
      NamedOnce(left, i, name);
      forall k: nat | k < |right| && right[k].name == Some(name)
        ensures CountNamed(right, name) == 1 <==> forall m :: 0 <= m < |right| && m != k ==> right[m].name != Some(name)
      {
        NamedOnce(right, k, name);
      }
    }
  }

  lemma NamedOnce(ps: seq<Prof>, at: nat, name: string)
    requires at < |ps| && ps[at].name == Some(name)
    ensures CountNamed(ps, name) == 1 <==> forall k :: 0 <= k < |ps| && k != at ==> ps[k].name != Some(name)
  {
    hide CountNamed;
    if forall k :: 0 <= k < |ps| && k != at ==> ps[k].name != Some(name) {
      NamedHere(ps, at, name);
    } else {
      var k: nat :| k < |ps| && k != at && ps[k].name == Some(name);
      NamedTwice(ps, if k < at then k else at, if k < at then at else k, name);
    }
  }

  lemma {:induction false} NamedHere(ps: seq<Prof>, at: nat, name: string)
    requires at < |ps| && ps[at].name == Some(name)
    requires forall k :: 0 <= k < |ps| && k != at ==> ps[k].name != Some(name)
    ensures CountNamed(ps, name) == 1
  {
    var n := |ps| - 1;
    if at < n {
      NamedHere(ps[..n], at, name);
    } else {
      NoneNamed(ps[..n], name);
    }
  }

  lemma {:induction false} NoneNamed(ps: seq<Prof>, name: string)
    requires forall k :: 0 <= k < |ps| ==> ps[k].name != Some(name)
    ensures CountNamed(ps, name) == 0
  {
    if ps != [] {
      NoneNamed(ps[..|ps| - 1], name);
    }
  }

  ghost predicate HasPartner(left: seq<Prof>, right: seq<Prof>, i: nat) {
    exists j: nat :: Compared(left, right, i, j)
  }

  ghost predicate IsPartner(left: seq<Prof>, right: seq<Prof>, j: nat) {
    exists i: nat :: Compared(left, right, i, j)
  }

  lemma {:induction false} TakenExactlyWhen(left: seq<Prof>, right: seq<Prof>, k: nat, j: nat)
    requires k <= |left|
    ensures Taken(left, right, k, j) <==> exists i: nat :: i < k && Compared(left, right, i, j)
  {
    hide Compared, Partner;
    if k > 0 {
      TakenExactlyWhen(left, right, k - 1, j);
      PartnerExactlyWhen(left, right, k - 1, j);
    }
  }

  // ----- Who is left unpaired -----

  /** Those of the first `n` of `right` that none of the first `k` of `left` is compared with. */
  function NotTaken(left: seq<Prof>, right: seq<Prof>, k: nat, n: nat): seq<Prof>
    requires k <= |left| && n <= |right|
  {
    if n == 0 then []
    else NotTaken(left, right, k, n - 1) + if Taken(left, right, k, n - 1) then [] else [right[n - 1]]
  }

  lemma {:induction false} UnpairedAre(left: seq<Prof>, right: seq<Prof>, dec: Decoder, k: nat)
    requires Decoded(right, dec) && k <= |left|
    ensures Unpaired(left, right, k) == NotTaken(left, right, k, |right|)
  {
    hide Partner, WithoutHex;
    if k == 0 {
      AllNotTaken(left, right, |right|);
      assert right[..|right|] == right;
    } else {
      UnpairedAre(left, right, dec, k - 1);
      NotTakenNext(left, right, dec, k, |right|);
    }
  }

  lemma {:induction false} AllNotTaken(left: seq<Prof>, right: seq<Prof>, n: nat)
    requires n <= |right|
    ensures NotTaken(left, right, 0, n) == right[..n]
  {
    if n > 0 {
      AllNotTaken(left, right, n - 1);
    }
  }

  lemma {:induction false} NotTakenNext(left: seq<Prof>, right: seq<Prof>, dec: Decoder, k: nat, n: nat)
    requires Decoded(right, dec) && 0 < k <= |left| && n <= |right|
    ensures NotTaken(left, right, k, n) == Less(left, right, k - 1, NotTaken(left, right, k - 1, n))
  {
    hide Partner, CountNamed, FindName, Taken, Decoded, WithoutHex, Less;
    if n == 0 {
      NothingLess(left, right, k - 1);
    } else {
      NotTakenNext(left, right, dec, k, n - 1);
      LessSnoc(left, right, dec, k - 1, n - 1, NotTaken(left, right, k - 1, n - 1));
    }
  }

  /** `ps` without whom `left[i]` is paired with. */
  function Less(left: seq<Prof>, right: seq<Prof>, i: nat, ps: seq<Prof>): seq<Prof>
    requires i < |left|
  {
    var partner := Partner(left, right, left[i]);
    if partner.Some? then WithoutHex(ps, right[partner.value].entry.hex) else ps
  }

  lemma NothingLess(left: seq<Prof>, right: seq<Prof>, i: nat)
    requires i < |left|
    ensures Less(left, right, i, []) == []
  {
  }

  lemma LessSnoc(left: seq<Prof>, right: seq<Prof>, dec: Decoder, i: nat, j: nat, ps: seq<Prof>)
    requires Decoded(right, dec) && i < |left| && j < |right|
    ensures Less(left, right, i, ps) + (if Taken(left, right, i + 1, j) then [] else [right[j]]) ==
            Less(left, right, i, ps + if Taken(left, right, i, j) then [] else [right[j]])
  {
    hide CountNamed, FindName, WithoutHex, Decoded, Partner;
    var partner := Partner(left, right, left[i]);
    assert Taken(left, right, i + 1, j) == (partner == Some(j) || Taken(left, right, i, j));
    if partner.Some? {
      HeldByThePartner(left, right, dec, i, j);
      WithoutHexSnoc(ps, right[j], right[partner.value].entry.hex);
      if Taken(left, right, i, j) {
        assert ps + [] == ps;
      }
    }
  }

  lemma HeldByThePartner(left: seq<Prof>, right: seq<Prof>, dec: Decoder, i: nat, j: nat)
    requires Decoded(right, dec) && i < |left| && j < |right| && Partner(left, right, left[i]).Some?
    ensures right[j].entry.hex == right[Partner(left, right, left[i]).value].entry.hex <==>
            Partner(left, right, left[i]) == Some(j)
  {
    UniqueNameHeldOnce(right, dec, Partner(left, right, left[i]).value);
  }

  lemma WithoutHexSnoc(ps: seq<Prof>, p: Prof, hex: string)
    ensures WithoutHex(ps + [p], hex) == WithoutHex(ps, hex) + if p.entry.hex != hex then [p] else []
  {
    assert (ps + [p])[..|ps|] == ps;
  }

  lemma {:induction false} NotTakenMembers(left: seq<Prof>, right: seq<Prof>, k: nat, n: nat, p: Prof)
    requires k <= |left| && n <= |right|
    ensures p in NotTaken(left, right, k, n) <==> exists j: nat :: j < n && right[j] == p && !Taken(left, right, k, j)
  {
    if n > 0 {
      NotTakenMembers(left, right, k, n - 1, p);
    }
  }

  // ----- What is said of a pair -----

  function Plain(f: ProfileField): string {
    match f.secret
    case Some(s) => s
    case None => f.value
  }

  ghost predicate RowDiffers(p: Prof, q: Prof, k: nat) {
    k < |p.fields| && k < |q.fields| && Plain(p.fields[k]) != Plain(q.fields[k])
  }

  /** Row `k` under its caption, with the two values, or with none when either side holds it as a secret. */
  ghost predicate RowEntry(c: Change, p: Prof, q: Prof, k: nat) {
    && RowDiffers(p, q, k) && p.name.Some? && c.difference == Changed
    && var secret := p.fields[k].secret.Some? || q.fields[k].secret.Some?;
    && c.item == FieldRow(Named(p.name.value), p.fields[k].caption, secret)
    && c.a == (if secret then None else Some(Text(p.fields[k].value)))
    && c.b == (if secret then None else Some(Text(q.fields[k].value)))
  }

  /** Nothing the rows show differs, and the bytes do. */
  ghost predicate HiddenEntry(c: Change, p: Prof, q: Prof) {
    && (forall k: nat :: !RowDiffers(p, q, k)) && p.entry.hex != q.entry.hex && p.name.Some?
    && c == Change(HiddenPart(Named(p.name.value)), Changed, Some(ByteCount(|p.entry.hex| / 2)),
                   Some(ByteCount(|q.entry.hex| / 2)))
  }

  lemma {:induction false} RowsSaid(p: Prof, q: Prof, n: nat, c: Change)
    requires n <= |p.fields| && n <= |q.fields| && p.name.Some?
    ensures c in RowChanges(p, q, n) <==> exists k: nat :: k < n && RowEntry(c, p, q, k)
  {
    hide RowEntry;
    if n > 0 {
      RowsSaid(p, q, n - 1, c);
      OneRow(p, q, n - 1, c);
    }
  }

  lemma OneRow(p: Prof, q: Prof, k: nat, c: Change)
    requires k < |p.fields| && k < |q.fields| && p.name.Some?
    ensures c in FieldRowChange(p, p.fields[k], q.fields[k]) <==> RowEntry(c, p, q, k)
  {
  }

  lemma PairSaid(p: Prof, q: Prof, c: Change)
    requires p.name.Some?
    ensures c in PairChanges(p, q) <==> (exists k: nat :: RowEntry(c, p, q, k)) || HiddenEntry(c, p, q)
  {
    hide RowEntry, RowChanges;
    var n := Rows(p, q);
    forall x
      ensures x in RowChanges(p, q, n) <==> exists k: nat :: RowEntry(x, p, q, k)
    {
      RowsSaid(p, q, n, x);
      RowsAreWithin(p, q, x);
    }
    SomeRow(p, q);
    if x, k: nat :| RowEntry(x, p, q, k) {
      assert x in RowChanges(p, q, n);
    }
    if RowChanges(p, q, n) != [] {
      assert RowChanges(p, q, n)[0] in RowChanges(p, q, n);
    }
  }

  lemma RowsAreWithin(p: Prof, q: Prof, c: Change)
    ensures forall k: nat :: RowEntry(c, p, q, k) ==> k < Rows(p, q)
  {
  }

  /** A row that differs has an entry, and an entry is of a row that differs. */
  lemma SomeRow(p: Prof, q: Prof)
    requires p.name.Some?
    ensures (exists c, k: nat :: RowEntry(c, p, q, k)) <==> exists k: nat :: RowDiffers(p, q, k)
  {
    if k: nat :| RowDiffers(p, q, k) {
      assert RowEntry(FieldRowChange(p, p.fields[k], q.fields[k])[0], p, q, k);
    }
  }

  // ----- The report -----

  ghost predicate LabelIs(l: Label, p: Prof) {
    if p.name.Some? then l == Named(p.name.value) else l == Undecodable(p.entry.slot)
  }

  /** The entry of a profile that only one side has. */
  ghost predicate WholeEntry(c: Change, p: Prof, side: Difference) {
    && c.item.Whole? && LabelIs(c.item.profile, p) && c.difference == side
    && c.a == (if side == OnlyInA then Some(ByteCount(|p.entry.hex| / 2)) else None)
    && c.b == (if side == OnlyInB then Some(ByteCount(|p.entry.hex| / 2)) else None)
  }

  ghost predicate LabelsAre(labels: seq<Label>, ps: seq<Prof>) {
    |labels| == |ps| && forall i :: 0 <= i < |ps| ==> LabelIs(labels[i], ps[i])
  }

  ghost predicate OrderEntry(c: Change, ca: seq<Prof>, cb: seq<Prof>) {
    && Hexes(ca) != Hexes(cb) && c.item == Order && c.difference == Changed
    && c.a.Some? && c.a.value.Labels? && LabelsAre(c.a.value.labels, ca)
    && c.b.Some? && c.b.value.Labels? && LabelsAre(c.b.value.labels, cb)
  }

  /** What is said of two lists: each leftover of either side once, in a pair or by itself, and the order. */
  ghost predicate ListEntry(c: Change, pa: seq<Prof>, pb: seq<Prof>) {
    var (left, right) := Cancel(pa, pb);
    || OrderEntry(c, Common(pa, left), Common(pb, right))
    || (exists i: nat, j: nat :: Compared(left, right, i, j) && PairEntry(c, left[i], right[j]))
    || (exists i: nat :: i < |left| && !HasPartner(left, right, i) && WholeEntry(c, left[i], OnlyInA))
    || (exists j: nat :: j < |right| && !IsPartner(left, right, j) && WholeEntry(c, right[j], OnlyInB))
  }

  ghost predicate PairEntry(c: Change, p: Prof, q: Prof) {
    (exists k: nat :: RowEntry(c, p, q, k)) || HiddenEntry(c, p, q)
  }

  lemma OrderSaid(ca: seq<Prof>, cb: seq<Prof>, c: Change)
    ensures c in OrderChange(ca, cb) <==> OrderEntry(c, ca, cb)
  {
    if OrderEntry(c, ca, cb) {
      assert c.a.value.labels == LabelsOf(ca) && c.b.value.labels == LabelsOf(cb);
    }
  }

  ghost predicate LeftEntry(c: Change, left: seq<Prof>, right: seq<Prof>, i: nat) {
    && i < |left|
    && if HasPartner(left, right, i)
       then exists j: nat :: Compared(left, right, i, j) && PairEntry(c, left[i], right[j])
       else WholeEntry(c, left[i], OnlyInA)
  }

  lemma OneLeftSaid(left: seq<Prof>, right: seq<Prof>, i: nat, c: Change)
    requires i < |left|
    ensures c in LeftChange(left, right, left[i]) <==> LeftEntry(c, left, right, i)
  {
    hide Compared, Partner, PairChanges, PairEntry;
    var partner := Partner(left, right, left[i]);
    forall j: nat
      ensures partner == Some(j) <==> Compared(left, right, i, j)
    {
      PartnerExactlyWhen(left, right, i, j);
    }
    if partner.Some? {
      assert Compared(left, right, i, partner.value);
      PairIs(left[i], right[partner.value], c);
    }
  }

  lemma PairIs(p: Prof, q: Prof, c: Change)
    requires p.name.Some?
    ensures c in PairChanges(p, q) <==> PairEntry(c, p, q)
  {
    PairSaid(p, q, c);
  }

  lemma {:induction false} LeftSaid(left: seq<Prof>, right: seq<Prof>, k: nat, c: Change)
    requires k <= |left|
    ensures c in LeftChanges(left, right, k) <==> exists i: nat :: i < k && LeftEntry(c, left, right, i)
  {
    hide LeftEntry, LeftChange;
    LeftChangesUnfold(left, right, k);
    if k > 0 {
      LeftSaid(left, right, k - 1, c);
      OneLeftSaid(left, right, k - 1, c);
    }
  }

  lemma RightSaid(left: seq<Prof>, right: seq<Prof>, dec: Decoder, c: Change)
    requires Decoded(right, dec)
    ensures c in RightChanges(Unpaired(left, right, |left|)) <==>
            exists j: nat :: j < |right| && !IsPartner(left, right, j) && WholeEntry(c, right[j], OnlyInB)
  {
    hide Taken, Unpaired, NotTaken, Compared;
    var rest := Unpaired(left, right, |left|);
    UnpairedAre(left, right, dec, |left|);
    forall j: nat | j < |right|
      ensures Taken(left, right, |left|, j) <==> IsPartner(left, right, j)
    {
      TakenExactlyWhen(left, right, |left|, j);
      ComparedIsWithin(left, right, j);
    }
    WholesSaid(rest, c);
    forall p
      ensures p in rest <==> exists j: nat :: j < |right| && right[j] == p && !Taken(left, right, |left|, j)
    {
      NotTakenMembers(left, right, |left|, |right|, p);
    }
  }

  lemma ComparedIsWithin(left: seq<Prof>, right: seq<Prof>, j: nat)
    ensures forall i: nat :: Compared(left, right, i, j) ==> i < |left|
  {
  }

  lemma WholesSaid(ps: seq<Prof>, c: Change)
    ensures c in RightChanges(ps) <==> exists p :: p in ps && WholeEntry(c, p, OnlyInB)
  {
    if p :| p in ps && WholeEntry(c, p, OnlyInB) {
      var i :| 0 <= i < |ps| && ps[i] == p;
      assert RightChanges(ps)[i] == c;
    }
    if c in RightChanges(ps) {
      var i :| 0 <= i < |ps| && RightChanges(ps)[i] == c;
      assert ps[i] in ps && WholeEntry(c, ps[i], OnlyInB);
    }
  }

  /** The report on two lists is exactly these entries. */
  lemma ListSaidExactly(pa: seq<Prof>, pb: seq<Prof>, dec: Decoder, c: Change)
    requires Decoded(pa, dec) && Decoded(pb, dec)
    ensures c in ListChanges(pa, pb) <==> ListEntry(c, pa, pb)
  {
    hide Cancel, OrderEntry, OrderChange, Common, LeftChanges, RightChanges, Unpaired, PairEntry, WholeEntry, Compared;
    var (left, right) := Cancel(pa, pb);
    CancelledDecoded(pa, pb, dec);
    OrderSaid(Common(pa, left), Common(pb, right), c);
    LeftSaid(left, right, |left|, c);
    RightSaid(left, right, dec, c);
    LeftInBoth(left, right, c);
  }

  lemma LeftInBoth(left: seq<Prof>, right: seq<Prof>, c: Change)
    ensures (exists i: nat :: i < |left| && LeftEntry(c, left, right, i)) <==>
            || (exists i: nat, j: nat :: Compared(left, right, i, j) && PairEntry(c, left[i], right[j]))
            || (exists i: nat :: i < |left| && !HasPartner(left, right, i) && WholeEntry(c, left[i], OnlyInA))
  {
    hide PairEntry, WholeEntry;
    if i: nat, j: nat :| Compared(left, right, i, j) && PairEntry(c, left[i], right[j]) {
      assert LeftEntry(c, left, right, i);
    }
    if i: nat :| i < |left| && !HasPartner(left, right, i) && WholeEntry(c, left[i], OnlyInA) {
      assert LeftEntry(c, left, right, i);
    }
  }

  /** The active profile by name, `None` standing for no profile. */
  ghost predicate ActiveEntry(c: Change, a: Store, b: Store, pa: seq<Prof>, pb: seq<Prof>) {
    && a.activeSlot != b.activeSlot && (forall p :: p in pa || p in pb ==> p.name.Some?)
    && ActiveName(a, pa) != ActiveName(b, pb)
    && c == Change(Active, Changed, Some(ActiveLabel(AsLabel(ActiveName(a, pa)))),
                   Some(ActiveLabel(AsLabel(ActiveName(b, pb)))))
  }

  function AsLabel(name: Option<string>): Option<Label> {
    match name
    case Some(n) => Some(Named(n))
    case None => None
  }

  lemma ActiveSaid(a: Store, b: Store, pa: seq<Prof>, pb: seq<Prof>, c: Change)
    ensures c in ActiveChange(a, b, pa, pb) <==> ActiveEntry(c, a, b, pa, pb)
  {
    var all := pa + pb;
    assert forall i :: 0 <= i < |all| ==> all[i] in pa || all[i] in pb;
    assert forall p :: p in pa || p in pb ==> p in all;
    assert a.activeSlot.Some? && a.activeSlot.value < |pa| ==> pa[a.activeSlot.value] in pa;
    assert b.activeSlot.Some? && b.activeSlot.value < |pb| ==> pb[b.activeSlot.value] in pb;
  }

  /** The stored profiles as they are compared: the name and the rows where the blob can be decoded. */
  ghost predicate AreProfiles(ps: seq<Prof>, list: seq<ProfileEntry>, dec: Decoder) {
    && |ps| == |list|
    && forall i :: 0 <= i < |ps| ==>
         && ps[i].entry == list[i]
         && ps[i].name == (if dec(list[i].hex).Some? then Some(dec(list[i].hex).value.name) else None)
         && ps[i].fields == (if dec(list[i].hex).Some? then dec(list[i].hex).value.fields else [])
  }

  /** `out` holds exactly what is to be said of the two stores. */
  ghost predicate ReportIs(out: seq<Change>, a: Store, b: Store, pa: seq<Prof>, pb: seq<Prof>) {
    forall c :: c in out <==> ListEntry(c, pa, pb) || ActiveEntry(c, a, b, pa, pb)
  }

  lemma ReportIsExact(a: Store, b: Store, dec: Decoder, pa: seq<Prof>, pb: seq<Prof>, out: seq<Change>)
    requires AreProfiles(pa, a.profiles, dec) && AreProfiles(pb, b.profiles, dec)
    requires out == ListChanges(Profs(a.profiles, dec), Profs(b.profiles, dec))
                    + ActiveChange(a, b, Profs(a.profiles, dec), Profs(b.profiles, dec))
    ensures ReportIs(out, a, b, pa, pb)
  {
    hide ListChanges, ActiveChange, ListEntry, ActiveEntry;
    assert pa == Profs(a.profiles, dec) && pb == Profs(b.profiles, dec);
    forall c
      ensures c in out <==> ListEntry(c, pa, pb) || ActiveEntry(c, a, b, pa, pb)
    {
      ListSaidExactly(pa, pb, dec, c);
      ActiveSaid(a, b, pa, pb, c);
    }
  }

  /** Of two profiles that are compared, neither is said to be on one side only. */
  lemma PairedAreNotWhole(pa: seq<Prof>, pb: seq<Prof>, i: nat, j: nat, c: Change)
    requires Compared(Cancel(pa, pb).0, Cancel(pa, pb).1, i, j) && ListEntry(c, pa, pb) && c.item.Whole?
    ensures !LabelIs(c.item.profile, Cancel(pa, pb).0[i])
  {
    hide Cancel, Common;
    var (left, right) := Cancel(pa, pb);
    assert HasPartner(left, right, i) && IsPartner(left, right, j);
  }

  predicate SameState(a: FtpState, b: FtpState) {
    (a.NotOnModel? && b.NotOnModel?) || (a.ReadFailed? && b.ReadFailed? && a.tag == b.tag)
  }

  /** Compare two states; of two stores, the report is what the passes give, which is exactly what is to be said. */
  method FtpChanges(a: FtpState, b: FtpState, dec: Decoder) returns (out: seq<Change>)
    ensures a.Stored? && b.Stored? ==>
              var pa, pb := Profs(a.store.profiles, dec), Profs(b.store.profiles, dec);
              out == ListChanges(pa, pb) + ActiveChange(a.store, b.store, pa, pb)
    ensures a.Stored? && b.Stored? ==>
              forall pa, pb :: AreProfiles(pa, a.store.profiles, dec) && AreProfiles(pb, b.store.profiles, dec) ==>
                ReportIs(out, a.store, b.store, pa, pb)
    ensures !(a.Stored? && b.Stored?) ==>
              out == if a == b || (a.ReadFailed? && b.ReadFailed? && b == a.(detail := b.detail)) then []
              else [Change(Section, Changed, Some(State(a)), Some(State(b)))]
  {
    if !(a.Stored? && b.Stored?) {
      if SameState(a, b) {
        return [];
      }
      return [Change(Section, Changed, Some(State(a)), Some(State(b)))];
    }
    hide Cancel, OrderChange, ActiveChange, LeftChanges, RightChanges, Unpaired, ReportIs, AreProfiles;
    var pa, pb := Profs(a.store.profiles, dec), Profs(b.store.profiles, dec);
    var left, right := CancelOut(pa, pb);
    var orderA, _ := CancelOut(pa, left);
    var orderB, _ := CancelOut(pb, right);
    var paired, unpaired := LeftPass(left, right);
    var added := RightPass(unpaired);
    out := OrderChange(orderA, orderB) + paired + added + ActiveChange(a.store, b.store, pa, pb);
    forall p, q | AreProfiles(p, a.store.profiles, dec) && AreProfiles(q, b.store.profiles, dec)
      ensures ReportIs(out, a.store, b.store, p, q)
    {
      ReportIsExact(a.store, b.store, dec, p, q, out);
    }
  }
}
