// The bounded ring of completed entries: what one push does, and the closed form of a whole run of pushes.

module DiagRing {
  import opened Wrappers
  import opened DiagRecords
  import opened Sequences

  /** Entry `j` is evicted after entry `i`: it ranks higher, or equally and is newer. */
  predicate Beats(s: seq<Entry>, j: nat, i: nat) {
    && j < |s|
    && i < |s|
    && (EvictionRank(s[j]) > EvictionRank(s[i]) || (EvictionRank(s[j]) == EvictionRank(s[i]) && j > i))
  }

  /** Where the entry stands that every other one beats. */
  function Victim(ring: seq<Entry>): (v: nat)
    requires ring != []
    ensures v < |ring|
    ensures forall j: nat :: j < |ring| && j != v ==> Beats(ring, j, v)
  {
    VictimUpTo(ring, |ring|)
  }

  function VictimUpTo(ring: seq<Entry>, n: nat): (v: nat)
    requires 0 < n <= |ring|
    ensures v < n
    ensures forall j: nat :: j < n && j != v ==> Beats(ring, j, v)
  {
    if n == 1 then 0
    else
      var v := VictimUpTo(ring, n - 1);
      var last := n - 1;
      if EvictionRank(ring[last]) < EvictionRank(ring[v]) then
        assert forall j: nat :: j < last && Beats(ring, j, v) ==> Beats(ring, j, last);
        last
      else v
  }

  datatype Ring = Ring(kept: seq<Entry>, gone: seq<Entry>)

  /** Make room: evict until the ring is under its capacity. */
  function MakeRoom(r: Ring, cap: nat): (r': Ring)
    requires cap >= 1
    ensures |r'.kept| < cap
    ensures |r.kept| < cap ==> r' == r
    decreases |r.kept|
  {
    if |r.kept| < cap then r
    else
      var v := Victim(r.kept);
      MakeRoom(Ring(RemoveAt(r.kept, v), r.gone + [r.kept[v]]), cap)
  }

  function Push(r: Ring, e: Entry, cap: nat): (r': Ring)
    requires cap >= 1
    ensures 0 < |r'.kept| <= cap
  {
    var room := MakeRoom(r, cap);
    Ring(room.kept + [e], room.gone)
  }

  /** The ring after pushing `log`, oldest first, into `r`. */
  function PushAll(r: Ring, log: seq<Entry>, cap: nat): (r': Ring)
    requires cap >= 1
  {
    if log == [] then r
    else Push(PushAll(r, log[..|log| - 1], cap), log[|log| - 1], cap)
  }

  const EMPTY_RING := Ring([], [])

  function RingOf(log: seq<Entry>, cap: nat): Ring
    requires cap >= 1
  {
    PushAll(EMPTY_RING, log, cap)
  }

  lemma RingOfSnoc(log: seq<Entry>, e: Entry, cap: nat)
    requires cap >= 1
    ensures RingOf(log + [e], cap) == Push(RingOf(log, cap), e, cap)
  {
    assert (log + [e])[..|log|] == log;
  }

  lemma {:induction false} RingLength(log: seq<Entry>, cap: nat)
    requires cap >= 1
    ensures |RingOf(log, cap).kept| == if |log| < cap then |log| else cap
  {
    if log != [] {
      var shorter := RingOf(log[..|log| - 1], cap);
      RingLength(log[..|log| - 1], cap);
      MakeRoomOnce(shorter, cap);
    }
  }

  /** A ring never holds more than its capacity, so a push evicts at most once. */
  lemma MakeRoomOnce(r: Ring, cap: nat)
    requires cap >= 1 && |r.kept| <= cap
    ensures MakeRoom(r, cap) ==
            if |r.kept| < cap then r
            else Ring(RemoveAt(r.kept, Victim(r.kept)), r.gone + [r.kept[Victim(r.kept)]])
  {
    if |r.kept| == cap {
      var next := Ring(RemoveAt(r.kept, Victim(r.kept)), r.gone + [r.kept[Victim(r.kept)]]);
      assert MakeRoom(r, cap) == MakeRoom(next, cap);
    }
  }

  // ----- Conservation -----

  lemma {:induction false} PushConserves(log: seq<Entry>, cap: nat)
    requires cap >= 1
    ensures multiset(log) == multiset(RingOf(log, cap).kept) + multiset(RingOf(log, cap).gone)
  {
    if log != [] {
      var n := |log| - 1;
      var shorter := RingOf(log[..n], cap);
      PushConserves(log[..n], cap);
      RingLength(log[..n], cap);
      MakeRoomOnce(shorter, cap);
      assert log == log[..n] + [log[n]];
      if |shorter.kept| == cap {
        RemoveAtMultiset(shorter.kept, Victim(shorter.kept));
      }
    }
  }

  // ----- The closed form -----

  ghost predicate Increasing(idx: seq<nat>) {
    forall i, j :: 0 <= i < j < |idx| ==> idx[i] < idx[j]
  }

  function Select(log: seq<Entry>, idx: seq<nat>): (r: seq<Entry>)
    requires forall i :: 0 <= i < |idx| ==> idx[i] < |log|
    ensures |r| == |idx|
    ensures forall i :: 0 <= i < |idx| ==> r[i] == log[idx[i]]
  {
    seq(|idx|, i requires 0 <= i < |idx| => log[idx[i]])
  }

  /** Every chosen entry but the last beats every entry that was not chosen. */
  ghost predicate BeatsTheRest(log: seq<Entry>, idx: seq<nat>) {
    forall i, b: nat :: 0 <= i < |idx| - 1 && b < |log| && b !in idx ==> Beats(log, idx[i], b)
  }

  /** `idx` names, in push order, the newest entry and the best `cap - 1` of the earlier ones. */
  ghost predicate NewestAndBestEarlier(log: seq<Entry>, idx: seq<nat>, cap: nat) {
    && |idx| == (if |log| < cap then |log| else cap)
    && Increasing(idx)
    && (forall i :: 0 <= i < |idx| ==> idx[i] < |log|)
    && (log != [] && cap > 0 ==> idx[|idx| - 1] == |log| - 1)
    && BeatsTheRest(log, idx)
  }

  /** After any run of pushes the ring is exactly the newest entry plus the best `cap - 1` earlier ones. */
  lemma {:induction false} RingClosedForm(log: seq<Entry>, cap: nat) returns (idx: seq<nat>)
    requires cap >= 1
    ensures NewestAndBestEarlier(log, idx, cap)
    ensures RingOf(log, cap).kept == Select(log, idx)
  {
    if log == [] {
      idx := [];
    } else {
      var n := |log| - 1;
      var prior := RingClosedForm(log[..n], cap);
      var ring := RingOf(log[..n], cap);
      MakeRoomOnce(ring, cap);
      assert log == log[..n] + [log[n]];
      if |prior| < cap {
        idx := RoomStep(log[..n], prior, log[n], cap);
      } else {
        var v := Victim(ring.kept);
        idx := FullStep(log[..n], prior, log[n], cap, v);
        assert RingOf(log, cap).kept == RemoveAt(ring.kept, v) + [log[n]];
      }
    }
  }

  lemma RoomStep(log: seq<Entry>, prior: seq<nat>, e: Entry, cap: nat) returns (idx: seq<nat>)
    requires NewestAndBestEarlier(log, prior, cap) && |prior| < cap
    ensures NewestAndBestEarlier(log + [e], idx, cap)
    ensures Select(log, prior) + [e] == Select(log + [e], idx)
  {
    FullIncreasing(prior, |log|);
    idx := prior + [|log|];
    forall b: nat | b < |log + [e]|
      ensures b in idx
    {
      assert idx[b] == b;
    }
  }

  lemma {:induction false} FullIncreasing(idx: seq<nat>, n: nat)
    requires Increasing(idx) && |idx| == n && forall i :: 0 <= i < n ==> idx[i] < n
    ensures forall i :: 0 <= i < n ==> idx[i] == i
  {
    if n > 0 {
      var shorter := idx[..n - 1];
      assert forall i :: 0 <= i < n - 1 ==> shorter[i] == idx[i] < idx[n - 1];
      FullIncreasing(shorter, n - 1);
      assert n > 1 ==> shorter[n - 2] == n - 2;
    }
  }

  lemma FullStep(log: seq<Entry>, prior: seq<nat>, e: Entry, cap: nat, v: nat) returns (idx: seq<nat>)
    requires cap >= 1 && NewestAndBestEarlier(log, prior, cap) && |prior| == cap && v < cap
    requires forall i: nat :: i < cap && i != v ==> Beats(Select(log, prior), i, v)
    ensures NewestAndBestEarlier(log + [e], idx, cap)
    ensures RemoveAt(Select(log, prior), v) + [e] == Select(log + [e], idx)
  {
    idx := RemoveAt(prior, v) + [|log|];
    FullStepBeats(log, prior, e, v);
  }

  lemma FullStepBeats(log: seq<Entry>, idx: seq<nat>, e: Entry, v: nat)
    requires forall k :: 0 <= k < |idx| ==> idx[k] < |log|
    requires Increasing(idx) && BeatsTheRest(log, idx) && v < |idx|
    requires forall i: nat :: i < |idx| && i != v ==> Beats(Select(log, idx), i, v)
    ensures BeatsTheRest(log + [e], RemoveAt(idx, v) + [|log|])
  {
    var kept := RemoveAt(idx, v);
    var all := kept + [|log|];
    forall i, b: nat | 0 <= i < |all| - 1 && b < |log + [e]| && b !in all
      ensures Beats(log + [e], all[i], b)
    {
      var at := if i < v then i else i + 1;
      assert all[|kept|] == |log| && b != |log|;
      assert b !in kept;
      assert Beats(Select(log, idx), at, v);
      VictimLosesToKept(log, idx, v, at, b);
      assert all[i] == kept[i] == idx[at];
    }
  }

  lemma VictimLosesToKept(log: seq<Entry>, idx: seq<nat>, v: nat, i: nat, b: nat)
    requires forall k :: 0 <= k < |idx| ==> idx[k] < |log|
    requires Increasing(idx) && BeatsTheRest(log, idx)
    requires v < |idx| && i < |idx| && i != v && Beats(log, idx[i], idx[v])
    requires b < |log| && b !in RemoveAt(idx, v)
    ensures Beats(log, idx[i], b)
  {
    if b != idx[v] {
      NotElsewhere(idx, v, b);
      // Whichever of the two is not the newest entry beats `b`, by the closed form so far.
      assert v < |idx| - 1 ==> Beats(log, idx[v], b);
      assert i < |idx| - 1 ==> Beats(log, idx[i], b);
    }
  }

  lemma NotElsewhere(idx: seq<nat>, v: nat, b: nat)
    requires v < |idx| && b !in RemoveAt(idx, v) && b != idx[v]
    ensures b !in idx
  {
    forall k | 0 <= k < |idx|
      ensures idx[k] != b
    {
      if k != v {
        assert RemoveAt(idx, v)[if k < v then k else k - 1] == idx[k];
      }
    }
  }

  /** The closed form names one ring only. */
  lemma ClosedFormIsUnique(log: seq<Entry>, x: seq<nat>, y: seq<nat>, cap: nat)
    requires NewestAndBestEarlier(log, x, cap) && NewestAndBestEarlier(log, y, cap) && cap >= 1
    ensures x == y
  {
    MembersWithin(log, x, y, cap);
    MembersWithin(log, y, x, cap);
    IncreasingSameMembers(x, y);
  }

  lemma MembersWithin(log: seq<Entry>, x: seq<nat>, y: seq<nat>, cap: nat)
    requires NewestAndBestEarlier(log, x, cap) && NewestAndBestEarlier(log, y, cap) && cap >= 1
    ensures Members(x) <= Members(y)
  {
    forall a | a in Members(x)
      ensures a in Members(y)
    {
      if a !in y {
        var i: nat :| i < |x| && x[i] == a;
        var j := MemberOutside(y, x, a);
        NoExchange(log, x, y, cap, i, j);
      }
    }
  }

  /** Neither list can hold an entry the other lacks: each would beat the other. */
  lemma NoExchange(log: seq<Entry>, x: seq<nat>, y: seq<nat>, cap: nat, i: nat, j: nat)
    requires NewestAndBestEarlier(log, x, cap) && NewestAndBestEarlier(log, y, cap) && cap >= 1
    requires i < |x| && j < |y|
    ensures x[i] in y || y[j] in x
  {
    var a, b := x[i], y[j];
    assert a !in y ==> i < |x| - 1;
    assert b !in x ==> j < |y| - 1;
    assert a !in y && b !in x ==> Beats(log, a, b);
  }

  ghost function Members(x: seq<nat>): set<nat> {
    set i: nat | i in x
  }

  /** Of two equally long lists without repeats, a member missing from one is balanced by one missing from the other. */
  lemma MemberOutside(y: seq<nat>, x: seq<nat>, a: nat) returns (j: nat)
    requires Increasing(x) && Increasing(y) && |x| == |y|
    requires a in x && a !in y
    ensures j < |y| && y[j] !in x
  {
    CardinalityOfIncreasing(x);
    CardinalityOfIncreasing(y);
    assert a in Members(x);
    SubsetSize(Members(y), Members(x) - {a});
    var b :| b in Members(y) && b !in Members(x) - {a};
    j :| j < |y| && y[j] == b;
  }

  lemma {:induction false} SubsetSize(a: set<nat>, b: set<nat>)
    ensures a <= b ==> |a| <= |b|
    decreases a
  {
    if a != {} {
      var x :| x in a;
      SubsetSize(a - {x}, b - {x});
    }
  }

  lemma {:induction false} CardinalityOfIncreasing(x: seq<nat>)
    requires Increasing(x)
    ensures |Members(x)| == |x|
  {
    if x != [] {
      var n := |x| - 1;
      CardinalityOfIncreasing(x[..n]);
      WithoutLast(x);
      assert x[n] in Members(x);
    }
  }

  lemma {:induction false} IncreasingSameMembers(x: seq<nat>, y: seq<nat>)
    requires Increasing(x) && Increasing(y) && Members(x) == Members(y)
    ensures x == y
  {
    CardinalityOfIncreasing(x);
    CardinalityOfIncreasing(y);
    if x != [] {
      var n := |x| - 1;
      LastIsGreatest(x, y);
      LastIsGreatest(y, x);
      WithoutLast(x);
      WithoutLast(y);
      IncreasingSameMembers(x[..n], y[..n]);
      assert x == x[..n] + [x[n]] && y == y[..n] + [y[n]];
    }
  }

  lemma LastIsGreatest(x: seq<nat>, y: seq<nat>)
    requires Increasing(x) && Members(y) <= Members(x) && y != [] && x != []
    ensures y[|y| - 1] <= x[|x| - 1]
  {
    assert y[|y| - 1] in Members(y);
    var i: nat :| i < |x| && x[i] == y[|y| - 1];
  }

  lemma WithoutLast(x: seq<nat>)
    requires Increasing(x) && x != []
    ensures Increasing(x[..|x| - 1]) && Members(x[..|x| - 1]) == Members(x) - {x[|x| - 1]}
  {
    var n := |x| - 1;
    assert x == x[..n] + [x[n]];
    forall a | a in x[..n]
      ensures a != x[n]
    {
      var i: nat :| i < n && x[..n][i] == a;
    }
  }

  /** The entries before the newest that are evicted later than `log[at]`. */
  ghost function Better(log: seq<Entry>, at: nat): set<nat> {
    set j: nat | j < |log| - 1 && Beats(log, j, at)
  }

  /** A recorded entry is still in the ring exactly when it is the newest or fewer than `cap - 1` earlier ones beat
      it. */
  lemma RetainedExactlyWhen(log: seq<Entry>, idx: seq<nat>, cap: nat, at: nat)
    requires cap >= 1 && at < |log| && NewestAndBestEarlier(log, idx, cap)
    ensures at in idx <==> at == |log| - 1 || |Better(log, at)| < cap - 1
  {
    hide Better, BeatsTheRest, Increasing;
    if at < |log| - 1 {
      if at in idx {
        RetainedIsBeatenByFew(log, idx, cap, at);
      } else {
        EvictedIsBeatenByAll(log, idx, cap, at);
      }
    }
  }

  lemma RetainedIsBeatenByFew(log: seq<Entry>, idx: seq<nat>, cap: nat, at: nat)
    requires cap >= 1 && at < |log| - 1 && NewestAndBestEarlier(log, idx, cap) && at in idx
    ensures |Better(log, at)| < cap - 1
  {
    hide BeatsTheRest, Increasing, EvictionRank;
    CardinalityOfIncreasing(idx);
    var others := Members(idx) - {|log| - 1} - {at};
    forall j | j in Better(log, at)
      ensures j in others
    {
      AtIsNotBeaten(log, idx, cap, at, j);
    }
    SubsetSize(Better(log, at), others);
  }

  lemma EvictedIsBeatenByAll(log: seq<Entry>, idx: seq<nat>, cap: nat, at: nat)
    requires cap >= 1 && at < |log| - 1 && NewestAndBestEarlier(log, idx, cap) && at !in idx
    ensures |Better(log, at)| >= cap - 1
  {
    hide Increasing, Beats;
    CardinalityOfIncreasing(idx);
    AllRetained(log, idx, cap);
    var earlier := Members(idx) - {|log| - 1};
    forall j | j in earlier
      ensures j in Better(log, at)
    {
      var i :| 0 <= i < |idx| && idx[i] == j;
      assert Beats(log, idx[i], at);
    }
    SubsetSize(earlier, Better(log, at));
  }

  lemma AllRetained(log: seq<Entry>, idx: seq<nat>, cap: nat)
    requires NewestAndBestEarlier(log, idx, cap)
    ensures |log| <= cap ==> forall at: nat :: at < |log| ==> at in idx
  {
    if |log| <= cap {
      FullIncreasing(idx, |log|);
      forall at: nat | at < |log|
        ensures at in idx
      {
        assert idx[at] == at;
      }
    }
  }

  lemma AtIsNotBeaten(log: seq<Entry>, idx: seq<nat>, cap: nat, at: nat, j: nat)
    requires cap >= 1 && NewestAndBestEarlier(log, idx, cap)
    requires at in idx && at < |log| - 1 && j < |log| - 1 && Beats(log, j, at)
    ensures j in idx
  {
    var i :| 0 <= i < |idx| && idx[i] == at;
    assert j !in idx ==> Beats(log, idx[i], j);
  }

  // ----- A burst of routine entries -----

  /** The entries that rank above `r`, in order. */
  function Above(s: seq<Entry>, r: nat): seq<Entry> {
    if s == [] then []
    else Above(s[..|s| - 1], r) + if EvictionRank(s[|s| - 1]) > r then [s[|s| - 1]] else []
  }

  ghost predicate HasAtMost(s: seq<Entry>, r: nat) {
    exists i :: 0 <= i < |s| && EvictionRank(s[i]) <= r
  }

  lemma {:induction false} AboveRemoveLow(s: seq<Entry>, i: nat, r: nat)
    requires i < |s| && EvictionRank(s[i]) <= r
    ensures Above(RemoveAt(s, i), r) == Above(s, r)
  {
    var n := |s| - 1;
    if i == n {
      assert RemoveAt(s, i) == s[..n];
    } else {
      AboveRemoveLow(s[..n], i, r);
      assert RemoveAt(s, i)[..n - 1] == RemoveAt(s[..n], i);
    }
  }

  /**
   * A burst of any length of entries of rank at most `r` pushes out no entry above `r` when the ring has a free slot
   * or already holds an entry of rank at most `r`; otherwise it pushes out exactly one, the lowest-ranked oldest.
   */
  lemma {:induction false} BurstEvictsAtMostOne(ring: Ring, burst: seq<Entry>, r: nat, cap: nat)
    requires cap >= 1 && |ring.kept| <= cap
    requires forall e :: e in burst ==> EvictionRank(e) <= r
    ensures |PushAll(ring, burst, cap).kept| <= cap
    ensures burst != [] ==> HasAtMost(PushAll(ring, burst, cap).kept, r)
    ensures Above(PushAll(ring, burst, cap).kept, r) ==
            if burst == [] || |ring.kept| < cap || HasAtMost(ring.kept, r) then Above(ring.kept, r)
            else RemoveAt(ring.kept, Victim(ring.kept))
  {
    if burst != [] {
      var n := |burst| - 1;
      assert burst[n] in burst;
      BurstEvictsAtMostOne(ring, burst[..n], r, cap);
      PushLow(PushAll(ring, burst[..n], cap), burst[n], r, cap);
    }
  }

  lemma PushLow(ring: Ring, e: Entry, r: nat, cap: nat)
    requires cap >= 1 && |ring.kept| <= cap && EvictionRank(e) <= r
    ensures HasAtMost(Push(ring, e, cap).kept, r)
    ensures Above(Push(ring, e, cap).kept, r) ==
            if |ring.kept| < cap || HasAtMost(ring.kept, r) then Above(ring.kept, r)
            else RemoveAt(ring.kept, Victim(ring.kept))
  {
    var room := MakeRoom(ring, cap).kept;
    var after := Push(ring, e, cap).kept;
    MakeRoomOnce(ring, cap);
    assert after == room + [e] && after[..|after| - 1] == room && after[|after| - 1] == e;
    if |ring.kept| == cap {
      var v := Victim(ring.kept);
      if HasAtMost(ring.kept, r) {
        var i :| 0 <= i < |ring.kept| && EvictionRank(ring.kept[i]) <= r;
        assert i != v ==> Beats(ring.kept, i, v);
        AboveRemoveLow(ring.kept, v, r);
      } else {
        AllAbove(room, r);
      }
    }
  }

  lemma {:induction false} AllAbove(s: seq<Entry>, r: nat)
    requires forall i :: 0 <= i < |s| ==> EvictionRank(s[i]) > r
    ensures Above(s, r) == s
  {
    if s != [] {
      AllAbove(s[..|s| - 1], r);
    }
  }

  // ----- Who goes first, by what the entries are -----

  predicate Succeeded(e: Entry) {
    e.kind.Span? && e.outcome == Some(Success)
  }

  predicate UnsuccessfulCommand(e: Entry) {
    e.kind.Span? && e.cls.Top? && e.outcome != Some(Success)
  }

  /** An event, or a leaf that did not succeed. */
  predicate Incident(e: Entry) {
    e.kind.Event? || (e.cls.Leaf? && e.outcome != Some(Success))
  }

  predicate SameStanding(x: Entry, y: Entry) {
    || (UnsuccessfulCommand(x) && UnsuccessfulCommand(y))
    || (Incident(x) && Incident(y))
    || (Succeeded(x) && Succeeded(y) && x.cls == y.cls)
  }

  /**
   * Which entry of a full ring makes room: a command that did not succeed only where there is nothing else; an event
   * or an unsuccessful leaf only where no successful span is; a successful command only where no successful leaf is;
   * and of the entries that stand alike, the oldest.
   */
  ghost predicate GoesFirst(ring: seq<Entry>, v: nat) {
    && v < |ring|
    && (UnsuccessfulCommand(ring[v]) ==> forall j :: 0 <= j < |ring| ==> UnsuccessfulCommand(ring[j]))
    && (Incident(ring[v]) ==> forall j :: 0 <= j < |ring| ==> !Succeeded(ring[j]))
    && (Succeeded(ring[v]) && ring[v].cls.Top? ==>
          forall j :: 0 <= j < |ring| ==> !(Succeeded(ring[j]) && ring[j].cls.Leaf?))
    && (forall j :: 0 <= j < v ==> !SameStanding(ring[j], ring[v]))
  }

  /** One more entry: at the end, and with the ring full, for the one that goes first. */
  ghost predicate RoomMadeFor(was: seq<Entry>, e: Entry, cap: nat, now: seq<Entry>) {
    if |was| < cap then now == was + [e]
    else |was| == cap && exists v: nat :: GoesFirst(was, v) && now == was[..v] + was[v + 1..] + [e]
  }

  /** What `Beats` comes to, said of the entries' fields. */
  lemma BeatsOnFields(s: seq<Entry>, j: nat, i: nat)
    requires i < |s| && j < |s|
    ensures Beats(s, j, i) <==>
            || (UnsuccessfulCommand(s[j]) && !UnsuccessfulCommand(s[i]))
            || (Incident(s[j]) && Succeeded(s[i]))
            || (Succeeded(s[j]) && s[j].cls.Top? && Succeeded(s[i]) && s[i].cls.Leaf?)
            || (SameStanding(s[j], s[i]) && j > i)
  {
  }

  lemma VictimGoesFirst(ring: seq<Entry>)
    requires ring != []
    ensures GoesFirst(ring, Victim(ring))
  {
    hide EvictionRank, Beats;
    var v := Victim(ring);
    forall j: nat | j < |ring|
      ensures UnsuccessfulCommand(ring[v]) ==> UnsuccessfulCommand(ring[j])
      ensures Incident(ring[v]) ==> !Succeeded(ring[j])
      ensures Succeeded(ring[v]) && ring[v].cls.Top? ==> !(Succeeded(ring[j]) && ring[j].cls.Leaf?)
      ensures j < v ==> !SameStanding(ring[j], ring[v])
    {
      if j != v {
        BeatsOnFields(ring, j, v);
      }
    }
  }

  /** Every push of every run makes room in this order. */
  lemma EveryPushMakesRoom(log: seq<Entry>, e: Entry, cap: nat)
    requires cap >= 1
    ensures RoomMadeFor(RingOf(log, cap).kept, e, cap, RingOf(log + [e], cap).kept)
  {
    hide GoesFirst, Victim;
    var ring := RingOf(log, cap);
    RingOfSnoc(log, e, cap);
    RingLength(log, cap);
    MakeRoomOnce(ring, cap);
    if |ring.kept| == cap {
      VictimGoesFirst(ring.kept);
      assert RemoveAt(ring.kept, Victim(ring.kept)) + [e] ==
             ring.kept[..Victim(ring.kept)] + ring.kept[Victim(ring.kept) + 1..] + [e];
    }
  }

  /** Commands that did not succeed are pushed out by nothing but later ones. */
  lemma UnsuccessfulCommandsStay(log: seq<Entry>, idx: seq<nat>, cap: nat, at: nat)
    requires cap >= 1 && at < |log| && NewestAndBestEarlier(log, idx, cap) && UnsuccessfulCommand(log[at])
    ensures at in idx <==>
            at == |log| - 1 || |set j: nat | at < j < |log| - 1 && UnsuccessfulCommand(log[j])| < cap - 1
  {
    hide NewestAndBestEarlier, Beats, EvictionRank;
    RetainedExactlyWhen(log, idx, cap, at);
    var later := set j: nat | at < j < |log| - 1 && UnsuccessfulCommand(log[j]);
    forall j: nat | j < |log| - 1
      ensures j in Better(log, at) <==> j in later
    {
      BeatsOnFields(log, j, at);
    }
    assert Better(log, at) == later;
  }

  /** An event, the exit entry too, is pushed out by unsuccessful commands and by later incidents. */
  lemma IncidentsStay(log: seq<Entry>, idx: seq<nat>, cap: nat, at: nat)
    requires cap >= 1 && at < |log| && NewestAndBestEarlier(log, idx, cap) && Incident(log[at])
    ensures at in idx <==>
            || at == |log| - 1
            || |set j: nat | j < |log| - 1 && (UnsuccessfulCommand(log[j]) || (j > at && Incident(log[j])))| < cap - 1
  {
    hide NewestAndBestEarlier, Beats, EvictionRank;
    RetainedExactlyWhen(log, idx, cap, at);
    var better := set j: nat | j < |log| - 1 && (UnsuccessfulCommand(log[j]) || (j > at && Incident(log[j])));
    forall j: nat | j < |log| - 1
      ensures j in Better(log, at) <==> j in better
    {
      BeatsOnFields(log, j, at);
    }
    assert Better(log, at) == better;
  }
}
