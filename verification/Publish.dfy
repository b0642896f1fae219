// Publishing a new file under a name nobody may take twice (src/snapshot.rs): any number of publishers, their
// file-system operations interleaved in any order, any operation failing, any publisher dying between two of them.

module Publish {
  import opened Wrappers
  import opened Bytes

  /** A temporary's name: the process and a counter it never uses twice. */
  datatype Name = Name(pid: nat, n: nat)

  datatype Temp = Temp(name: Name, ino: nat)

  datatype Outcome = Published | AlreadyExists | OtherError

  datatype Phase = Naming | Writing | Linking | Checking | Renaming | Removing | Finished | Died

  datatype Publisher = Publisher(
    pid: nat,
    bytes: seq<byte>,
    phase: Phase,
    temp: Option<Temp>,
    done: nat,
    outcome: Option<Outcome>,
    removed: bool)

  /** The directory: what each name is a name of, and what the files hold. */
  datatype System = System(
    temps: map<Name, nat>,
    dest: Option<nat>,
    files: seq<seq<byte>>,
    next: map<nat, nat>,
    pubs: seq<Publisher>)
  {
    function Next(pid: nat): nat {
      if pid in next then next[pid] else 0
    }

    /** What a reader of the published name finds. */
    function Read(): Option<seq<byte>> {
      if dest.Some? && dest.value < |files| then Some(files[dest.value]) else None
    }
  }

  /** How a link goes: as the directory has it, or refused because there are no links here, or failing. */
  datatype LinkFault = LinkWorks | NoLinks | LinkFails

  datatype Event =
    | Create(works: bool)
    | Write(n: nat)
    | WriteFails
    | Sync(synced: bool)
    | Link(fault: LinkFault)
    | Check(answered: bool)
    | Rename(renamed: bool)
    | Remove(works: bool)
    | Die

  function PhaseOf(e: Event): Phase {
    match e
    case Create(_) => Naming
    case Write(_) => Writing
    case WriteFails => Writing
    case Sync(_) => Writing
    case Link(_) => Linking
    case Check(_) => Checking
    case Rename(_) => Renaming
    case Remove(_) => Removing
    case Die => Died
  }

  /** The publisher `i` makes the operation `e`; an operation it is not about to make changes nothing. */
  function Step(s: System, i: nat, e: Event): System
    requires i < |s.pubs|
  {
    var p := s.pubs[i];
    if e.Die? then
      if p.phase.Finished? then s else s.(pubs := s.pubs[i := p.(phase := Died)])
    else if p.phase != PhaseOf(e) then s
    else if e.Create? then StepCreate(s, i, e.works)
    else if p.temp.None? then s
    else
      var t := p.temp.value;
      match e
      case Write(n) =>
        var end := if p.done + n <= |p.bytes| then p.done + n else |p.bytes|;
        if t.ino < |s.files| && p.done <= end then
          s.(files := s.files[t.ino := s.files[t.ino] + p.bytes[p.done..end]], pubs := s.pubs[i := p.(done := end)])
        else s
      case WriteFails => s.(pubs := s.pubs[i := p.(phase := Removing, outcome := Some(OtherError))])
      case Sync(synced) =>
        if p.done < |p.bytes| then s
        else if synced then s.(pubs := s.pubs[i := p.(phase := Linking)])
        else s.(pubs := s.pubs[i := p.(phase := Removing, outcome := Some(OtherError))])
      case Link(fault) => StepLink(s, i, t, fault)
      case Check(answered) =>
        if answered && s.dest.Some? then s.(pubs := s.pubs[i := p.(phase := Removing, outcome := Some(AlreadyExists))])
        else s.(pubs := s.pubs[i := p.(phase := Renaming)])
      case Rename(renamed) =>
        if renamed then
          s.(dest := Some(t.ino), temps := s.temps - {t.name},
              pubs := s.pubs[i := p.(phase := Removing, outcome := Some(Published))])
        else s.(pubs := s.pubs[i := p.(phase := Removing, outcome := Some(OtherError))])
      case Remove(works) =>
        var gone := works || t.name !in s.temps;
        s.(temps := if gone then s.temps - {t.name} else s.temps,
            pubs := s.pubs[i := p.(phase := Finished, removed := gone)])
      case _ => s
  }

  /** A temporary is always a new file; a taken name costs one count and nothing else. */
  function StepCreate(s: System, i: nat, works: bool): System
    requires i < |s.pubs|
  {
    var p := s.pubs[i];
    var name := Name(p.pid, s.Next(p.pid));
    var t := s.(next := s.next[p.pid := s.Next(p.pid) + 1]);
    if !works then t.(pubs := s.pubs[i := p.(phase := Finished, outcome := Some(OtherError))])
    else if name in s.temps then t
    else
      t.(temps := s.temps[name := |s.files|], files := s.files + [[]],
         pubs := s.pubs[i := p.(phase := Writing, temp := Some(Temp(name, |s.files|)), done := 0)])
  }

  function StepLink(s: System, i: nat, t: Temp, fault: LinkFault): System
    requires i < |s.pubs|
  {
    var p := s.pubs[i];
    match fault
    case NoLinks => s.(pubs := s.pubs[i := p.(phase := Checking)])
    case LinkFails => s.(pubs := s.pubs[i := p.(phase := Removing, outcome := Some(OtherError))])
    case LinkWorks =>
      if s.dest.Some? then s.(pubs := s.pubs[i := p.(phase := Removing, outcome := Some(AlreadyExists))])
      else s.(dest := Some(t.ino), pubs := s.pubs[i := p.(phase := Removing, outcome := Some(Published))])
  }

  // ----- What every interleaving keeps -----

  /** Before anything: publishers about to begin, and whatever files and stale temporaries there are. */
  ghost predicate Initial(s: System) {
    && (forall i :: 0 <= i < |s.pubs| ==>
          s.pubs[i].phase.Naming? && s.pubs[i].temp.None? && s.pubs[i].outcome.None? && !s.pubs[i].removed)
    && (s.dest.Some? ==> s.dest.value < |s.files|)
    && (forall name <- s.temps :: s.temps[name] < |s.files|)
  }

  predicate AtWork(p: Publisher) {
    p.phase.Writing? || p.phase.Linking? || p.phase.Checking? || p.phase.Renaming?
  }

  /** What holds of one publisher and its temporary; files below `base` were there before. */
  ghost predicate Fits(s: System, p: Publisher, base: nat) {
    && (AtWork(p) || p.phase.Removing? ==> p.temp.Some?)
    && (p.phase.Naming? ==> p.temp.None?)
    && (p.phase.Naming? || AtWork(p) ==> p.outcome.None?)
    && (p.phase.Removing? || p.phase.Finished? ==> p.outcome.Some?)
    && (p.outcome == Some(Published) || p.outcome == Some(AlreadyExists) ==> p.temp.Some? && s.dest.Some?)
    && (p.phase.Finished? && p.temp.None? ==> p.outcome == Some(OtherError))
    && (p.temp.Some? ==>
          var t := p.temp.value;
          && base <= t.ino < |s.files|
          && t.name.pid == p.pid && t.name.n < s.Next(p.pid)
          && (AtWork(p) ==> t.name in s.temps && s.temps[t.name] == t.ino)
          && (p.phase.Writing? ==> p.done <= |p.bytes| && s.files[t.ino] == p.bytes[..p.done])
          && (p.phase.Linking? || p.phase.Checking? || p.phase.Renaming? || p.outcome == Some(Published) ==>
                s.files[t.ino] == p.bytes)
          && (p.outcome == Some(Published) <==> s.dest == Some(t.ino))
          && (p.removed ==> t.name !in s.temps))
    && (p.removed ==> p.phase.Finished?)
  }

  predicate Apart(p: Publisher, q: Publisher) {
    p.temp.Some? && q.temp.Some? ==> p.temp.value.name != q.temp.value.name && p.temp.value.ino != q.temp.value.ino
  }

  predicate Won(s: System, i: nat) {
    i < |s.pubs| && s.pubs[i].outcome == Some(Published)
  }

  ghost predicate Inv(s: System, base: nat, first: Option<nat>) {
    && base <= |s.files|
    && (first.Some? ==> first.value < base && s.dest == first)
    && (first.None? && s.dest.Some? ==> exists i: nat :: Won(s, i))
    && (forall i :: 0 <= i < |s.pubs| ==> Fits(s, s.pubs[i], base))
    && (forall i, j :: 0 <= i < j < |s.pubs| ==> Apart(s.pubs[i], s.pubs[j]))
  }

  /** The rename that stands in for a link is about to replace a file that has come since it was looked for. */
  predicate Overwrites(s: System, i: nat, e: Event) {
    i < |s.pubs| && e == Rename(true) && s.pubs[i].phase.Renaming? && s.pubs[i].temp.Some? && s.dest.Some?
  }

  /** All a step touches outside the publisher that makes it: its own file and temporary, or a free published name. */
  ghost predicate Touches(s: System, t: System, i: nat) {
    && |t.pubs| == |s.pubs| && i < |s.pubs|
    && (forall k :: 0 <= k < |s.pubs| && k != i ==> t.pubs[k] == s.pubs[k])
    && t.pubs[i].pid == s.pubs[i].pid
    && |s.files| <= |t.files|
    && (s.pubs[i].temp.Some? ==> t.pubs[i].temp == s.pubs[i].temp)
    && (s.pubs[i].temp.None? && t.pubs[i].temp.Some? ==>
          t.pubs[i].temp.value == Temp(Name(s.pubs[i].pid, s.Next(s.pubs[i].pid)), |s.files|))
    && (forall k :: 0 <= k < |s.files| && (s.pubs[i].temp.None? || s.pubs[i].temp.value.ino != k) ==>
       t.files[k] == s.files[k])
    && (forall n :: (t.pubs[i].temp.None? || n != t.pubs[i].temp.value.name) ==>
          (n in t.temps <==> n in s.temps) && (n in s.temps ==> t.temps[n] == s.temps[n]))
    && (forall pid :: s.Next(pid) <= t.Next(pid))
    && (t.dest == s.dest || (s.dest.None? && t.pubs[i].temp.Some? && t.dest == Some(t.pubs[i].temp.value.ino)))
  }

  lemma StepTouches(s: System, i: nat, e: Event, base: nat)
    requires i < |s.pubs| && Fits(s, s.pubs[i], base) && !Overwrites(s, i, e)
    ensures Touches(s, Step(s, i, e), i)
  {
    if e.Create? {
      CreateTouches(s, i, e.works);
    } else {
      LaterTouches(s, i, e, base);
    }
  }

  lemma CreateTouches(s: System, i: nat, works: bool)
    requires i < |s.pubs| && (s.pubs[i].phase.Naming? ==> s.pubs[i].temp.None?)
    ensures Touches(s, Step(s, i, Create(works)), i)
  {
  }

  lemma LaterTouches(s: System, i: nat, e: Event, base: nat)
    requires i < |s.pubs| && Fits(s, s.pubs[i], base) && !Overwrites(s, i, e) && !e.Create?
    ensures Touches(s, Step(s, i, e), i)
  {
    hide StepCreate;
    if e.Write? {
      WritingTouches(s, i, e, base);
    } else {
      NamingTouches(s, i, e, base);
    }
  }

  lemma WritingTouches(s: System, i: nat, e: Event, base: nat)
    requires i < |s.pubs| && Fits(s, s.pubs[i], base) && e.Write?
    ensures Touches(s, Step(s, i, e), i)
  {
    hide StepCreate, StepLink;
  }

  lemma NamingTouches(s: System, i: nat, e: Event, base: nat)
    requires i < |s.pubs| && Fits(s, s.pubs[i], base) && !Overwrites(s, i, e) && !e.Create? && !e.Write?
    ensures Touches(s, Step(s, i, e), i)
  {
    hide StepCreate;
  }

  lemma SelfFits(s: System, i: nat, e: Event, base: nat)
    requires i < |s.pubs| && Fits(s, s.pubs[i], base) && base <= |s.files| && !Overwrites(s, i, e)
    requires s.dest.Some? ==> s.dest.value < |s.files|
    ensures Fits(Step(s, i, e), Step(s, i, e).pubs[i], base)
  {
    if e.Create? || e.Link? {
      OpensOrLinks(s, i, e, base);
    } else {
      WritesOrEnds(s, i, e, base);
    }
  }

  lemma OpensOrLinks(s: System, i: nat, e: Event, base: nat)
    requires i < |s.pubs| && Fits(s, s.pubs[i], base) && base <= |s.files| && (e.Create? || e.Link?)
    requires s.dest.Some? ==> s.dest.value < |s.files|
    ensures Fits(Step(s, i, e), Step(s, i, e).pubs[i], base)
  {
  }

  lemma WritesOrEnds(s: System, i: nat, e: Event, base: nat)
    requires i < |s.pubs| && Fits(s, s.pubs[i], base) && !Overwrites(s, i, e) && !e.Create? && !e.Link?
    ensures Fits(Step(s, i, e), Step(s, i, e).pubs[i], base)
  {
    hide StepCreate, StepLink;
    var p := s.pubs[i];
    if e.Write? && p.phase.Writing? {
      var end := if p.done + e.n <= |p.bytes| then p.done + e.n else |p.bytes|;
      assert p.bytes[..p.done] + p.bytes[p.done..end] == p.bytes[..end];
    }
    if e.Sync? && p.done >= |p.bytes| && p.phase.Writing? {
      assert p.bytes[..p.done] == p.bytes;
    }
  }

  lemma OtherFits(s: System, t: System, i: nat, j: nat, base: nat)
    requires Touches(s, t, i) && j < |s.pubs| && i != j
    requires Fits(s, s.pubs[i], base) && Fits(s, s.pubs[j], base) && Apart(s.pubs[i], s.pubs[j])
    requires s.dest.Some? ==> s.dest.value < |s.files|
    ensures Fits(t, t.pubs[j], base)
    ensures Apart(t.pubs[i], t.pubs[j])
  {
  }

  /** What has been published stays so, and the name is only ever given to a publisher's file. */
  lemma Wins(s: System, i: nat, e: Event, base: nat)
    requires i < |s.pubs| && Fits(s, s.pubs[i], base) && !Overwrites(s, i, e)
    ensures forall k :: Won(s, k) ==> Won(Step(s, i, e), k)
    ensures s.dest.None? && Step(s, i, e).dest.Some? ==> Won(Step(s, i, e), i)
  {
  }

  /** The published file is nobody's to write: its publisher has finished writing it. */
  lemma PublishedIsNotWritten(s: System, i: nat, e: Event, base: nat)
    requires i < |s.pubs| && Fits(s, s.pubs[i], base) && !Overwrites(s, i, e)
    requires s.dest.Some? && s.dest.value < |s.files|
    ensures Step(s, i, e).dest == s.dest && s.dest.value < |Step(s, i, e).files|
    ensures Step(s, i, e).files[s.dest.value] == s.files[s.dest.value]
  {
  }

  /** Every operation of every publisher, in any state reached, keeps all of it; and what the published name reads
      stays what it is once there is something to read. */
  lemma StepKeeps(s: System, i: nat, e: Event, base: nat, first: Option<nat>)
    requires Inv(s, base, first) && i < |s.pubs| && !Overwrites(s, i, e)
    requires s.dest.Some? ==> s.dest.value < |s.files|
    ensures Inv(Step(s, i, e), base, first)
    ensures s.Read().Some? ==> Step(s, i, e).Read() == s.Read() && Step(s, i, e).dest == s.dest
    ensures Step(s, i, e).dest.Some? ==> Step(s, i, e).dest.value < |Step(s, i, e).files|
  {
    hide Step, Fits, Apart, Won, Overwrites;
    var t := Step(s, i, e);
    StepTouches(s, i, e, base);
    SelfFits(s, i, e, base);
    forall j | 0 <= j < |s.pubs| && j != i ensures Fits(t, t.pubs[j], base) && Apart(t.pubs[i], t.pubs[j]) {
      ApartEitherWay(s.pubs[j], s.pubs[i]);
      OtherFits(s, t, i, j, base);
    }
    forall k, j | 0 <= k < j < |t.pubs| ensures Apart(t.pubs[k], t.pubs[j]) {
      ApartEitherWay(t.pubs[j], t.pubs[k]);
    }
    Wins(s, i, e, base);
    if s.dest.Some? {
      PublishedIsNotWritten(s, i, e, base);
    }
    TempIsAFile(t, t.pubs[i], base);
  }

  lemma ApartEitherWay(p: Publisher, q: Publisher)
    ensures Apart(p, q) <==> Apart(q, p)
  {
  }

  lemma TempIsAFile(s: System, p: Publisher, base: nat)
    requires Fits(s, p, base)
    ensures p.temp.Some? ==> base <= p.temp.value.ino < |s.files|
  {
  }

  // ----- Runs -----

  datatype Move = Move(i: nat, e: Event)

  function Take(s: System, m: Move): (t: System)
    ensures |t.pubs| == |s.pubs|
  {
    if m.i < |s.pubs| then Step(s, m.i, m.e) else s
  }

  function Run(s: System, moves: seq<Move>): System
    decreases |moves|
  {
    if moves == [] then s else Run(Take(s, moves[0]), moves[1..])
  }

  /** No rename in the run replaces a file. */
  predicate Clean(s: System, moves: seq<Move>)
    decreases |moves|
  {
    moves == [] || (!Overwrites(s, moves[0].i, moves[0].e) && Clean(Take(s, moves[0]), moves[1..]))
  }

  /** Once the name is a file's it stays that file's, with what it held, after every operation of the run. */
  predicate Settled(s: System, moves: seq<Move>)
    decreases |moves|
  {
    || moves == []
    || (var t := Take(s, moves[0]);
        && (s.dest.Some? ==> t.dest == s.dest && t.Read() == s.Read())
        && Settled(t, moves[1..]))
  }

  ghost predicate Reached(s: System, base: nat, first: Option<nat>) {
    Inv(s, base, first) && (s.dest.Some? ==> s.dest.value < |s.files|)
  }

  lemma InitiallyReached(s: System)
    requires Initial(s)
    ensures Reached(s, |s.files|, s.dest)
  {
  }

  lemma TakeKeeps(s: System, m: Move, base: nat, first: Option<nat>)
    requires Reached(s, base, first) && !Overwrites(s, m.i, m.e)
    ensures Reached(Take(s, m), base, first)
    ensures s.dest.Some? ==> Take(s, m).dest == s.dest && Take(s, m).Read() == s.Read()
  {
    hide Inv, Step;
    if m.i < |s.pubs| {
      StepKeeps(s, m.i, m.e, base, first);
    }
  }

  lemma {:induction false} RunKeeps(s: System, moves: seq<Move>, base: nat, first: Option<nat>)
    requires Reached(s, base, first) && Clean(s, moves)
    ensures Reached(Run(s, moves), base, first)
    ensures s.Read().Some? ==> Run(s, moves).Read() == s.Read()
    decreases |moves|
  {
    hide Reached, Overwrites, Take;
    if moves != [] {
      TakeKeeps(s, moves[0], base, first);
      RunKeeps(Take(s, moves[0]), moves[1..], base, first);
      ReadIsDest(s, base, first);
    }
  }

  lemma ReadIsDest(s: System, base: nat, first: Option<nat>)
    requires Reached(s, base, first)
    ensures s.Read().Some? <==> s.dest.Some?
  {
  }

  /** Over every interleaving: a file that was there is never replaced and nobody publishes; otherwise the name is one
      publisher's whole file or nothing, and that publisher alone is told it published. */
  lemma AtMostOnePublishes(s: System, moves: seq<Move>)
    requires Initial(s) && Clean(s, moves)
    ensures var t := Run(s, moves);
            && (s.dest.Some? ==> t.Read() == s.Read() && forall i: nat :: !Won(t, i))
            && (forall i: nat, j: nat :: Won(t, i) && Won(t, j) ==> i == j)
            && (forall i: nat :: Won(t, i) ==> t.Read() == Some(t.pubs[i].bytes))
            && (s.dest.None? && t.Read().Some? ==> exists i: nat :: Won(t, i))
  {
    hide Initial, Run, Clean;
    InitiallyReached(s);
    RunKeeps(s, moves, |s.files|, s.dest);
    ReadIsDest(s, |s.files|, s.dest);
    var t := Run(s, moves);
    forall i: nat | Won(t, i) ensures t.Read() == Some(t.pubs[i].bytes) {
      assert Fits(t, t.pubs[i], |s.files|);
    }
    forall i: nat, j: nat | Won(t, i) && Won(t, j) ensures i == j {
      assert Fits(t, t.pubs[i], |s.files|) && Fits(t, t.pubs[j], |s.files|);
      assert i < j ==> Apart(t.pubs[i], t.pubs[j]);
      assert j < i ==> Apart(t.pubs[j], t.pubs[i]);
    }
  }

  /** When all have finished and nothing failed, a name that was free has been published, once. */
  lemma SomeonePublishes(s: System, moves: seq<Move>)
    requires Initial(s) && Clean(s, moves) && s.pubs != [] && s.dest.None?
    requires forall p <- Run(s, moves).pubs :: p.phase.Finished? && p.outcome != Some(OtherError)
    ensures exists i: nat :: Won(Run(s, moves), i)
  {
    hide Initial, Run, Clean;
    InitiallyReached(s);
    RunKeeps(s, moves, |s.files|, s.dest);
    SamePublishers(s, moves);
    var t := Run(s, moves);
    assert t.pubs[0] in t.pubs;
    assert Fits(t, t.pubs[0], |s.files|);
    assert t.pubs[0].phase.Finished? && t.pubs[0].outcome != Some(OtherError);
    var o := t.pubs[0].outcome.value;
    assert o.Published? || o.AlreadyExists? || o.OtherError?;
    assert t.dest.Some?;
  }

  lemma {:induction false} SamePublishers(s: System, moves: seq<Move>)
    ensures |Run(s, moves).pubs| == |s.pubs|
    decreases |moves|
  {
    if moves != [] {
      SamePublishers(Take(s, moves[0]), moves[1..]);
    }
  }

  /** Nothing published changes again exactly when no rename replaces a file. */
  lemma {:induction false} SettledExactlyWhenClean(s: System, moves: seq<Move>, base: nat, first: Option<nat>)
    requires Reached(s, base, first)
    ensures Settled(s, moves) <==> Clean(s, moves)
    decreases |moves|
  {
    hide Reached, Overwrites, Take;
    if moves != [] {
      var m := moves[0];
      if Overwrites(s, m.i, m.e) {
        Replaced(s, m, base, first);
      } else {
        TakeKeeps(s, m, base, first);
        SettledExactlyWhenClean(Take(s, m), moves[1..], base, first);
      }
    }
  }

  lemma Replaced(s: System, m: Move, base: nat, first: Option<nat>)
    requires Reached(s, base, first) && Overwrites(s, m.i, m.e)
    ensures s.dest.Some? && Take(s, m).dest.Some? && Take(s, m).dest != s.dest
  {
    assert Fits(s, s.pubs[m.i], base);
  }

  // ----- With links there is no rename -----

  predicate LinksOnly(moves: seq<Move>) {
    forall m <- moves :: m.e != Link(NoLinks)
  }

  predicate NoneFallsBack(s: System) {
    forall p <- s.pubs :: !p.phase.Checking? && !p.phase.Renaming?
  }

  lemma StepWithLinks(s: System, m: Move)
    requires NoneFallsBack(s) && m.e != Link(NoLinks)
    ensures NoneFallsBack(Take(s, m)) && !Overwrites(s, m.i, m.e)
  {
    if m.i < |s.pubs| {
      hide Step;
      var t := Take(s, m);
      assert s.pubs[m.i] in s.pubs;
      MovesForward(s, m.i, m.e);
    }
  }

  lemma MovesForward(s: System, i: nat, e: Event)
    requires i < |s.pubs| && !s.pubs[i].phase.Checking? && !s.pubs[i].phase.Renaming? && e != Link(NoLinks)
    ensures exists p :: Step(s, i, e).pubs == s.pubs[i := p] && !p.phase.Checking? && !p.phase.Renaming?
  {
    var t := Step(s, i, e);
    assert t.pubs == s.pubs[i := t.pubs[i]];
  }

  lemma {:induction false} LinksNeverReplace(s: System, moves: seq<Move>)
    requires NoneFallsBack(s) && LinksOnly(moves)
    ensures Clean(s, moves)
    decreases |moves|
  {
    hide NoneFallsBack, Overwrites, Take;
    if moves != [] {
      StepWithLinks(s, moves[0]);
      LinksNeverReplace(Take(s, moves[0]), moves[1..]);
    }
  }

  /** So with links available, whatever else fails and whoever dies, a name is published once and for all. */
  lemma WithLinksAtMostOnePublishes(s: System, moves: seq<Move>)
    requires Initial(s) && LinksOnly(moves)
    ensures var t := Run(s, moves);
            && Settled(s, moves)
            && (s.dest.Some? ==> t.Read() == s.Read() && forall i: nat :: !Won(t, i))
            && (forall i: nat, j: nat :: Won(t, i) && Won(t, j) ==> i == j)
            && (forall i: nat :: Won(t, i) ==> t.Read() == Some(t.pubs[i].bytes))
  {
    NoneHasBegun(s);
    hide Initial, Run, Clean, Settled, NoneFallsBack, Inv, Won, Reached;
    LinksNeverReplace(s, moves);
    InitiallyReached(s);
    SettledExactlyWhenClean(s, moves, |s.files|, s.dest);
    AtMostOnePublishes(s, moves);
  }

  lemma NoneHasBegun(s: System)
    requires Initial(s)
    ensures NoneFallsBack(s)
  {
  }

  /** Two publishers where there are no links: each looks, each renames, both are told they published, and what the
      first one's file held is gone. */
  lemma FallbackRaces(s: System)
    requires s == System(map[], None, [], map[], [Starting(1, [65]), Starting(2, [66])])
    ensures Initial(s)
    ensures var looked := Run(s, RaceUpToCheck());
            var first, both := Take(looked, Move(0, Rename(true))),
                Run(looked, [Move(0, Rename(true)), Move(1, Rename(true))]);
            && first.Read() == Some([65]) && both.Read() == Some([66])
            && Won(both, 0) && Won(both, 1)
  {
    hide Run, Staging, Step;
    var looked := Run(s, RaceUpToCheck());
    BothLook(s);
    RunTwo(looked, Move(0, Rename(true)), Move(1, Rename(true)));
    RenameWorks(looked, 0);
    RenameWorks(Take(looked, Move(0, Rename(true))), 1);
  }

  lemma BothLook(s: System)
    requires s == System(map[], None, [], map[], [Starting(1, [65]), Starting(2, [66])])
    ensures var t := Run(s, RaceUpToCheck());
            && t.files == [[65], [66]] && |t.pubs| == 2
            && t.pubs[0] == Starting(1, [65]).(phase := Renaming, temp := Some(Temp(Name(1, 0), 0)), done := 1)
            && t.pubs[1] == Starting(2, [66]).(phase := Renaming, temp := Some(Temp(Name(2, 0), 1)), done := 1)
  {
    hide Run, Staging;
    RunStaging(s, 0);
    var a := Run(s, Staging(0));
    RunStaging(a, 1);
    RunAppend(s, Staging(0), Staging(1));
  }

  lemma RenameWorks(s: System, i: nat)
    requires i < |s.pubs| && s.pubs[i].phase.Renaming? && s.pubs[i].temp.Some?
    ensures var t, p := Take(s, Move(i, Rename(true))), s.pubs[i];
            && t.dest == Some(p.temp.value.ino) && t.files == s.files
            && t.pubs == s.pubs[i := p.(phase := Removing, outcome := Some(Published))]
  {
  }

  function Starting(pid: nat, bytes: seq<byte>): Publisher {
    Publisher(pid, bytes, Naming, None, 0, None, false)
  }

  /** Everything a publisher does up to finding the name free. */
  function Staging(i: nat): seq<Move> {
    [Move(i, Create(true)), Move(i, Write(1)), Move(i, Sync(true)), Move(i, Link(NoLinks)), Move(i, Check(true))]
  }

  function RaceUpToCheck(): seq<Move> {
    Staging(0) + Staging(1)
  }

  lemma RunStaging(s: System, i: nat)
    requires i < |s.pubs| && s.dest.None? && |s.pubs[i].bytes| == 1 && s.pubs[i].phase.Naming?
    requires Name(s.pubs[i].pid, s.Next(s.pubs[i].pid)) !in s.temps
    ensures var p, name := s.pubs[i], Name(s.pubs[i].pid, s.Next(s.pubs[i].pid));
            Run(s, Staging(i)) ==
            System(s.temps[name := |s.files|], None, s.files + [p.bytes], s.next[p.pid := s.Next(p.pid) + 1],
                   s.pubs[i := p.(phase := Renaming, temp := Some(Temp(name, |s.files|)), done := 1)])
  {
    hide Take, System.Next;
    var m := Staging(i);
    var p, name := s.pubs[i], Name(s.pubs[i].pid, s.Next(s.pubs[i].pid));
    var t := System(s.temps[name := |s.files|], None, s.files + [p.bytes], s.next[p.pid := s.Next(p.pid) + 1], s.pubs);
    var q := p.(temp := Some(Temp(name, |s.files|)), done := 1, phase := Writing);
    CreateAndWrite(s, i);
    LooksUp(t.(pubs := s.pubs[i := q]), i);
    assert m[1..] == [m[1], m[2], m[3], m[4]] && m[1..][1..] == [m[2], m[3], m[4]];
    assert Run(s, m) == Run(t.(pubs := s.pubs[i := q]), [m[2], m[3], m[4]]);
  }

  lemma CreateAndWrite(s: System, i: nat)
    requires i < |s.pubs| && s.dest.None? && |s.pubs[i].bytes| == 1 && s.pubs[i].phase.Naming?
    requires Name(s.pubs[i].pid, s.Next(s.pubs[i].pid)) !in s.temps
    ensures var p, name := s.pubs[i], Name(s.pubs[i].pid, s.Next(s.pubs[i].pid));
            Take(Take(s, Move(i, Create(true))), Move(i, Write(1))) ==
            System(s.temps[name := |s.files|], None, s.files + [p.bytes], s.next[p.pid := s.Next(p.pid) + 1],
                   s.pubs[i := p.(phase := Writing, temp := Some(Temp(name, |s.files|)), done := 1)])
  {
    hide Take, System.Next;
    CreateWorks(s, i);
    WriteWorks(Take(s, Move(i, Create(true))), i);
    assert (s.files + [[]])[|s.files| := s.pubs[i].bytes] == s.files + [s.pubs[i].bytes];
  }

  lemma CreateWorks(s: System, i: nat)
    requires i < |s.pubs| && s.pubs[i].phase.Naming? && Name(s.pubs[i].pid, s.Next(s.pubs[i].pid)) !in s.temps
    ensures var p, name := s.pubs[i], Name(s.pubs[i].pid, s.Next(s.pubs[i].pid));
            Take(s, Move(i, Create(true))) ==
            s.(temps := s.temps[name := |s.files|], files := s.files + [[]], next := s.next[p.pid := s.Next(p.pid) + 1],
               pubs := s.pubs[i := p.(phase := Writing, temp := Some(Temp(name, |s.files|)), done := 0)])
  {
  }

  lemma WriteWorks(s: System, i: nat)
    requires i < |s.pubs| && s.pubs[i].phase.Writing? && s.pubs[i].done == 0 && |s.pubs[i].bytes| == 1
    requires s.pubs[i].temp.Some? && s.pubs[i].temp.value.ino < |s.files| && s.files[s.pubs[i].temp.value.ino] == []
    ensures var p := s.pubs[i];
            Take(s, Move(i, Write(1))) ==
            s.(files := s.files[p.temp.value.ino := p.bytes], pubs := s.pubs[i := p.(done := 1)])
  {
    var p := s.pubs[i];
    assert [] + p.bytes[0..1] == p.bytes;
  }

  lemma LooksUp(s: System, i: nat)
    requires i < |s.pubs| && s.pubs[i].phase.Writing? && s.pubs[i].done == |s.pubs[i].bytes| && s.pubs[i].temp.Some?
    requires s.dest.None?
    ensures Run(s, [Move(i, Sync(true)), Move(i, Link(NoLinks)), Move(i, Check(true))]) ==
            s.(pubs := s.pubs[i := s.pubs[i].(phase := Renaming)])
  {
    var p := s.pubs[i];
    var m := [Move(i, Sync(true)), Move(i, Link(NoLinks)), Move(i, Check(true))];
    var a := s.(pubs := s.pubs[i := p.(phase := Linking)]);
    assert Take(s, m[0]) == a;
    var b := s.(pubs := s.pubs[i := p.(phase := Checking)]);
    assert Take(a, m[1]) == b;
    assert m[1..] == [m[1], m[2]] && [m[1], m[2]][1..] == [m[2]] && [m[2]][1..] == [];
    assert Run(a, [m[1], m[2]]) == Run(b, [m[2]]);
    assert Run(b, [m[2]]) == Take(b, m[2]);
  }

  lemma RunTwo(s: System, x: Move, y: Move)
    ensures Run(s, [x, y]) == Take(Take(s, x), y)
  {
    assert [x, y][1..] == [y] && [y][1..] == [];
    assert Run(Take(s, x), [y]) == Take(Take(s, x), y);
  }

  lemma {:induction false} RunAppend(s: System, x: seq<Move>, y: seq<Move>)
    ensures Run(s, x + y) == Run(Run(s, x), y)
    decreases |x|
  {
    if x == [] {
      assert x + y == y;
    } else {
      assert (x + y)[1..] == x[1..] + y;
      RunAppend(Take(s, x[0]), x[1..], y);
    }
  }

  // ----- What is left behind -----

  /** Every temporary in the directory was there before or is one of a publisher that has not finished. */
  ghost predicate NoDebris(s: System, before: set<Name>) {
    forall n <- s.temps :: n in before || exists i :: Holds(s, i, n)
  }

  predicate Holds(s: System, i: nat, n: Name) {
    i < |s.pubs| && s.pubs[i].temp.Some? && s.pubs[i].temp.value.name == n && !s.pubs[i].phase.Finished?
  }

  lemma StepLeaves(s: System, m: Move, before: set<Name>, base: nat, first: Option<nat>)
    requires Reached(s, base, first) && NoDebris(s, before) && m.e != Remove(false) && !Overwrites(s, m.i, m.e)
    ensures NoDebris(Take(s, m), before)
  {
    hide Won;
    if m.i < |s.pubs| {
      var t := Take(s, m);
      StepTouches(s, m.i, m.e, base);
      MoverLeaves(s, m.i, m.e, base);
      hide Step;
      forall n | n in t.temps && n !in before ensures exists i :: Holds(t, i, n) {
        if Holds(t, m.i, n) {
        } else {
          assert n in s.temps;
          var i :| Holds(s, i, n);
          assert i != m.i;
          assert Holds(t, i, n);
        }
      }
    }
  }

  /** Publisher `m.i` takes away its own temporary: it removes it, and that works, or it renames it. */
  predicate TakesAway(s: System, m: Move, n: Name) {
    && Holds(s, m.i, n)
    && ((m.e == Remove(true) && s.pubs[m.i].phase.Removing?) || (m.e == Rename(true) && s.pubs[m.i].phase.Renaming?))
  }

  /** No temporary goes but by its own publisher's move: not by a removal that fails, and not by anyone else's. */
  lemma {:induction false} OnlyItsOwnerTakesItAway(s: System, moves: seq<Move>, n: Name)
    requires n in s.temps && n !in Run(s, moves).temps
    ensures exists k :: 0 <= k < |moves| && TakesAway(Run(s, moves[..k]), moves[k], n)
    decreases |moves|
  {
    hide Step, TakesAway;
    if n in Take(s, moves[0]).temps {
      OnlyItsOwnerTakesItAway(Take(s, moves[0]), moves[1..], n);
      var k :| 0 <= k < |moves[1..]| && TakesAway(Run(Take(s, moves[0]), moves[1..][..k]), moves[1..][k], n);
      assert moves[..k + 1][1..] == moves[1..][..k] && moves[..k + 1][0] == moves[0];
      assert TakesAway(Run(s, moves[..k + 1]), moves[k + 1], n);
    } else {
      StepTakesAway(s, moves[0], n);
      assert moves[..0] == [];
      assert TakesAway(Run(s, moves[..0]), moves[0], n);
    }
  }

  /** Every number a temporary was named with is below its process's counter. */
  ghost predicate Numbered(s: System) {
    forall i :: 0 <= i < |s.pubs| && s.pubs[i].temp.Some? ==>
      s.pubs[i].temp.value.name.n < s.Next(s.pubs[i].temp.value.name.pid)
  }

  lemma StepNumbers(s: System, m: Move, n: Name)
    ensures Numbered(s) ==> Numbered(Take(s, m))
    ensures n !in s.temps && n.n < s.Next(n.pid) ==> n !in Take(s, m).temps && n.n < Take(s, m).Next(n.pid)
  {
  }

  lemma {:induction false} NeverReturns(s: System, moves: seq<Move>, n: Name)
    ensures Numbered(s) ==> Numbered(Run(s, moves))
    ensures n !in s.temps && n.n < s.Next(n.pid) ==> n !in Run(s, moves).temps
    decreases |moves|
  {
    hide Step, Numbered;
    if moves != [] {
      StepNumbers(s, moves[0], n);
      NeverReturns(Take(s, moves[0]), moves[1..], n);
    }
  }

  /** A rename takes the temporary's name with it for good, so one that works leaves nothing, removal or no. */
  lemma RenamedIsGone(s: System, moves: seq<Move>, k: nat)
    requires Initial(s) && k < |moves|
    requires var u := Run(s, moves[..k]); var i := moves[k].i;
             i < |u.pubs| && moves[k].e == Rename(true) && u.pubs[i].phase.Renaming? && u.pubs[i].temp.Some?
    ensures Run(s, moves[..k]).pubs[moves[k].i].temp.value.name !in Run(s, moves).temps
  {
    hide Step, Run;
    var u, m := Run(s, moves[..k]), moves[k];
    var n := u.pubs[m.i].temp.value.name;
    NeverReturns(s, moves[..k], n);
    RenameMoves(u, m);
    StepNumbers(u, m, n);
    NeverReturns(Take(u, m), moves[k + 1..], n);
    assert moves == moves[..k] + ([m] + moves[k + 1..]);
    RunAppend(s, moves[..k], [m] + moves[k + 1..]);
    RunCons(u, m, moves[k + 1..]);
  }

  lemma RunCons(s: System, m: Move, moves: seq<Move>)
    ensures Run(s, [m] + moves) == Run(Take(s, m), moves)
  {
    assert ([m] + moves)[1..] == moves;
  }

  lemma RenameMoves(s: System, m: Move)
    requires Numbered(s) && m.i < |s.pubs| && m.e == Rename(true)
    requires s.pubs[m.i].phase.Renaming? && s.pubs[m.i].temp.Some?
    ensures var t := s.pubs[m.i].temp.value;
            t.name !in Take(s, m).temps && t.name.n < Take(s, m).Next(t.name.pid) && Take(s, m).dest == Some(t.ino)
  {
  }

  lemma StepTakesAway(s: System, m: Move, n: Name)
    requires n in s.temps && n !in Take(s, m).temps
    ensures TakesAway(s, m, n)
  {
  }

  /** The one who moves still holds its temporary, or the name is gone. */
  lemma MoverLeaves(s: System, i: nat, e: Event, base: nat)
    requires i < |s.pubs| && Fits(s, s.pubs[i], base) && e != Remove(false) && !Overwrites(s, i, e)
    ensures var p := Step(s, i, e).pubs[i];
            p.temp.Some? ==>
              || p.temp.value.name !in Step(s, i, e).temps
              || !p.phase.Finished? || s.pubs[i].phase.Finished?
  {
  }

  lemma {:induction false} FinishedLeaveNothing(s: System, moves: seq<Move>, before: set<Name>, base: nat,
      first: Option<nat>)
    requires Reached(s, base, first) && Clean(s, moves) && NoDebris(s, before)
    requires forall m <- moves :: m.e != Remove(false)
    ensures NoDebris(Run(s, moves), before)
    decreases |moves|
  {
    hide Reached, Overwrites, Take, NoDebris;
    if moves != [] {
      TakeKeeps(s, moves[0], base, first);
      StepLeaves(s, moves[0], before, base, first);
      FinishedLeaveNothing(Take(s, moves[0]), moves[1..], before, base, first);
    }
  }

  // ----- One publisher, undisturbed -----

  /** How the operations of one call go; a look at the published name is answered. */
  datatype Calls = Calls(create: bool, write: bool, sync: bool, link: LinkFault, rename: bool, remove: bool)

  /** What the call is to return, from whether the name is taken when it begins. */
  function Returned(taken: bool, c: Calls): Outcome {
    if !c.create || !c.write || !c.sync || c.link.LinkFails? then OtherError
    else if taken then AlreadyExists
    else if c.link.NoLinks? && !c.rename then OtherError
    else Published
  }

  /** Names of the process still ahead of its counter. */
  function Ahead(s: System, pid: nat): set<Name> {
    set n | n in s.temps && n.pid == pid && s.Next(pid) <= n.n
  }

  lemma PassesOver(s: System, i: nat)
    requires i < |s.pubs| && s.pubs[i].phase.Naming?
    ensures var t, p := Step(s, i, Create(true)), s.pubs[i];
            t.dest == s.dest &&
            if t.pubs[i].phase.Naming? then t.pubs == s.pubs && |Ahead(t, p.pid)| < |Ahead(s, p.pid)|
            else
              && t.pubs[i] == p.(phase := Writing, done := 0, temp := t.pubs[i].temp)
              && t.pubs[i].temp == Some(Temp(Name(p.pid, s.Next(p.pid)), |s.files|)) && t.files == s.files + [[]]
  {
    var p := s.pubs[i];
    var name := Name(p.pid, s.Next(p.pid));
    var t := Step(s, i, Create(true));
    if name in s.temps {
      assert name in Ahead(s, p.pid);
      assert Ahead(t, p.pid) == Ahead(s, p.pid) - {name};
    }
  }

  lemma {:induction false} OneMore(s: System, moves: seq<Move>, m: Move)
    ensures Run(s, moves + [m]) == Take(Run(s, moves), m)
    ensures Clean(s, moves + [m]) <==> Clean(s, moves) && !Overwrites(Run(s, moves), m.i, m.e)
    decreases |moves|
  {
    hide Overwrites, Take;
    if moves == [] {
      assert [m][1..] == [] && moves + [m] == [m];
      assert Run(s, [m]) == Run(Take(s, m), []);
    } else {
      assert (moves + [m])[1..] == moves[1..] + [m];
      OneMore(Take(s, moves[0]), moves[1..], m);
    }
  }

  /** A run of one publisher that replaces nothing. */
  ghost predicate Alone(s: System, moves: seq<Move>, t: System, i: nat) {
    t == Run(s, moves) && Clean(s, moves) && |t.pubs| == |s.pubs| && forall m <- moves :: m.i == i
  }

  lemma GoesOn(s: System, moves: seq<Move>, t: System, i: nat, e: Event)
    requires i < |s.pubs| && Alone(s, moves, t, i) && !Overwrites(t, i, e)
    ensures Alone(s, moves + [Move(i, e)], Step(t, i, e), i)
  {
    OneMore(s, moves, Move(i, e));
  }

  /** The loop that makes the temporary: it ends with one, or with the error that is returned. */
  method OpenTemp(s: System, i: nat, works: bool) returns (t: System, ghost moves: seq<Move>)
    requires i < |s.pubs| && s.pubs[i].phase.Naming?
    ensures Alone(s, moves, t, i) && |t.pubs| == |s.pubs| && t.dest == s.dest
    ensures if works then Opened(t, t.pubs[i])
            else t.pubs[i].phase.Finished? && t.pubs[i].outcome == Some(OtherError)
  {
    hide Step, Alone;
    t, moves := s, [];
    BeginRun(s, i);
    while t.pubs[i].phase.Naming?
      invariant Alone(s, moves, t, i) && |t.pubs| == |s.pubs| && t.dest == s.dest
      invariant t.pubs[i].phase.Naming? ||
                if works then Opened(t, t.pubs[i])
                else t.pubs[i].phase.Finished? && t.pubs[i].outcome == Some(OtherError)
      decreases t.pubs[i].phase.Naming?, |Ahead(t, t.pubs[i].pid)|
    {
      if works {
        PassesOver(t, i);
      } else {
        CreateFails(t, i);
      }
      GoesOn(s, moves, t, i, Create(works));
      t, moves := Step(t, i, Create(works)), moves + [Move(i, Create(works))];
    }
  }

  /** Give the written temporary its name: by a link, or where there are none by a checked rename. */
  method LinkOrRename(s: System, ghost before: seq<Move>, from: System, i: nat, calls: Calls)
    returns (t: System, ghost moves: seq<Move>)
    requires i < |s.pubs| && Alone(s, before, from, i) && |from.pubs| == |s.pubs|
    requires from.pubs[i].phase.Linking? && from.pubs[i].temp.Some?
    ensures Alone(s, moves, t, i) && |t.pubs| == |s.pubs| && t.pubs[i].phase.Removing? && t.pubs[i].temp.Some?
    ensures t.pubs[i].outcome ==
            Some(if calls.link.LinkFails? then OtherError else if from.dest.Some? then AlreadyExists
                 else if calls.link.NoLinks? && !calls.rename then OtherError else Published)
    ensures from.dest.Some? ==> t.dest == from.dest
    ensures from.dest.None? ==> (t.dest.Some? <==> t.pubs[i].outcome == Some(Published))
  {
    hide Step, Alone;
    LinkGoes(from, i, calls.link);
    GoesOn(s, before, from, i, Link(calls.link));
    t, moves := Step(from, i, Link(calls.link)), before + [Move(i, Link(calls.link))];
    if calls.link.NoLinks? {
      CheckGoes(t, i);
      GoesOn(s, moves, t, i, Check(true));
      t, moves := Step(t, i, Check(true)), moves + [Move(i, Check(true))];
      if t.pubs[i].phase.Renaming? {
        RenameGoes(t, i, calls.rename);
        GoesOn(s, moves, t, i, Rename(calls.rename));
        t, moves := Step(t, i, Rename(calls.rename)), moves + [Move(i, Rename(calls.rename))];
      }
    }
  }

  /** The call with nobody else in between is one of the runs above, and one that replaces nothing, links or none. */
  method PublishNew(s: System, i: nat, calls: Calls) returns (t: System, ghost moves: seq<Move>)
    requires i < |s.pubs| && s.pubs[i].phase.Naming?
    ensures Alone(s, moves, t, i) && |t.pubs| == |s.pubs| && t.pubs[i].phase.Finished?
    ensures t.pubs[i].outcome == Some(Returned(s.dest.Some?, calls))
    ensures s.dest.Some? ==> t.dest == s.dest
    ensures s.dest.None? ==> (t.dest.Some? <==> t.pubs[i].outcome == Some(Published))
  {
    hide Step, Alone;
    t, moves := OpenTemp(s, i, calls.create);
    if !calls.create {
      return;
    }
    var e := if calls.write then Write(|t.pubs[i].bytes|) else WriteFails;
    WriteGoes(t, i, calls.write);
    GoesOn(s, moves, t, i, e);
    t, moves := Step(t, i, e), moves + [Move(i, e)];
    if calls.write {
      SyncGoes(t, i, calls.sync);
      GoesOn(s, moves, t, i, Sync(calls.sync));
      t, moves := Step(t, i, Sync(calls.sync)), moves + [Move(i, Sync(calls.sync))];
      if calls.sync {
        t, moves := LinkOrRename(s, moves, t, i, calls);
      }
    }
    RemoveGoes(t, i, calls.remove);
    GoesOn(s, moves, t, i, Remove(calls.remove));
    t, moves := Step(t, i, Remove(calls.remove)), moves + [Move(i, Remove(calls.remove))];
  }

  predicate Opened(s: System, p: Publisher) {
    p.phase.Writing? && p.done == 0 && p.temp.Some? && p.temp.value.ino < |s.files|
  }

  lemma BeginRun(s: System, i: nat)
    ensures Alone(s, [], s, i)
  {
  }

  lemma CreateFails(s: System, i: nat)
    requires i < |s.pubs| && s.pubs[i].phase.Naming?
    ensures var t := Step(s, i, Create(false));
            t.dest == s.dest && |t.pubs| == |s.pubs| && t.pubs[i].phase.Finished?
                && t.pubs[i].outcome == Some(OtherError)
  {
  }

  lemma WriteGoes(s: System, i: nat, works: bool)
    requires i < |s.pubs| && Opened(s, s.pubs[i])
    ensures var p := s.pubs[i];
            var t := Step(s, i, if works then Write(|p.bytes|) else WriteFails);
            t.dest == s.dest && |t.pubs| == |s.pubs| &&
            t.pubs[i] == if works then p.(done := |p.bytes|) else p.(phase := Removing, outcome := Some(OtherError))
  {
  }

  lemma SyncGoes(s: System, i: nat, works: bool)
    requires i < |s.pubs| && s.pubs[i].phase.Writing? && s.pubs[i].done == |s.pubs[i].bytes| && s.pubs[i].temp.Some?
    ensures var p := s.pubs[i];
            var t := Step(s, i, Sync(works));
            t.dest == s.dest && |t.pubs| == |s.pubs| &&
            t.pubs[i] == if works then p.(phase := Linking) else p.(phase := Removing, outcome := Some(OtherError))
  {
  }

  lemma LinkGoes(s: System, i: nat, fault: LinkFault)
    requires i < |s.pubs| && s.pubs[i].phase.Linking? && s.pubs[i].temp.Some?
    ensures var p := s.pubs[i];
            var t := Step(s, i, Link(fault));
            && |t.pubs| == |s.pubs|
            && (fault.NoLinks? ==> t.dest == s.dest && t.pubs[i] == p.(phase := Checking))
            && (fault.LinkFails? ==>
                  && t.dest == s.dest
                  && t.pubs[i] == p.(phase := Removing, outcome := Some(OtherError)))
            && (fault.LinkWorks? ==>
                  && t.dest.Some? && (s.dest.Some? ==> t.dest == s.dest)
                  && t.pubs[i] == p.(phase := Removing,
                     outcome := Some(if s.dest.Some? then AlreadyExists else Published)))
  {
  }

  lemma CheckGoes(s: System, i: nat)
    requires i < |s.pubs| && s.pubs[i].phase.Checking? && s.pubs[i].temp.Some?
    ensures var p := s.pubs[i];
            var t := Step(s, i, Check(true));
            t.dest == s.dest && |t.pubs| == |s.pubs| &&
            t.pubs[i] == if s.dest.Some? then p.(phase := Removing, outcome := Some(AlreadyExists))
                else p.(phase := Renaming)
  {
  }

  lemma RenameGoes(s: System, i: nat, works: bool)
    requires i < |s.pubs| && s.pubs[i].phase.Renaming? && s.pubs[i].temp.Some?
    ensures var p := s.pubs[i];
            var t := Step(s, i, Rename(works));
            && |t.pubs| == |s.pubs| && t.dest == (if works then Some(p.temp.value.ino) else s.dest)
            && t.pubs[i] == p.(phase := Removing, outcome := Some(if works then Published else OtherError))
  {
  }

  lemma RemoveGoes(s: System, i: nat, works: bool)
    requires i < |s.pubs| && s.pubs[i].phase.Removing? && s.pubs[i].temp.Some?
    ensures var t := Step(s, i, Remove(works));
            && t.dest == s.dest && |t.pubs| == |s.pubs|
            && t.pubs[i].phase.Finished? && t.pubs[i].outcome == s.pubs[i].outcome
  {
  }
}
