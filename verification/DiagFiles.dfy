// The files the recorder writes: names, inodes, open handles, and file operations that may fail part of the way. A
// file's contents are the pieces written to it, because every write is one whole record unless it fails.

module DiagFiles {
  import opened Wrappers
  import opened DiagRecords

  /**
   * One piece of a file: a whole line, a whole in-flight record, or what a write that failed left behind. That may be
   * all of a line but its newline.
   */
  datatype Chunk = Line(entry: Entry) | Flight(file: InflightFile) | Bare(entry: Entry) | Fragment

  type Content = seq<Chunk>

  datatype Path = InflightPath | RingPath | TempPath(n: nat)

  type Inode = nat

  datatype File = File(inode: Inode, content: Content)

  datatype Disk = Disk(names: map<Path, Inode>, data: map<Inode, Content>, next: Inode) {
    /** No two names share an inode: nothing here makes hard links. */
    ghost predicate Valid() {
      && (forall p :: p in names ==> names[p] in data)
      && (forall i :: i in data ==> i < next)
      && (forall p, q :: p in names && q in names && names[p] == names[q] ==> p == q)
    }

    /** The file a name leads to. */
    function Look(p: Path): Option<File> {
      if p in names && names[p] in data then Some(File(names[p], data[names[p]])) else None
    }

    function Read(p: Path): Option<Content> {
      if Look(p).Some? then Some(Look(p).value.content) else None
    }

    function Created(p: Path): (d: Disk)
      requires p !in names
    {
      Disk(names[p := next], data[next := []], next + 1)
    }

    function Truncated(p: Path): (d: Disk)
      requires p in names
    {
      this.(data := data[names[p] := []])
    }

    function Appended(h: Inode, c: Content): (d: Disk)
      requires h in data
    {
      this.(data := data[h := data[h] + c])
    }

    function Renamed(p: Path, q: Path): (d: Disk)
      requires p in names && p != q
    {
      this.(names := (names - {p})[q := names[p]])
    }

    function Removed(p: Path): (d: Disk) {
      this.(names := names - {p})
    }
  }

  /**
   * How one operation fails. A torn write leaves the whole pieces before it and part of the next one; `bare` says
   * that the part is all of it but the newline.
   */
  datatype Fault = Works | FailsClean | FailsTorn(whole: nat, bare: bool)

  function TornAt(c: Content, whole: nat, bare: bool): Content {
    if c == [] then []
    else
      var n := if whole < |c| then whole else |c| - 1;
      c[..n] + [if bare && c[n].Line? then Bare(c[n].entry) else Fragment]
  }

  /** Every disk state so far, the last being the present one, and whether an operation, or a removal, has failed. */
  datatype Trace = Trace(hist: seq<Disk>, faulty: bool, stuck: bool) {
    ghost predicate Valid(disk: Disk) {
      disk.Valid() && hist != [] && hist[|hist| - 1] == disk && (stuck ==> faulty)
    }

    function Next(disk: Disk, failed: bool): Trace {
      Trace(hist + [disk], faulty || failed, stuck)
    }

    /** The history only grows, and faults are never forgotten. */
    ghost predicate Grew(later: Trace) {
      hist <= later.hist && (faulty ==> later.faulty) && (stuck ==> later.stuck)
    }

    /** Every state since holds the same file under `p`. */
    ghost predicate Untouched(later: Trace, p: Path)
      requires hist != []
    {
      forall i :: |hist| <= i < |later.hist| ==> later.hist[i].Look(p) == hist[|hist| - 1].Look(p)
    }

    /** Up to some state it is the old file that `p` names, and from then on the one it names at the end. */
    ghost predicate ReplacedOnce(later: Trace, p: Path)
      requires hist != [] && later.hist != []
    {
      exists k :: |hist| <= k <= |later.hist| && SwitchedAt(later, p, k)
    }

    ghost predicate SwitchedAt(later: Trace, p: Path, k: int)
      requires hist != [] && later.hist != []
    {
      && (forall i :: |hist| <= i < |later.hist| && i < k ==> later.hist[i].Look(p) == hist[|hist| - 1].Look(p))
      && (forall i :: k <= i < |later.hist| && 0 <= i ==>
            later.hist[i].Look(p) == later.hist[|later.hist| - 1].Look(p))
    }
  }

  lemma UntouchedNow(t: Trace, later: Trace, disk: Disk, now: Disk, p: Path)
    requires t.Valid(disk) && later.Valid(now) && t.Grew(later) && t.Untouched(later, p)
    ensures now.Look(p) == disk.Look(p)
  {
  }

  lemma SameLook(t: Trace, later: Trace, now: Disk, p: Path)
    requires t.hist != [] && later.Valid(now) && t.Grew(later) && t.Untouched(later, p)
    ensures now.Look(p) == t.hist[|t.hist| - 1].Look(p)
  {
  }

  /** One more operation. */
  ghost predicate OneMore(u: Trace, v: Trace, disk: Disk) {
    v.hist == u.hist + [disk] && (u.faulty ==> v.faulty) && (u.stuck ==> v.stuck)
  }

  lemma UntouchedNext(t: Trace, u: Trace, v: Trace, disk: Disk, p: Path)
    requires t.hist != [] && t.Grew(u) && t.Untouched(u, p) && OneMore(u, v, disk)
    requires disk.Look(p) == t.hist[|t.hist| - 1].Look(p)
    ensures t.Grew(v) && t.Untouched(v, p)
  {
  }

  lemma ReplacedNext(t: Trace, u: Trace, v: Trace, disk: Disk, p: Path)
    requires t.hist != [] && t.Grew(u) && t.Untouched(u, p) && OneMore(u, v, disk)
    ensures t.Grew(v) && t.ReplacedOnce(v, p)
  {
    assert t.SwitchedAt(v, p, |u.hist|);
  }

  lemma UntouchedIsReplaced(t: Trace, later: Trace, p: Path)
    requires t.hist != [] && later.hist != [] && t.Grew(later) && t.Untouched(later, p)
    ensures t.ReplacedOnce(later, p)
  {
    assert t.SwitchedAt(later, p, |later.hist|);
  }

  lemma UntouchedTrans(t: Trace, u: Trace, v: Trace, p: Path)
    requires t.hist != [] && t.Grew(u) && u.Grew(v) && t.Untouched(u, p) && u.Untouched(v, p)
    ensures t.Grew(v) && t.Untouched(v, p)
  {
  }

  /**
   * The directory. `fault` and `removeFails` decide, operation by operation, what goes wrong. The trace records the
   * disk after each operation, which is every state a process killed between two file operations can leave.
   */
  class FileSystem {
    var disk: Disk
    var tick: nat
    const fault: nat -> Fault
    const removeFails: nat -> bool
    ghost var trace: Trace

    /** Nothing ever goes wrong here. */
    ghost predicate Reliable() {
      forall n :: fault(n) == Works && !removeFails(n)
    }

    ghost predicate Valid()
      reads this
    {
      trace.Valid(disk) && (Reliable() ==> !trace.faulty)
    }

    constructor (disk: Disk, fault: nat -> Fault, removeFails: nat -> bool)
      requires disk.Valid()
      ensures Valid() && trace == Trace([disk], false, false) && this.disk == disk
    {
      this.disk, tick := disk, 0;
      this.fault, this.removeFails := fault, removeFails;
      trace := Trace([disk], false, false);
    }

    method Step(after: Disk, ghost failed: bool)
      requires Valid() && after.Valid() && (failed ==> !Reliable())
      modifies this
      ensures Valid() && disk == after && trace == old(trace).Next(after, failed)
    {
      disk, tick := after, tick + 1;
      trace := trace.Next(after, failed);
    }

    /** Open `p` for writing, emptied, creating it if need be. */
    method OpenTruncate(p: Path) returns (h: Option<Inode>)
      requires Valid()
      modifies this
      ensures Valid() && trace == old(trace).Next(disk, h.None?)
      ensures h.None? ==> disk == old(disk)
      ensures h.Some? ==> disk.Look(p) == Some(File(h.value, []))
      ensures forall q :: q != p ==> disk.Look(q) == old(disk).Look(q)
    {
      if fault(tick) != Works {
        Step(disk, true);
        h := None;
      } else {
        Step(if p in disk.names then disk.Truncated(p) else disk.Created(p), false);
        h := Some(disk.names[p]);
      }
    }

    /** Open `p` for appending, creating it if need be. */
    method OpenAppend(p: Path) returns (h: Option<Inode>)
      requires Valid()
      modifies this
      ensures Valid() && trace == old(trace).Next(disk, h.None?)
      ensures h.None? ==> disk == old(disk)
      ensures h.Some? && old(disk).Look(p).Some? ==> disk == old(disk) && disk.Look(p).value.inode == h.value
      ensures h.Some? && old(disk).Look(p).None? ==> disk.Look(p) == Some(File(h.value, []))
      ensures forall q :: q != p ==> disk.Look(q) == old(disk).Look(q)
    {
      if fault(tick) != Works {
        Step(disk, true);
        h := None;
      } else {
        Step(if p in disk.names then disk else disk.Created(p), false);
        h := Some(disk.names[p]);
      }
    }

    /** Write all of `c` at the end of the open file, which is the one `p` names. */
    method WriteAll(ghost p: Path, h: Inode, c: Content) returns (ok: bool)
      requires Valid() && disk.Look(p).Some? && disk.Look(p).value.inode == h
      modifies this
      ensures Valid() && trace == old(trace).Next(disk, !ok)
      ensures ok ==> disk.Look(p) == Some(File(h, old(disk).Look(p).value.content + c))
      ensures !ok ==> disk.Look(p) == old(disk).Look(p) ||
                      exists whole: nat, bare ::
                        disk.Look(p) == Some(File(h, old(disk).Look(p).value.content + TornAt(c, whole, bare)))
      ensures forall q :: q != p ==> disk.Look(q) == old(disk).Look(q)
    {
      match fault(tick)
      case Works =>
        Step(disk.Appended(h, c), false);
        ok := true;
      case FailsClean =>
        Step(disk, true);
        ok := false;
      case FailsTorn(whole, bare) =>
        Step(disk.Appended(h, TornAt(c, whole, bare)), true);
        ok := false;
    }

    /** Give the file named `p` the name `q`, replacing whatever had it. */
    method Rename(p: Path, q: Path) returns (ok: bool)
      requires Valid() && disk.Look(p).Some? && p != q
      modifies this
      ensures Valid() && trace == old(trace).Next(disk, !ok)
      ensures ok ==> disk.Look(q) == old(disk).Look(p) && disk.Look(p).None?
      ensures ok ==> forall r :: r != p && r != q ==> disk.Look(r) == old(disk).Look(r)
      ensures !ok ==> disk == old(disk)
    {
      ok := fault(tick) == Works;
      Step(if ok then disk.Renamed(p, q) else disk, !ok);
    }

    /** Remove the name `p`. A name that is not there is not an error. */
    method Remove(p: Path) returns (ok: bool)
      requires Valid()
      modifies this
      ensures Valid() && trace == old(trace).Next(disk, !ok).(stuck := old(trace).stuck || !ok)
      ensures ok ==> disk.Look(p).None?
      ensures !ok ==> disk == old(disk)
      ensures forall q :: q != p ==> disk.Look(q) == old(disk).Look(q)
    {
      ok := p !in disk.names || !removeFails(tick);
      Step(if ok then disk.Removed(p) else disk, !ok);
      if !ok {
        trace := trace.(stuck := true);
      }
    }

    /**
     * Write `c` elsewhere and rename it to `p`: no state on the way shows part of it under `p`.
     */
    method WriteAtomic(p: Path, temp: nat, c: Content) returns (ok: bool)
      requires Valid() && !p.TempPath?
      modifies this
      ensures Valid() && old(trace).Grew(trace)
      ensures ok ==> trace.faulty == old(trace).faulty && trace.stuck == old(trace).stuck && disk.Read(p) == Some(c)
      ensures !ok ==> trace.faulty && disk.Look(p) == old(disk).Look(p) && old(trace).Untouched(trace, p)
      ensures old(trace).ReplacedOnce(trace, p) && old(trace).Untouched(trace, Other(p))
    {
      hide Trace.ReplacedOnce, Trace.Untouched, Reliable;
      ok := WriteTemp(temp, c);
      UntouchedNow(old(trace), trace, old(disk), disk, p);
      UntouchedNow(old(trace), trace, old(disk), disk, Other(p));
      ghost var staged := trace;
      if ok {
        ok := Rename(TempPath(temp), p);
        ReplacedNext(old(trace), staged, trace, disk, p);
        UntouchedNext(old(trace), staged, trace, disk, Other(p));
      }
      if !ok {
        if trace.hist != staged.hist {
          UntouchedNext(old(trace), staged, trace, disk, p);
        }
        GiveUp(old(trace), temp, p);
      }
    }

    /** Best effort: the temporary of a replacement that failed is removed. */
    method GiveUp(ghost was: Trace, temp: nat, ghost p: Path)
      requires Valid() && trace.faulty && was.hist != [] && !p.TempPath?
      requires was.Grew(trace) && was.Untouched(trace, p) && was.Untouched(trace, Other(p))
      modifies this
      ensures Valid() && trace.faulty && was.Grew(trace) && disk.Look(p) == was.hist[|was.hist| - 1].Look(p)
      ensures was.ReplacedOnce(trace, p) && was.Untouched(trace, p) && was.Untouched(trace, Other(p))
    {
      hide Trace.ReplacedOnce;
      ghost var staged, before := trace, disk;
      SameLook(was, staged, before, p);
      SameLook(was, staged, before, Other(p));
      var _ := Remove(TempPath(temp));
      UntouchedNext(was, staged, trace, disk, p);
      UntouchedNext(was, staged, trace, disk, Other(p));
      UntouchedIsReplaced(was, trace, p);
    }

    method WriteTemp(temp: nat, c: Content) returns (ok: bool)
      requires Valid()
      modifies this
      ensures Valid() && old(trace).Grew(trace) && trace.stuck == old(trace).stuck
      ensures if ok then trace.faulty == old(trace).faulty && disk.Read(TempPath(temp)) == Some(c) else trace.faulty
      ensures old(trace).Untouched(trace, InflightPath) && old(trace).Untouched(trace, RingPath)
    {
      var t := TempPath(temp);
      var h := OpenTruncate(t);
      ok := false;
      if h.Some? {
        ok := WriteAll(t, h.value, c);
        assert [] + c == c;
      }
    }

    static function Other(p: Path): Path {
      if p == RingPath then InflightPath else RingPath
    }
  }
}
