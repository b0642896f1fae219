// The firmware archive of src/firmware.rs: one directory, written step by step, where any step may fail and the
// process may be killed between two steps or in the middle of a write.

module Firmware {
  import opened Wrappers
  import opened Bytes

  const FORMAT_VERSION: nat := 1

  type Digest = string

  datatype Meta = Meta(formatVersion: nat, sha: Digest, size: nat, retrieved: string)

  /** metadata.json is what a plain write leaves: all of it, or as much as was written. */
  datatype MetaFile = Whole(meta: Meta) | Torn

  datatype Page = WholePage(html: string) | TornPage

  datatype Archive = Archive(meta: Option<MetaFile>, bin: Option<seq<byte>>, part: Option<seq<byte>>,
      page: Option<Page>)

  datatype Fault = Works | Fails | FailsPartway(written: nat)

  /** How each step of one ingest goes. A check for a file that fails says "not there". */
  datatype Faults = Faults(
    sourceLen: Fault, hashSource: Fault, seeMeta: Fault, readMeta: Fault, hashBin: Fault, seeBin: Fault, binSize: Fault,
    mkdir: Fault, copy: Fault, hashPart: Fault, dropPart: Fault, partSize: Fault, page: Fault, rename: Fault,
        saveMeta: Fault)

  const NO_FAULTS := Faults(Works, Works, Works, Works, Works, Works, Works, Works, Works, Works, Works, Works, Works,
      Works, Works)

  /** A source file, which may be another one each time it is read. */
  datatype Source = Source(len: nat, hashed: seq<byte>, copied: seq<byte>)

  datatype IngestError =
    | Io
    | Json
    | UnsupportedVersion(found: nat)
    | ChecksumMismatch(stored: Digest, computed: Digest)
    | ContentMismatch(existing: Digest, offered: Digest)
    | IncompleteArchive

  datatype Outcome = Archived(meta: Meta) | AlreadyPresent(meta: Meta)

  /** One ingest of a campaign: what it is given, how its steps go, and after which step it is killed, if it is. */
  datatype Job = Job(src: Source, retrieved: string, page: Option<string>, faults: Faults, killedAfter: Option<nat>)

  // ----- What is promised -----

  /** Metadata, where there is any, names a firmware.bin that has the digest it records. */
  predicate Sound(a: Archive, hash: seq<byte> -> Digest) {
    a.meta.Some? && a.meta.value.Whole? ==> a.bin.Some? && hash(a.bin.value) == a.meta.value.meta.sha
  }

  predicate BinKept(was: Archive, now: Archive) {
    was.bin.Some? ==> now.bin == was.bin
  }

  /** The steps from the copy to the rename all work, and the copy has the digest of the source. */
  predicate Stages(job: Job, hash: seq<byte> -> Digest) {
    var f := job.faults;
    && f.mkdir.Works? && f.copy.Works? && f.hashPart.Works? && hash(job.src.copied) == hash(job.src.hashed)
    && f.partSize.Works? && (job.page.Some? ==> f.page.Works?) && f.rename.Works?
  }

  /** The failures after which the part is removed, and that removal working. */
  predicate CleansUp(job: Job, hash: seq<byte> -> Digest) {
    var f := job.faults;
    && f.mkdir.Works? && f.dropPart.Works?
    && (!f.copy.Works?
        || (f.hashPart.Works?
            && (hash(job.src.copied) != hash(job.src.hashed)
                || (f.partSize.Works? && job.page.Some? && !f.page.Works?))))
  }

  /** The ingest renames its copy over whatever firmware.bin there is. */
  predicate Renames(a: Archive, job: Job, hash: seq<byte> -> Digest) {
    var f := job.faults;
    && f.sourceLen.Works? && job.src.len != 0 && f.hashSource.Works?
    && (a.meta.Some? ==> !f.seeMeta.Works?)
    && (a.bin.Some? ==> !f.seeBin.Works?)
    && Stages(job, hash)
  }

  /** What an ingest with nothing failing and an unchanging source comes to. */
  function Verdict(a: Archive, job: Job, hash: seq<byte> -> Digest): Result<Outcome, IngestError> {
    var offered := hash(job.src.hashed);
    if job.src.hashed == [] then Err(Io)
    else match a.meta
      case Some(Torn) => Err(Json)
      case Some(Whole(m)) =>
        if m.formatVersion != FORMAT_VERSION then Err(UnsupportedVersion(m.formatVersion))
        else if a.bin.None? then Err(Io)
        else if hash(a.bin.value) != m.sha then Err(ChecksumMismatch(m.sha, hash(a.bin.value)))
        else if m.sha == offered then Ok(AlreadyPresent(m)) else Err(ContentMismatch(m.sha, offered))
      case None =>
        if a.bin.Some? && hash(a.bin.value) != offered then Err(IncompleteArchive)
        else
          var size := |if a.bin.Some? then a.bin.value else job.src.hashed|;
          Ok(Archived(Meta(FORMAT_VERSION, offered, size, job.retrieved)))
  }

  predicate Undisturbed(job: Job) {
    job.faults == NO_FAULTS && job.src.len == |job.src.hashed| && job.src.copied == job.src.hashed
  }

  // ----- The directory -----

  class Directory {
    var now: Archive
    var history: seq<Archive>

    predicate Valid()
      reads this
    {
      history != [] && history[|history| - 1] == now
    }

    constructor (a: Archive)
      ensures Valid() && now == a && history == [a]
    {
      now, history := a, [a];
    }

    method Become(a: Archive)
      modifies this
      ensures Valid() && now == a && history == old(history) + [a]
    {
      now, history := a, history + [a];
    }

    /** Copy over firmware.bin.part: what is there is truncated first. */
    method CopyToPart(data: seq<byte>, fault: Fault) returns (ok: bool)
      modifies this
      requires Valid()
      ensures Valid() && ok == fault.Works? && OnlyPart(old(now), old(history), history)
      ensures now.meta == old(now).meta && now.bin == old(now).bin && now.page == old(now).page
      ensures ok ==> now.part == Some(data)
    {
      ok := fault.Works?;
      if !fault.Fails? {
        Become(now.(part := Some([])));
        var n := if ok || fault.written > |data| then |data| else fault.written;
        assert ok ==> data[..n] == data;
        Become(now.(part := Some(data[..n])));
      }
    }

    method DropPart(fault: Fault)
      modifies this
      requires Valid()
      ensures Valid() && OnlyPart(old(now), old(history), history)
      ensures now == if fault.Works? then old(now).(part := None) else old(now)
    {
      if fault.Works? {
        Become(now.(part := None));
      }
    }

    method WritePage(html: Option<string>, fault: Fault) returns (ok: bool)
      modifies this
      requires Valid()
      ensures Valid() && ok == (html.Some? ==> fault.Works?) && OnlyPage(old(now), old(history), history)
      ensures ok && html.Some? ==> now.page == Some(WholePage(html.value))
    {
      ok := true;
      if html.Some? {
        ok := fault.Works?;
        if !fault.Fails? {
          Become(now.(page := Some(TornPage)));
        }
        if ok {
          Become(now.(page := Some(WholePage(html.value))));
        }
      }
    }

    method RenamePart(fault: Fault) returns (ok: bool)
      modifies this
      requires Valid() && now.part.Some?
      ensures Valid() && ok == fault.Works?
      ensures now == if ok then old(now).(bin := old(now).part, part := None) else old(now)
      ensures history == if ok then old(history) + [now] else old(history)
    {
      ok := fault.Works?;
      if ok {
        Become(now.(bin := now.part, part := None));
      }
    }

    method SaveMeta(m: Meta, fault: Fault) returns (ok: bool)
      modifies this
      requires Valid()
      ensures Valid() && ok == fault.Works?
      ensures var torn := old(now).(meta := Some(Torn));
              if ok then now == old(now).(meta := Some(Whole(m))) && history == old(history) + [torn, now]
              else if fault.Fails? then now == old(now) && history == old(history)
              else now == torn && history == old(history) + [torn]
    {
      ok := fault.Works?;
      if !fault.Fails? {
        Become(now.(meta := Some(Torn)));
      }
      if ok {
        Become(now.(meta := Some(Whole(m))));
      }
    }
  }

  ghost predicate OnlyPart(a: Archive, was: seq<Archive>, now: seq<Archive>) {
    was <= now && forall i :: |was| <= i < |now| ==> now[i] == a.(part := now[i].part)
  }

  ghost predicate OnlyPage(a: Archive, was: seq<Archive>, now: seq<Archive>) {
    was <= now && forall i :: |was| <= i < |now| ==> now[i] == a.(page := now[i].page)
  }

  /** From the n-th state on, the metadata and firmware.bin are those of `a`. */
  ghost predicate Untouched(a: Archive, history: seq<Archive>, n: nat) {
    forall i :: n <= i < |history| ==> history[i].meta == a.meta && history[i].bin == a.bin
  }

  /** From `a` and the n-th state on, a firmware.bin never becomes another one. */
  ghost predicate BinKeptSince(a: Archive, history: seq<Archive>, n: nat) {
    && (forall i :: n <= i < |history| ==> BinKept(a, history[i]))
    && (forall i, j :: n <= i <= j < |history| ==> BinKept(history[i], history[j]))
  }

  ghost predicate SoundSince(history: seq<Archive>, n: nat, hash: seq<byte> -> Digest) {
    forall i :: n <= i < |history| ==> Sound(history[i], hash)
  }

  /** Each state has the metadata of `a` and its firmware.bin or that of `z`. */
  ghost predicate Between(a: Archive, z: Archive, history: seq<Archive>, n: nat) {
    forall i :: n <= i < |history| ==> history[i].meta == a.meta && (history[i].bin == a.bin || history[i].bin == z.bin)
  }

  /**
   * What one ingest makes of the archive `a`, state by state from the n-th on, and what it answers. What changes
   * firmware.bin, and what leaves metadata beside bytes of another digest, is exactly a rename over a firmware.bin
   * whose presence the file system did not report.
   */
  ghost predicate Ingested(a: Archive, job: Job, history: seq<Archive>, n: nat, r: Result<Outcome, IngestError>,
      hash: seq<byte> -> Digest)
    requires 0 < n <= |history|
  {
    var z := history[|history| - 1];
    && history[n - 1] == a
    && (BinKeptSince(a, history, n) <==> !(Renames(a, job, hash) && a.bin.Some? && a.bin != Some(job.src.copied)))
    && (Sound(a, hash) ==>
          (SoundSince(history, n, hash) <==> !(Renames(a, job, hash) && !Sound(a.(bin := Some(job.src.copied)), hash))))
    && z.bin == (if Renames(a, job, hash) then Some(job.src.copied) else a.bin)
    && (forall i :: n <= i < |history| ==>
          && (history[i].bin == a.bin || history[i].bin == z.bin)
          && (history[i].meta == a.meta || history[i].meta == Some(Torn) || history[i].meta == z.meta))
    && (r.Ok? && r.value.Archived? ==>
          && z.meta == Some(Whole(r.value.meta)) && r.value.meta.formatVersion == FORMAT_VERSION
          && r.value.meta.sha == hash(job.src.hashed) && Sound(z, hash) && |z.bin.value| == r.value.meta.size
          && (job.page.Some? ==> z.page == Some(WholePage(job.page.value))))
    && (r.Ok? && r.value.AlreadyPresent? ==>
          && |history| == n && z.meta == Some(Whole(r.value.meta)) && Sound(z, hash)
          && r.value.meta.sha == hash(job.src.hashed))
    && (r.Err? ==> z.meta == a.meta || (z.meta == Some(Torn) && job.faults.saveMeta.FailsPartway?))
    && (a.meta.Some? && job.faults.seeMeta.Works? ==> |history| == n)
    && (Undisturbed(job) ==> r == Verdict(a, job, hash))
  }

  // ----- Ingesting -----

  /** There is metadata: nothing is written, and the digests decide. */
  method Compare(d: Directory, job: Job, hash: seq<byte> -> Digest) returns (r: Result<Outcome, IngestError>)
    requires d.Valid() && d.now.meta.Some?
    ensures job.faults.readMeta.Works? && job.faults.hashBin.Works? && job.src.hashed != [] ==>
            r == Verdict(d.now, job, hash)
    ensures r.Ok? ==>
              && r.value.AlreadyPresent? && d.now.meta == Some(Whole(r.value.meta)) && d.now.bin.Some?
              && hash(d.now.bin.value) == r.value.meta.sha == hash(job.src.hashed)
  {
    if !job.faults.readMeta.Works? {
      return Err(Io);
    }
    if d.now.meta.value.Torn? {
      return Err(Json);
    }
    var m := d.now.meta.value.meta;
    if m.formatVersion != FORMAT_VERSION {
      return Err(UnsupportedVersion(m.formatVersion));
    }
    if !job.faults.hashBin.Works? || d.now.bin.None? {
      return Err(Io);
    }
    var existing := hash(d.now.bin.value);
    if existing != m.sha {
      return Err(ChecksumMismatch(m.sha, existing));
    }
    if existing == hash(job.src.hashed) {
      return Ok(AlreadyPresent(m));
    }
    return Err(ContentMismatch(existing, hash(job.src.hashed)));
  }

  /** No firmware.bin is seen: copy under another name, check the copy, write the page, rename. */
  method Stage(d: Directory, job: Job, hash: seq<byte> -> Digest) returns (r: Result<nat, IngestError>)
    requires d.Valid()
    modifies d
    ensures d.Valid() && old(d.history) <= d.history
    ensures r.Ok? <==> Stages(job, hash)
    ensures d.now.meta == old(d.now).meta
    ensures r.Err? ==> Untouched(old(d.now), d.history, |old(d.history)|)
    ensures r.Err? && CleansUp(job, hash) ==> d.now.part.None?
    ensures r.Ok? ==>
              && |d.history| > |old(d.history)|
              && Untouched(old(d.now), d.history[..|d.history| - 1], |old(d.history)|)
              && d.now.bin == Some(job.src.copied) && r.value == |job.src.copied|
              && hash(job.src.copied) == hash(job.src.hashed)
              && (job.page.Some? ==> d.now.page == Some(WholePage(job.page.value)))
  {
    ghost var h := d.history;
    var f := job.faults;
    if !f.mkdir.Works? {
      return Err(Io);
    }
    var copied := d.CopyToPart(job.src.copied, f.copy);
    if !copied {
      d.DropPart(f.dropPart);
      return Err(Io);
    }
    if !f.hashPart.Works? {
      return Err(Io);
    }
    var sha := hash(d.now.part.value);
    if sha != hash(job.src.hashed) {
      d.DropPart(f.dropPart);
      return Err(ChecksumMismatch(hash(job.src.hashed), sha));
    }
    if !f.partSize.Works? {
      return Err(Io);
    }
    var size := |d.now.part.value|;
    var paged := d.WritePage(job.page, f.page);
    if !paged {
      d.DropPart(f.dropPart);
      return Err(Io);
    }
    var renamed := d.RenamePart(f.rename);
    return if renamed then Ok(size) else Err(Io);
  }

  /** A firmware.bin without metadata: completed only if it holds the bytes being ingested. */
  method Adopt(d: Directory, job: Job, hash: seq<byte> -> Digest) returns (r: Result<nat, IngestError>)
    requires d.Valid() && d.now.bin.Some?
    modifies d
    ensures d.Valid() && old(d.history) <= d.history
    ensures d.now.meta == old(d.now).meta && d.now.bin == old(d.now).bin
    ensures Untouched(old(d.now), d.history, |old(d.history)|)
    ensures r.Ok? ==> hash(d.now.bin.value) == hash(job.src.hashed) && r.value == |d.now.bin.value|
    ensures r.Ok? && job.page.Some? ==> d.now.page == Some(WholePage(job.page.value))
    ensures hash(d.now.bin.value) != hash(job.src.hashed) ==> r == Err(IncompleteArchive) && d.history == old(d.history)
    ensures job.faults == NO_FAULTS && hash(d.now.bin.value) == hash(job.src.hashed) ==> r.Ok?
  {
    var f := job.faults;
    if !f.hashBin.Works? || hash(d.now.bin.value) != hash(job.src.hashed) {
      return Err(IncompleteArchive);
    }
    if !f.binSize.Works? {
      return Err(Io);
    }
    var size := |d.now.bin.value|;
    var paged := d.WritePage(job.page, f.page);
    return if paged then Ok(size) else Err(Io);
  }

  /** Nothing but the metadata is left to write once this has given a size. */
  method PutBin(d: Directory, job: Job, hash: seq<byte> -> Digest) returns (r: Result<nat, IngestError>)
    requires d.Valid()
    modifies d
    ensures d.Valid() && old(d.history) <= d.history && Between(old(d.now), d.now, d.history, |old(d.history)|)
    ensures d.now.meta == old(d.now).meta
    ensures var adopts := job.faults.seeBin.Works? && old(d.now).bin.Some?;
            && (BinKeptSince(old(d.now), d.history, |old(d.history)|) <==>
                  !(!adopts && Stages(job, hash) && old(d.now).bin.Some? && old(d.now).bin != Some(job.src.copied)))
            && (Sound(old(d.now), hash) ==>
                  (SoundSince(d.history, |old(d.history)|, hash) <==>
                     !(!adopts && Stages(job, hash) && !Sound(old(d.now).(bin := Some(job.src.copied)), hash))))
            && (adopts ==> d.now.bin == old(d.now).bin)
            && (!adopts ==> (r.Ok? <==> Stages(job, hash)))
            && (!adopts ==> d.now.bin == if r.Ok? then Some(job.src.copied) else old(d.now).bin)
            && (Undisturbed(job) ==>
                  r == if adopts && hash(old(d.now).bin.value) != hash(job.src.hashed) then Err(IncompleteArchive)
                       else Ok(|if adopts then old(d.now).bin.value else job.src.hashed|))
    ensures r.Ok? ==>
              && d.now.bin.Some? && hash(d.now.bin.value) == hash(job.src.hashed) && r.value == |d.now.bin.value|
              && (job.page.Some? ==> d.now.page == Some(WholePage(job.page.value)))
  {
    hide Stages;
    UndisturbedStages(job, hash);
    ghost var a, n := d.now, |d.history|;
    if job.faults.seeBin.Works? && d.now.bin.Some? {
      r := Adopt(d, job, hash);
      UntouchedKeeps(a, d.history, n, hash);
    } else {
      r := Stage(d, job, hash);
      if r.Ok? {
        RenamingKeeps(a, d.history, n, job.src.copied, hash);
      } else {
        UntouchedKeeps(a, d.history, n, hash);
      }
    }
  }

  lemma NothingSince(a: Archive, history: seq<Archive>, hash: seq<byte> -> Digest)
    ensures BinKeptSince(a, history, |history|) && SoundSince(history, |history|, hash)
  {
  }

  lemma UntouchedKeeps(a: Archive, history: seq<Archive>, n: nat, hash: seq<byte> -> Digest)
    requires Untouched(a, history, n)
    ensures BinKeptSince(a, history, n) && (Sound(a, hash) ==> SoundSince(history, n, hash))
  {
  }

  lemma RenamingKeeps(a: Archive, history: seq<Archive>, n: nat, data: seq<byte>, hash: seq<byte> -> Digest)
    requires |history| > n && Untouched(a, history[..|history| - 1], n)
    requires history[|history| - 1].meta == a.meta && history[|history| - 1].bin == Some(data)
    ensures BinKeptSince(a, history, n) <==> !(a.bin.Some? && a.bin != Some(data))
    ensures Sound(a, hash) ==> (SoundSince(history, n, hash) <==> Sound(a.(bin := Some(data)), hash))
  {
    var last := |history| - 1;
    assert forall i :: n <= i < last ==> history[..last][i] == history[i];
    assert Sound(history[last], hash) <==> Sound(a.(bin := Some(data)), hash);
  }

  /** Writing the metadata of what is there changes neither answer. */
  lemma SavingKeeps(a: Archive, before: seq<Archive>, after: seq<Archive>, n: nat, hash: seq<byte> -> Digest)
    requires 0 < |before| && n <= |before| <= |after| && before == after[..|before|]
    requires n == |before| ==> before[n - 1] == a
    requires forall i :: |before| <= i < |after| ==> after[i].bin == before[|before| - 1].bin && Sound(after[i], hash)
    ensures BinKeptSince(a, after, n) <==> BinKeptSince(a, before, n)
    ensures SoundSince(after, n, hash) <==> SoundSince(before, n, hash)
  {
    assert forall i :: n <= i < |before| ==> before[i] == after[i];
  }

  lemma UndisturbedStages(job: Job, hash: seq<byte> -> Digest)
    ensures Undisturbed(job) ==> Stages(job, hash)
  {
  }

  /** Archive a file, or find it archived. */
  method Ingest(d: Directory, job: Job, hash: seq<byte> -> Digest) returns (r: Result<Outcome, IngestError>)
    requires d.Valid()
    modifies d
    ensures d.Valid() && old(d.history) <= d.history
    ensures Ingested(old(d.now), job, d.history, |old(d.history)|, r, hash)
  {
    hide Stages, BinKeptSince, SoundSince;
    UndisturbedStages(job, hash);
    NothingSince(d.now, d.history, hash);
    var f := job.faults;
    if !f.sourceLen.Works? || job.src.len == 0 || !f.hashSource.Works? {
      return Err(Io);
    }
    if f.seeMeta.Works? && d.now.meta.Some? {
      r := Compare(d, job, hash);
      return;
    }
    ghost var a, n := d.now, |d.history|;
    var size := PutBin(d, job, hash);
    if size.Err? {
      return Err(size.error);
    }
    ghost var placed := d.history;
    var m := Meta(FORMAT_VERSION, hash(job.src.hashed), size.value, job.retrieved);
    var saved := d.SaveMeta(m, f.saveMeta);
    SavingKeeps(a, placed, d.history, n, hash);
    return if saved then Ok(Archived(m)) else Err(Io);
  }

  // ----- Campaigns -----

  /** Every state sound, and a firmware.bin never another one later. */
  ghost predicate Safe(seen: seq<Archive>, hash: seq<byte> -> Digest) {
    && (forall i :: 0 <= i < |seen| ==> Sound(seen[i], hash))
    && (forall i, j :: 0 <= i <= j < |seen| ==> BinKept(seen[i], seen[j]))
  }

  lemma SafeThrough(seen: seq<Archive>, more: seq<Archive>, a: Archive, hash: seq<byte> -> Digest)
    requires Safe(seen, hash) && seen != [] && seen[|seen| - 1] == a
    requires forall s <- more :: Sound(s, hash) && BinKept(a, s)
    requires forall i, j :: 0 <= i <= j < |more| ==> BinKept(more[i], more[j])
    ensures Safe(seen + more, hash)
  {
    var all := seen + more;
    forall i, j | 0 <= i <= j < |all| ensures BinKept(all[i], all[j]) {
      if i < |seen| <= j {
        assert BinKept(seen[i], a) && all[j] in more;
      }
    }
  }

  function EndOf(start: Archive, runs: seq<seq<Archive>>): Archive {
    if runs == [] then start
    else
      var last := runs[|runs| - 1];
      if last == [] then EndOf(start, runs[..|runs| - 1]) else last[|last| - 1]
  }

  function AllStates(start: Archive, runs: seq<seq<Archive>>): seq<Archive> {
    if runs == [] then [start] else AllStates(start, runs[..|runs| - 1]) + runs[|runs| - 1]
  }

  function Survived(history: seq<Archive>, killedAfter: Option<nat>): seq<Archive>
    requires history != []
  {
    if killedAfter.Some? && killedAfter.value < |history| then history[1..killedAfter.value + 1] else history[1..]
  }

  /** The states one job leaves of the archive `a`: those of an ingest, up to where it is killed. */
  ghost predicate Lived(a: Archive, job: Job, lived: seq<Archive>, hash: seq<byte> -> Digest) {
    exists history, r :: history != [] && Ingested(a, job, history, 1, r, hash)
        && lived == Survived(history, job.killedAfter)
  }

  /** The states a list of jobs can leave, job by job, each beginning where the one before it ended or was killed. */
  ghost predicate CampaignOf(start: Archive, jobs: seq<Job>, runs: seq<seq<Archive>>, hash: seq<byte> -> Digest) {
    |runs| == |jobs| && forall i :: 0 <= i < |jobs| ==> Lived(EndOf(start, runs[..i]), jobs[i], runs[i], hash)
  }

  /** Any number of ingests one after the other, any step of each failing and each killed anywhere; `seen` is every
      state there ever was. */
  method Campaign(start: Archive, jobs: seq<Job>, hash: seq<byte> -> Digest) returns (seen: seq<Archive>, end: Archive)
    ensures exists runs ::
              && CampaignOf(start, jobs, runs, hash)
              && seen == AllStates(start, runs) && end == EndOf(start, runs)
    ensures Sound(start, hash) && (forall job <- jobs :: job.faults.seeBin.Works?) ==> Safe(seen, hash)
  {
    hide Ingested, Survived;
    ghost var runs: seq<seq<Archive>> := [];
    seen, end := [start], start;
    for i := 0 to |jobs|
      invariant CampaignOf(start, jobs[..i], runs, hash)
      invariant seen == AllStates(start, runs) && end == EndOf(start, runs)
    {
      var d := new Directory(end);
      var r := Ingest(d, jobs[i], hash);
      var lived := Survived(d.history, jobs[i].killedAfter);
      assert Lived(end, jobs[i], lived, hash);
      CampaignSnoc(start, jobs, i, runs, lived, hash);
      seen := seen + lived;
      end := if lived == [] then end else lived[|lived| - 1];
      runs := runs + [lived];
    }
    assert jobs[..|jobs|] == jobs;
    if Sound(start, hash) && forall job <- jobs :: job.faults.seeBin.Works? {
      CampaignsAreSafe(start, jobs, runs, hash);
    }
  }

  lemma CampaignSnoc(start: Archive, jobs: seq<Job>, i: nat, runs: seq<seq<Archive>>, lived: seq<Archive>,
      hash: seq<byte> -> Digest)
    requires i < |jobs| && CampaignOf(start, jobs[..i], runs, hash) && Lived(EndOf(start, runs), jobs[i], lived, hash)
    ensures CampaignOf(start, jobs[..i + 1], runs + [lived], hash)
    ensures AllStates(start, runs + [lived]) == AllStates(start, runs) + lived
    ensures EndOf(start, runs + [lived]) == if lived == [] then EndOf(start, runs) else lived[|lived| - 1]
  {
    hide Lived;
    var more := runs + [lived];
    assert more[..|runs|] == runs;
    forall k | 0 <= k < i + 1
      ensures Lived(EndOf(start, more[..k]), jobs[..i + 1][k], more[k], hash)
    {
      if k < i {
        assert more[..k] == runs[..k] && jobs[..i][k] == jobs[k];
      }
    }
  }

  /** Over every campaign in which the look for firmware.bin is answered, no state has metadata without the bytes of
      its digest, and no firmware.bin ever becomes another one. */
  lemma {:induction false} CampaignsAreSafe(start: Archive, jobs: seq<Job>, runs: seq<seq<Archive>>,
      hash: seq<byte> -> Digest)
    requires CampaignOf(start, jobs, runs, hash) && Sound(start, hash)
    requires forall job <- jobs :: job.faults.seeBin.Works?
    ensures Safe(AllStates(start, runs), hash)
    ensures var all := AllStates(start, runs); all != [] && all[|all| - 1] == EndOf(start, runs)
    decreases |jobs|
  {
    hide Lived, Safe;
    if jobs == [] {
      OneState(start, hash);
    } else {
      var n := |jobs| - 1;
      CampaignFront(start, jobs, runs, hash);
      CampaignsAreSafe(start, jobs[..n], runs[..n], hash);
      var a := EndOf(start, runs[..n]);
      EndIsSound(AllStates(start, runs[..n]), a, hash);
      LivedIsSafe(a, jobs[n], runs[n], hash);
      SafeThrough(AllStates(start, runs[..n]), runs[n], a, hash);
    }
  }

  lemma OneState(a: Archive, hash: seq<byte> -> Digest)
    requires Sound(a, hash)
    ensures Safe([a], hash)
  {
  }

  lemma EndIsSound(seen: seq<Archive>, a: Archive, hash: seq<byte> -> Digest)
    requires Safe(seen, hash) && seen != [] && seen[|seen| - 1] == a
    ensures Sound(a, hash)
  {
  }

  lemma CampaignFront(start: Archive, jobs: seq<Job>, runs: seq<seq<Archive>>, hash: seq<byte> -> Digest)
    requires CampaignOf(start, jobs, runs, hash) && jobs != []
    ensures var n := |jobs| - 1;
            CampaignOf(start, jobs[..n], runs[..n], hash) && Lived(EndOf(start, runs[..n]), jobs[n], runs[n], hash)
  {
    hide Lived;
    var n := |jobs| - 1;
    forall i | 0 <= i < n
      ensures Lived(EndOf(start, runs[..n][..i]), jobs[..n][i], runs[..n][i], hash)
    {
      assert runs[..n][..i] == runs[..i];
    }
  }

  lemma LivedIsSafe(a: Archive, job: Job, lived: seq<Archive>, hash: seq<byte> -> Digest)
    requires Sound(a, hash) && Lived(a, job, lived, hash) && job.faults.seeBin.Works?
    ensures forall s <- lived :: Sound(s, hash) && BinKept(a, s)
    ensures forall i, j :: 0 <= i <= j < |lived| ==> BinKept(lived[i], lived[j])
  {
    hide Stages;
    var history, r :| history != [] && Ingested(a, job, history, 1, r, hash)
        && lived == Survived(history, job.killedAfter);
    assert BinKeptSince(a, history, 1) && SoundSince(history, 1, hash);
    assert forall i :: 0 <= i < |lived| ==> lived[i] == history[i + 1];
  }

  /** One fault-free ingest that is not killed archives the file where there is nothing yet. */
  lemma FirstIngestArchives(start: Archive, job: Job, runs: seq<seq<Archive>>, hash: seq<byte> -> Digest)
    requires start.meta.None? && start.bin.None? && Undisturbed(job) && job.src.hashed != [] && job.killedAfter.None?
    requires CampaignOf(start, [job], runs, hash)
    ensures var end := EndOf(start, runs);
            && end.bin == Some(job.src.hashed)
            && end.meta == Some(Whole(Meta(1, hash(job.src.hashed), |job.src.hashed|, job.retrieved)))
  {
    assert runs[..0] == [] && runs == [runs[0]];
    assert Lived(start, [job][0], runs[0], hash);
    var history, r :| history != [] && Ingested(start, job, history, 1, r, hash)
        && runs[0] == Survived(history, job.killedAfter);
    assert runs[..|runs| - 1] == [];
    assert runs[0] != [] ==> runs[0][|runs[0]| - 1] == history[|history| - 1];
  }

  /** The input that breaks the promise: a firmware.bin whose presence is not reported is replaced by another file's
      bytes, and for a while metadata stands beside bytes of another digest. */
  lemma UnseenBinIsReplaced(a: Archive, job: Job, history: seq<Archive>, r: Result<Outcome, IngestError>,
      hash: seq<byte> -> Digest)
    requires a == Archive(Some(Whole(Meta(FORMAT_VERSION, hash([66]), 1, ""))), Some([66]), None, None)
    requires job == Job(Source(1, [65], [65]), "", None, NO_FAULTS.(seeMeta := Fails, seeBin := Fails), None)
    requires history != [] && Ingested(a, job, history, 1, r, hash)
    ensures Sound(a, hash) && !BinKeptSince(a, history, 1) && history[|history| - 1].bin == Some([65])
    ensures hash([65]) != hash([66]) ==> !SoundSince(history, 1, hash)
  {
  }

  /** After any crash the bytes in firmware.bin are taken up again, unless a metadata write was cut short. */
  lemma RecoversExactlyWhen(a: Archive, job: Job, hash: seq<byte> -> Digest)
    requires Sound(a, hash) && Undisturbed(job) && job.src.hashed != [] && a.bin == Some(job.src.hashed)
    ensures Verdict(a, job, hash).Ok? <==>
            a.meta.None? || (a.meta.value.Whole? && a.meta.value.meta.formatVersion == FORMAT_VERSION)
    ensures Verdict(a, job, hash).Ok? ==> Verdict(a, job, hash).value.meta.sha == hash(job.src.hashed)
  {
  }
}
