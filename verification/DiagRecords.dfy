// The records of src/diag.rs: what a span, an event and the in-flight file hold.

module DiagRecords {
  import opened Wrappers

  const MIN_RING_CAP: nat := 8
  const OP_EXIT := "exit"
  const FIELD_CODE := "code"
  const FIELD_CUT_OFF := "cut_off"
  const FIELD_WRITE_FAILURES := "write_failures"
  const FIELD_EVICTED := "evicted"

  datatype Subsystem =
    Cli | Gui | Mcp | Usb | MaidSdk | Snapshot | Transplant | Restore | Firmware | Lock | Diagnostics
  {
    predicate IsRole() {
      Cli? || Gui? || Mcp?
    }
  }

  datatype Outcome = Success | Failed | Timeout | Stalled | Indeterminate | Panicked | Abandoned | Cancelled

  datatype Class = Top | Leaf

  datatype Kind = Span | Event

  datatype Val =
    | U64(n: nat)
    | I64(i: int)
    | Bool(b: bool)
    | Hex(code: nat)
    | Len(len: nat)
    | Hash(digest: string)
    | Text(text: string)
    | TruncatedText(kept: string, originalChars: nat)

  type Fields = seq<(string, Val)>

  /** What the ring and its file hold: spans that have ended, and events. */
  datatype Entry = Entry(
    seqNo: nat,
    kind: Kind,
    cls: Class,
    subsystem: Subsystem,
    op: string,
    fields: Fields,
    depth: nat,
    thread: nat,
    outcome: Option<Outcome>)

  /** What the in-flight file lists. */
  datatype OpenSpan = OpenSpan(
    seqNo: nat,
    cls: Class,
    subsystem: Subsystem,
    op: string,
    fields: Fields,
    depth: nat,
    thread: nat)

  datatype InflightFile = InflightFile(
    role: Subsystem,
    spans: seq<OpenSpan>,
    writeFailures: nat,
    evicted: nat)

  /** The first value stored under `key`. */
  function FieldOf(fields: Fields, key: string): Option<Val> {
    if fields == [] then None
    else if fields[0].0 == key then Some(fields[0].1)
    else FieldOf(fields[1..], key)
  }

  /** Give `key` the value `v`, in the place it has or, having none, at the end. */
  function PutField(fields: Fields, key: string, v: Val): Fields {
    if fields == [] then [(key, v)]
    else if fields[0].0 == key then [(key, v)] + fields[1..]
    else [fields[0]] + PutField(fields[1..], key, v)
  }

  function PutAll(fields: Fields, extra: Fields): Fields
    decreases |extra|
  {
    if extra == [] then fields
    else PutAll(PutField(fields, extra[0].0, extra[0].1), extra[1..])
  }

  function OwnFields(fields: Fields): Fields {
    PutAll([], fields)
  }

  ghost predicate KeysDistinct(fields: Fields) {
    forall i, j :: 0 <= i < j < |fields| ==> fields[i].0 != fields[j].0
  }

  /** The value given last under `key`, which is what a reader must find. */
  function LatestOf(fields: Fields, key: string): Option<Val> {
    if fields == [] then None
    else if fields[|fields| - 1].0 == key then Some(fields[|fields| - 1].1)
    else LatestOf(fields[..|fields| - 1], key)
  }

  lemma {:induction false} PutFieldKeys(fields: Fields, key: string, v: Val)
    requires KeysDistinct(fields)
    ensures KeysDistinct(PutField(fields, key, v))
    ensures forall j :: 0 <= j < |PutField(fields, key, v)| ==>
              PutField(fields, key, v)[j].0 == key || (j < |fields| && PutField(fields, key, v)[j].0 == fields[j].0)
  {
    if fields != [] && fields[0].0 != key {
      var rest := PutField(fields[1..], key, v);
      PutFieldKeys(fields[1..], key, v);
      forall j | 0 <= j < |rest|
        ensures rest[j].0 != fields[0].0
        ensures rest[j].0 == key || (j + 1 < |fields| && rest[j].0 == fields[j + 1].0)
      {
      }
    }
  }

  lemma {:induction false} FieldOfPutField(fields: Fields, key: string, v: Val, k: string)
    ensures FieldOf(PutField(fields, key, v), k) == if k == key then Some(v) else FieldOf(fields, k)
  {
    if fields != [] {
      if fields[0].0 == key {
        assert PutField(fields, key, v)[1..] == fields[1..];
      } else {
        FieldOfPutField(fields[1..], key, v, k);
        assert PutField(fields, key, v)[1..] == PutField(fields[1..], key, v);
      }
    }
  }

  /** One field a key, holding the value given last: a reader that finds the first one finds the latest. */
  lemma {:induction false} PutAllKeepsLatest(fields: Fields, extra: Fields, key: string)
    requires KeysDistinct(fields)
    ensures KeysDistinct(PutAll(fields, extra))
    ensures FieldOf(PutAll(fields, extra), key) ==
            if LatestOf(extra, key).Some? then LatestOf(extra, key) else FieldOf(fields, key)
    decreases |extra|
  {
    if extra != [] {
      var next := PutField(fields, extra[0].0, extra[0].1);
      PutFieldKeys(fields, extra[0].0, extra[0].1);
      FieldOfPutField(fields, extra[0].0, extra[0].1, key);
      PutAllKeepsLatest(next, extra[1..], key);
      LatestOfCons(extra, key);
    }
  }

  lemma {:induction false} LatestOfCons(fields: Fields, key: string)
    requires fields != []
    ensures LatestOf(fields, key) ==
            if LatestOf(fields[1..], key).Some? then LatestOf(fields[1..], key)
            else if fields[0].0 == key then Some(fields[0].1) else None
  {
    var n := |fields|;
    if n > 1 && fields[n - 1].0 != key {
      LatestOfCons(fields[..n - 1], key);
      assert fields[..n - 1][1..] == fields[1..][..n - 2];
    }
  }

  /** Lower is evicted first. */
  function EvictionRank(e: Entry): nat {
    match (e.kind, e.cls)
    case (Event, _) => 2
    case (Span, Leaf) => if e.outcome == Some(Success) then 0 else 2
    case (Span, Top) => if e.outcome == Some(Success) then 1 else 3
  }

  predicate IsExit(e: Entry) {
    e.kind == Event && e.op == OP_EXIT && e.subsystem.IsRole()
  }
}
