// The property descriptor dataset (ISO 15740, section 13.3.3): a grammar, a cursor that never passes the end, and a
// parser whose fault-free results are exactly the well-formed descriptors.

module PropDesc {
  import opened Wrappers
  import opened Bytes

  const STRING: nat := 0xFFFF
  const ARRAY_BASE: nat := 0x4000
  const I64_MAX: nat := 0x7FFF_FFFF_FFFF_FFFF

  datatype What =
    | FactoryDefault | CurrentValue | FormFlag | RangeMinimum | RangeMaximum | RangeStep | EnumCount | EnumValue(i: nat)
    | Head

  datatype Fault =
    | OtherCode(found: nat, asked: nat)
    | Short(what: What, needs: nat, at: nat, left: nat)
    | UnknownElement(what: What, elementType: nat)
    | ArrayTooLong(what: What, count: nat, width: nat, left: nat)
    | UnknownType(what: What, dataType: nat)
    | CountTooBig(count: nat, left: nat)
    | UnknownForm(flag: nat)

  /** A value: its bytes, and the number they are if they are one of at most 64 bits, signed. */
  datatype PropValue = PropValue(raw: seq<byte>, number: Option<int>)

  datatype PropForm = NoForm | Range(min: PropValue, max: PropValue, step: PropValue) | Enum(values: seq<PropValue>)

  datatype PropDesc = PropDesc(
    code: nat,
    dataType: nat,
    getSet: byte,
    default: Option<PropValue>,
    current: Option<PropValue>,
    form: Option<PropForm>,
    trailing: Option<seq<byte>>,
    fault: Option<Fault>)

  /** Bytes and signedness of a scalar integer type. */
  function ScalarWidth(dt: nat): (r: Option<(nat, bool)>)
    ensures r.Some? ==> 1 <= r.value.0 <= 16
  {
    match dt
    case 1 => Some((1, true))
    case 2 => Some((1, false))
    case 3 => Some((2, true))
    case 4 => Some((2, false))
    case 5 => Some((4, true))
    case 6 => Some((4, false))
    case 7 => Some((8, true))
    case 8 => Some((8, false))
    case 9 => Some((16, true))
    case 10 => Some((16, false))
    case _ => None
  }

  function FromLe(b: seq<byte>): nat {
    if b == [] then 0 else b[0] as int + 256 * FromLe(b[1..])
  }

  function Pow256(n: nat): nat {
    if n == 0 then 1 else 256 * Pow256(n - 1)
  }

  function IntOf(b: seq<byte>, signed: bool): Option<int> {
    if !(|b| in {1, 2, 4, 8}) then None
    else
      var u := FromLe(b);
      if signed then Some(if 2 * u >= Pow256(|b|) then u - Pow256(|b|) else u)
      else if u > I64_MAX then None else Some(u)
  }

  function ElementType(dt: nat): Option<nat> {
    if ARRAY_BASE <= dt < ARRAY_BASE + 16 then Some(dt - ARRAY_BASE) else None
  }

  /** The integer a value of type `dt` carries. */
  function IntFor(raw: seq<byte>, dt: nat): Option<int> {
    if ScalarWidth(dt).Some? then IntOf(raw, ScalarWidth(dt).value.1) else None
  }

  // ----- What a dataset is -----

  /** The bytes of one value: a scalar, a counted string of UTF-16 units, or a counted array of scalars. */
  predicate ValidRaw(raw: seq<byte>, dt: nat) {
    if ScalarWidth(dt).Some? then |raw| == ScalarWidth(dt).value.0
    else if dt == STRING then |raw| >= 1 && |raw| == 1 + 2 * raw[0] as int
    else
      && ElementType(dt).Some?
      && ScalarWidth(ElementType(dt).value).Some?
      && |raw| >= 4
      && |raw| == 4 + FromLe32(raw[..4]) * ScalarWidth(ElementType(dt).value).value.0
  }

  predicate ValidValue(v: PropValue, dt: nat) {
    ValidRaw(v.raw, dt) && v.number == IntFor(v.raw, dt)
  }

  function RawAll(values: seq<PropValue>): seq<byte> {
    if values == [] then [] else values[0].raw + RawAll(values[1..])
  }

  function FormBytes(f: PropForm): seq<byte>
    requires f.Enum? ==> |f.values| <= U16_MAX
  {
    match f
    case NoForm => [0]
    case Range(min, max, step) => [1] + (min.raw + (max.raw + step.raw))
    case Enum(values) => [2] + (Le16(|values|) + RawAll(values))
  }

  predicate ValidForm(f: PropForm, dt: nat) {
    match f
    case NoForm => true
    case Range(min, max, step) => ValidValue(min, dt) && ValidValue(max, dt) && ValidValue(step, dt)
    case Enum(values) => |values| <= U16_MAX && forall i :: 0 <= i < |values| ==> ValidValue(values[i], dt)
  }

  /** A descriptor with every field there and of its own type. */
  predicate WellFormed(d: PropDesc) {
    && d.code <= U16_MAX && d.dataType <= U16_MAX
    && d.default.Some? && ValidValue(d.default.value, d.dataType)
    && d.current.Some? && ValidValue(d.current.value, d.dataType)
    && d.form.Some? && ValidForm(d.form.value, d.dataType)
    && (d.trailing.Some? ==> d.trailing.value != [])
    && d.fault.None?
  }

  function Trailing(d: PropDesc): seq<byte> {
    if d.trailing.Some? then d.trailing.value else []
  }

  function BodyBytes(d: PropDesc): seq<byte>
    requires WellFormed(d)
  {
    d.default.value.raw + (d.current.value.raw + (FormBytes(d.form.value) + Trailing(d)))
  }

  function Serialised(d: PropDesc): seq<byte>
    requires WellFormed(d)
  {
    Le16(d.code) + (Le16(d.dataType) + ([d.getSet] + BodyBytes(d)))
  }

  // ----- Reading -----

  datatype Read<T> = Got(value: T, rest: seq<byte>) | Failed(fault: Fault)

  /** Take `n` bytes off what is left of a dataset of `len` bytes. */
  function Taken(s: seq<byte>, len: nat, n: nat, what: What): (r: Read<seq<byte>>)
    ensures r.Got? ==> s == r.value + r.rest && |r.value| == n
  {
    if n <= |s| then Got(s[..n], s[n..]) else Failed(Short(what, n, if len >= |s| then len - |s| else 0, |s|))
  }

  function ValueRead(s: seq<byte>, len: nat, dt: nat, what: What): Read<PropValue> {
    if ScalarWidth(dt).Some? then
      var b := Taken(s, len, ScalarWidth(dt).value.0, what);
      if b.Got? then Got(PropValue(b.value, IntOf(b.value, ScalarWidth(dt).value.1)), b.rest) else Failed(b.fault)
    else if dt == STRING then
      var chars := Taken(s, len, 1, what);
      if chars.Failed? then Failed(chars.fault)
      else
        var body := Taken(chars.rest, len, 2 * chars.value[0] as int, what);
        if body.Got? then Got(PropValue(chars.value + body.value, None), body.rest) else Failed(body.fault)
    else if ElementType(dt).Some? then
      var w := ScalarWidth(ElementType(dt).value);
      if w.None? then Failed(UnknownElement(what, ElementType(dt).value))
      else
        var head := Taken(s, len, 4, what);
        if head.Failed? then Failed(head.fault)
        else
          var count := FromLe32(head.value);
          if count * w.value.0 > |head.rest| then Failed(ArrayTooLong(what, count, w.value.0, |head.rest|))
          else
            var body := Taken(head.rest, len, count * w.value.0, what);
            if body.Got? then Got(PropValue(head.value + body.value, None), body.rest) else Failed(body.fault)
    else Failed(UnknownType(what, dt))
  }

  /** A value is read exactly when the bytes start with a valid one, which is then the one read. */
  lemma ValueReadExactly(s: seq<byte>, len: nat, dt: nat, what: What)
    ensures var r := ValueRead(s, len, dt, what);
            r.Got? ==> ValidValue(r.value, dt) && s == r.value.raw + r.rest
  {
    if ScalarWidth(dt).None? && dt != STRING {
      ArrayReadExactly(s, len, dt, what);
    }
  }

  lemma ArrayReadExactly(s: seq<byte>, len: nat, dt: nat, what: What)
    requires ScalarWidth(dt).None? && dt != STRING
    ensures var r := ValueRead(s, len, dt, what);
            r.Got? ==> ValidValue(r.value, dt) && s == r.value.raw + r.rest
  {
    hide ScalarWidth, FromLe32, IntOf;
    var r := ValueRead(s, len, dt, what);
    if r.Got? {
      assert r.value.raw[..4] == s[..4];
    }
  }

  lemma ValidValueIsRead(v: PropValue, rest: seq<byte>, len: nat, dt: nat, what: What)
    requires ValidValue(v, dt)
    ensures ValueRead(v.raw + rest, len, dt, what) == Got(v, rest)
  {
    var s := v.raw + rest;
    assert s[|v.raw|..] == rest && s[..|v.raw|] == v.raw;
    if ScalarWidth(dt).None? {
      if dt == STRING {
        assert s[..1] + s[1..][..|v.raw| - 1] == v.raw && s[1..][|v.raw| - 1..] == rest;
      } else {
        assert s[..4] == v.raw[..4];
        assert s[..4] + s[4..][..|v.raw| - 4] == v.raw && s[4..][|v.raw| - 4..] == rest;
      }
    }
  }

  /** Up to `count` values: those read, and what is left or where it stopped. */
  function ValuesRead(s: seq<byte>, len: nat, dt: nat, count: nat, from: nat): (seq<PropValue>, Read<()>)
    decreases count
  {
    if count == 0 then ([], Got((), s))
    else
      var v := ValueRead(s, len, dt, EnumValue(from));
      if v.Failed? then ([], Failed(v.fault))
      else
        var (more, end) := ValuesRead(v.rest, len, dt, count - 1, from + 1);
        ([v.value] + more, end)
  }

  lemma {:induction false} ValuesReadExactly(s: seq<byte>, len: nat, dt: nat, count: nat, from: nat)
    ensures var (values, end) := ValuesRead(s, len, dt, count, from);
            end.Got? ==>
              && |values| == count
              && s == RawAll(values) + end.rest
              && forall i :: 0 <= i < |values| ==> ValidValue(values[i], dt)
    decreases count
  {
    hide ValueRead, ValidValue;
    if count > 0 {
      ValueReadExactly(s, len, dt, EnumValue(from));
      var v := ValueRead(s, len, dt, EnumValue(from));
      if v.Got? {
        ValuesReadExactly(v.rest, len, dt, count - 1, from + 1);
        var (more, end) := ValuesRead(v.rest, len, dt, count - 1, from + 1);
        assert ([v.value] + more)[1..] == more;
      }
    }
  }

  lemma {:induction false} ValidValuesAreRead(values: seq<PropValue>, rest: seq<byte>, len: nat, dt: nat, from: nat)
    requires forall i :: 0 <= i < |values| ==> ValidValue(values[i], dt)
    ensures ValuesRead(RawAll(values) + rest, len, dt, |values|, from) == (values, Got((), rest))
    decreases |values|
  {
    hide ValueRead, ValidValue;
    if values == [] {
      assert RawAll(values) + rest == rest;
    } else {
      var more := RawAll(values[1..]) + rest;
      assert RawAll(values) + rest == values[0].raw + more;
      ValidValueIsRead(values[0], more, len, dt, EnumValue(from));
      assert forall i :: 0 <= i < |values| - 1 ==> values[1..][i] == values[i + 1];
      ValidValuesAreRead(values[1..], rest, len, dt, from + 1);
      assert values == [values[0]] + values[1..];
    }
  }

  /** Every value takes at least one byte, so a count beyond the bytes left is never one whose values are all there. */
  lemma {:induction false} ValuesTakeBytes(values: seq<PropValue>, dt: nat)
    requires forall i :: 0 <= i < |values| ==> ValidValue(values[i], dt)
    ensures |RawAll(values)| >= |values|
  {
    if values != [] {
      assert |values[0].raw| >= 1;
      ValuesTakeBytes(values[1..], dt);
    }
  }

  function FormRead(s: seq<byte>, len: nat, dt: nat): (Option<PropForm>, Read<()>) {
    var flag := Taken(s, len, 1, FormFlag);
    if flag.Failed? then (None, Failed(flag.fault))
    else
      var t := flag.rest;
      match flag.value[0]
      case 0 => (Some(NoForm), Got((), t))
      case 1 =>
        var min := ValueRead(t, len, dt, RangeMinimum);
        if min.Failed? then (None, Failed(min.fault))
        else
          var max := ValueRead(min.rest, len, dt, RangeMaximum);
          if max.Failed? then (None, Failed(max.fault))
          else
            var step := ValueRead(max.rest, len, dt, RangeStep);
            if step.Failed? then (None, Failed(step.fault))
            else (Some(Range(min.value, max.value, step.value)), Got((), step.rest))
      case 2 =>
        var head := Taken(t, len, 2, EnumCount);
        if head.Failed? then (None, Failed(head.fault))
        else
          var count := FromLe16(head.value);
          if count > |head.rest| then (None, Failed(CountTooBig(count, |head.rest|)))
          else
            var (values, end) := ValuesRead(head.rest, len, dt, count, 0);
            (Some(Enum(values)), end)
      case other => (None, Failed(UnknownForm(other)))
  }

  lemma FormReadExactly(s: seq<byte>, len: nat, dt: nat)
    ensures var (form, end) := FormRead(s, len, dt);
            end.Got? ==> form.Some? && ValidForm(form.value, dt) && s == FormBytes(form.value) + end.rest
  {
    hide ValueRead, ValidValue, ValuesRead;
    var (form, end) := FormRead(s, len, dt);
    if end.Got? {
      var t := s[1..];
      assert s == [s[0]] + t;
      match form.value
      case NoForm =>
      case Range(_, _, _) =>
        ValueReadExactly(t, len, dt, RangeMinimum);
        var min := ValueRead(t, len, dt, RangeMinimum);
        ValueReadExactly(min.rest, len, dt, RangeMaximum);
        var max := ValueRead(min.rest, len, dt, RangeMaximum);
        ValueReadExactly(max.rest, len, dt, RangeStep);
      case Enum(values) =>
        var count := FromLe16(t[..2]);
        ValuesReadExactly(t[2..], len, dt, count, 0);
        Le16RoundTrip(count, t[..2]);
        assert t == t[..2] + t[2..];
    }
  }

  lemma ValidFormIsRead(f: PropForm, rest: seq<byte>, len: nat, dt: nat)
    requires ValidForm(f, dt)
    ensures FormRead(FormBytes(f) + rest, len, dt) == (Some(f), Got((), rest))
  {
    match f
    case NoForm => assert (FormBytes(f) + rest)[1..] == rest;
    case Range(min, max, step) => ValidRangeIsRead(min, max, step, rest, len, dt);
    case Enum(values) => ValidEnumIsRead(values, rest, len, dt);
  }

  lemma ValidRangeIsRead(min: PropValue, max: PropValue, step: PropValue, rest: seq<byte>, len: nat, dt: nat)
    requires ValidForm(Range(min, max, step), dt)
    ensures FormRead(FormBytes(Range(min, max, step)) + rest, len, dt) == (Some(Range(min, max, step)), Got((), rest))
  {
    hide ValueRead, ValidValue, ValuesRead;
    var s := FormBytes(Range(min, max, step)) + rest;
    var afterMin, afterMax := max.raw + (step.raw + rest), step.raw + rest;
    assert s[1..] == min.raw + afterMin && s[..1] == [1];
    ValidValueIsRead(min, afterMin, len, dt, RangeMinimum);
    ValidValueIsRead(max, afterMax, len, dt, RangeMaximum);
    ValidValueIsRead(step, rest, len, dt, RangeStep);
  }

  lemma ValidEnumIsRead(values: seq<PropValue>, rest: seq<byte>, len: nat, dt: nat)
    requires ValidForm(Enum(values), dt)
    ensures FormRead(FormBytes(Enum(values)) + rest, len, dt) == (Some(Enum(values)), Got((), rest))
  {
    hide ValueRead, ValidValue, ValuesRead, RawAll, FormRead;
    ValuesTakeBytes(values, dt);
    ValidValuesAreRead(values, rest, len, dt, 0);
    var head, t := Le16(|values|), RawAll(values) + rest;
    Le16RoundTrip(|values|, head);
    EnumFormUnfolds(head, t, len, dt);
    assert FormBytes(Enum(values)) + rest == [2] + (head + t);
  }

  lemma EnumFormUnfolds(head: seq<byte>, t: seq<byte>, len: nat, dt: nat)
    requires |head| == 2 && FromLe16(head) <= |t|
    ensures FormRead([2] + (head + t), len, dt) ==
            (Some(Enum(ValuesRead(t, len, dt, FromLe16(head), 0).0)), ValuesRead(t, len, dt, FromLe16(head), 0).1)
  {
    hide ValuesRead, ValueRead;
    var s := [2] + (head + t);
    assert s[..1] == [2] && s[1..] == head + t;
    assert s[1..][..2] == head && s[1..][2..] == t;
  }

  /** Everything after the head, field by field; what was read before a fault is kept. */
  function BodyRead(s: seq<byte>, d: PropDesc, len: nat): (PropDesc, Read<()>) {
    var default := ValueRead(s, len, d.dataType, FactoryDefault);
    if default.Failed? then (d, Failed(default.fault))
    else
      var current := ValueRead(default.rest, len, d.dataType, CurrentValue);
      if current.Failed? then (d.(default := Some(default.value)), Failed(current.fault))
      else
        var (form, end) := FormRead(current.rest, len, d.dataType);
        (d.(default := Some(default.value), current := Some(current.value), form := form), end)
  }

  function Parsed(data: seq<byte>, asked: nat): Option<PropDesc> {
    if |data| < 5 then None
    else
      var code, dt := FromLe16(data[..2]), FromLe16(data[2..4]);
      var d := PropDesc(code, dt, data[4], None, None, None, None, None);
      if code != asked then Some(d.(fault := Some(OtherCode(code, asked))))
      else
        var (read, end) := BodyRead(data[5..], d, |data|);
        if end.Failed? then Some(read.(fault := Some(end.fault)))
        else Some(read.(trailing := if end.rest == [] then None else Some(end.rest)))
  }

  // ----- Lossless and unambiguous -----

  lemma BodyReadExactly(s: seq<byte>, d: PropDesc, len: nat)
    requires d.form.None? && d.fault.None? && d.trailing.None? && d.code <= U16_MAX && d.dataType <= U16_MAX
    ensures var (read, end) := BodyRead(s, d, len);
            end.Got? ==>
              var whole := read.(trailing := if end.rest == [] then None else Some(end.rest));
              WellFormed(whole) && BodyBytes(whole) == s
  {
    hide ValueRead, ValidValue, FormRead, ValidForm, FormBytes;
    var dt := d.dataType;
    ValueReadExactly(s, len, dt, FactoryDefault);
    var default := ValueRead(s, len, dt, FactoryDefault);
    if default.Got? {
      ValueReadExactly(default.rest, len, dt, CurrentValue);
      var current := ValueRead(default.rest, len, dt, CurrentValue);
      if current.Got? {
        FormReadExactly(current.rest, len, dt);
      }
    }
  }

  /** A dataset parsed without a fault serialises back to exactly its bytes. */
  lemma ParseThenSerialise(data: seq<byte>, asked: nat)
    requires Parsed(data, asked).Some? && Parsed(data, asked).value.fault.None?
    ensures var d := Parsed(data, asked).value;
            WellFormed(d) && Serialised(d) == data && d.code == asked
  {
    hide BodyRead, BodyBytes;
    var code, dt := FromLe16(data[..2]), FromLe16(data[2..4]);
    var d := PropDesc(code, dt, data[4], None, None, None, None, None);
    BodyReadExactly(data[5..], d, |data|);
    KeepsHead(data[5..], d, |data|);
    Le16RoundTrip(code, data[..2]);
    Le16RoundTrip(dt, data[2..4]);
    assert data == data[..2] + (data[2..4] + ([data[4]] + data[5..]));
  }

  lemma KeepsHead(s: seq<byte>, d: PropDesc, len: nat)
    ensures var read := BodyRead(s, d, len).0;
            read.code == d.code && read.dataType == d.dataType && read.getSet == d.getSet && read.fault == d.fault
  {
  }

  /** A well-formed descriptor is what its own bytes parse to. */
  lemma SerialiseThenParse(d: PropDesc)
    requires WellFormed(d)
    ensures Parsed(Serialised(d), d.code) == Some(d)
  {
    hide ValueRead, ValidValue, FormRead, FormBytes;
    var data := Serialised(d);
    var dt := d.dataType;
    assert data[..2] == Le16(d.code) && data[2..4] == Le16(dt) && data[4] == d.getSet && data[5..] == BodyBytes(d);
    Le16RoundTrip(d.code, data[..2]);
    Le16RoundTrip(dt, data[2..4]);
    var afterDefault := d.current.value.raw + (FormBytes(d.form.value) + Trailing(d));
    ValidValueIsRead(d.default.value, afterDefault, |data|, dt, FactoryDefault);
    ValidValueIsRead(d.current.value, FormBytes(d.form.value) + Trailing(d), |data|, dt, CurrentValue);
    ValidFormIsRead(d.form.value, Trailing(d), |data|, dt);
  }

  /** A fault-free parse reads the same descriptor off any longer dataset, the rest becoming trailing bytes. */
  lemma LongerDataset(d: PropDesc, more: seq<byte>)
    requires WellFormed(d) && more != []
    ensures Parsed(Serialised(d) + more, d.code) == Some(d.(trailing := Some(Trailing(d) + more)))
  {
    hide ValidForm, ValidValue, FormBytes, Parsed;
    var longer := d.(trailing := Some(Trailing(d) + more));
    assert Serialised(longer) == Serialised(d) + more by {
      hide WellFormed;
    }
    SerialiseThenParse(longer);
  }

  lemma SameCode(x: PropDesc, y: PropDesc, more: seq<byte>)
    requires WellFormed(x) && WellFormed(y) && Serialised(x) == Serialised(y) + more
    ensures x.code == y.code
  {
    hide BodyBytes;
    assert Serialised(x)[..2] == Le16(x.code) && Serialised(x)[..2] == Le16(y.code);
    Le16RoundTrip(x.code, Le16(x.code));
    Le16RoundTrip(y.code, Le16(x.code));
  }

  /** No strict prefix of a dataset without trailing bytes passes for a whole one. */
  lemma PrefixIsFaulted(d: PropDesc, prefix: seq<byte>, asked: nat)
    requires WellFormed(d) && d.trailing.None? && prefix < Serialised(d)
    ensures Parsed(prefix, asked).None? || Parsed(prefix, asked).value.fault.Some?
  {
    hide Serialised, WellFormed, Parsed;
    if Parsed(prefix, asked).Some? && Parsed(prefix, asked).value.fault.None? {
      ParseThenSerialise(prefix, asked);
      var p := Parsed(prefix, asked).value;
      var more := Serialised(d)[|prefix|..];
      assert Serialised(d) == Serialised(p) + more;
      LongerDataset(p, more);
      SameCode(d, p, more);
      SerialiseThenParse(d);
    }
  }

  // ----- The cursor -----

  class Reader {
    const data: seq<byte>
    var pos: nat

    constructor (data: seq<byte>)
      ensures this.data == data && pos == 0 && Valid() && Rest() == data
    {
      this.data, pos := data, 0;
    }

    predicate Valid()
      reads this
    {
      pos <= |data|
    }

    function Rest(): seq<byte>
      requires Valid()
      reads this
    {
      data[pos..]
    }

    /** The call gave what reading the bytes left gives, and took what that takes. */
    ghost predicate Gives<T>(r: Result<T, Fault>, read: Read<T>)
      requires Valid()
      reads this
    {
      if read.Got? then r == Ok(read.value) && Rest() == read.rest else r == Err(read.fault)
    }

    method Take(n: nat, what: What) returns (r: Result<seq<byte>, Fault>)
      requires Valid()
      modifies this
      ensures Valid() && Gives(r, Taken(old(Rest()), |data|, n, what))
      ensures r.Ok? ==> old(pos) + n == pos && r.value == data[old(pos)..pos]
    {
      ghost var s := Rest();
      var end := pos + n;
      if end <= |data| {
        assert s[..n] == data[pos..end] && s[n..] == data[end..];
        r := Ok(data[pos..end]);
        pos := end;
      } else {
        r := Err(Short(what, n, pos, |data| - pos));
      }
    }

    /** One value of type `dt`, kept whole as bytes. */
    method ReadValue(dt: nat, what: What) returns (r: Result<PropValue, Fault>)
      requires Valid()
      modifies this
      ensures Valid() && Gives(r, ValueRead(old(Rest()), |data|, dt, what))
    {
      var w := ScalarWidth(dt);
      if w.Some? {
        var b := Take(w.value.0, what);
        return if b.Ok? then Ok(PropValue(b.value, IntOf(b.value, w.value.1))) else Err(b.error);
      }
      var start := pos;
      if dt == STRING {
        var chars := Take(1, what);
        if chars.Err? {
          return Err(chars.error);
        }
        var body := Take(2 * chars.value[0] as int, what);
        if body.Err? {
          return Err(body.error);
        }
        assert data[start..pos] == chars.value + body.value;
        return Ok(PropValue(data[start..pos], None));
      }
      if ElementType(dt).None? {
        return Err(UnknownType(what, dt));
      }
      var e := ScalarWidth(ElementType(dt).value);
      if e.None? {
        return Err(UnknownElement(what, ElementType(dt).value));
      }
      r := ReadArray(dt, e.value.0, what);
    }

    method ReadArray(dt: nat, width: nat, what: What) returns (r: Result<PropValue, Fault>)
      requires Valid()
      requires ScalarWidth(dt).None? && dt != STRING && ElementType(dt).Some?
      requires ScalarWidth(ElementType(dt).value).Some? && width == ScalarWidth(ElementType(dt).value).value.0
      modifies this
      ensures Valid() && Gives(r, ValueRead(old(Rest()), |data|, dt, what))
    {
      hide ScalarWidth, FromLe32;
      var start := pos;
      var head := Take(4, what);
      if head.Err? {
        return Err(head.error);
      }
      var count := FromLe32(head.value);
      if count * width > |data| - pos {
        return Err(ArrayTooLong(what, count, width, |data| - pos));
      }
      var body := Take(count * width, what);
      assert data[start..pos] == head.value + body.value;
      return Ok(PropValue(data[start..pos], None));
    }

    /** `count` values; those read before a fault are kept. */
    method ReadValues(dt: nat, count: nat) returns (values: seq<PropValue>, end: Result<(), Fault>)
      requires Valid()
      modifies this
      ensures Valid() && values == ValuesRead(old(Rest()), |data|, dt, count, 0).0
      ensures Gives(end, ValuesRead(old(Rest()), |data|, dt, count, 0).1)
    {
      hide ValueRead;
      ghost var s := Rest();
      values := [];
      AfterNone(ValuesRead(s, |data|, dt, count, 0));
      for i := 0 to count
        invariant Valid()
        invariant ValuesRead(s, |data|, dt, count, 0) == After(values, ValuesRead(Rest(), |data|, dt, count - i, i))
      {
        ghost var here := Rest();
        var v := ReadValue(dt, EnumValue(i));
        if v.Err? {
          return values, Err(v.error);
        }
        AfterStep(values, v.value, ValuesRead(Rest(), |data|, dt, count - i - 1, i + 1));
        values := values + [v.value];
      }
      end := Ok(());
    }

    method ReadForm(dt: nat) returns (form: Option<PropForm>, end: Result<(), Fault>)
      requires Valid()
      modifies this
      ensures Valid() && form == FormRead(old(Rest()), |data|, dt).0
      ensures Gives(end, FormRead(old(Rest()), |data|, dt).1)
    {
      hide ValueRead, ValuesRead;
      var flag := Take(1, FormFlag);
      if flag.Err? {
        return None, Err(flag.error);
      }
      match flag.value[0]
      case 0 =>
        return Some(NoForm), Ok(());
      case 1 =>
        var min := ReadValue(dt, RangeMinimum);
        if min.Err? {
          return None, Err(min.error);
        }
        var max := ReadValue(dt, RangeMaximum);
        if max.Err? {
          return None, Err(max.error);
        }
        var step := ReadValue(dt, RangeStep);
        if step.Err? {
          return None, Err(step.error);
        }
        return Some(Range(min.value, max.value, step.value)), Ok(());
      case 2 =>
        var head := Take(2, EnumCount);
        if head.Err? {
          return None, Err(head.error);
        }
        var count := FromLe16(head.value);
        // Too few bytes for one a value (`ValuesTakeBytes`).
        if count > |data| - pos {
          return None, Err(CountTooBig(count, |data| - pos));
        }
        var values, stop := ReadValues(dt, count);
        return Some(Enum(values)), stop;
      case other =>
        return None, Err(UnknownForm(other));
    }
  }

  function After(values: seq<PropValue>, rest: (seq<PropValue>, Read<()>)): (seq<PropValue>, Read<()>) {
    (values + rest.0, rest.1)
  }

  lemma AfterNone(rest: (seq<PropValue>, Read<()>))
    ensures After([], rest) == rest
  {
    assert [] + rest.0 == rest.0;
  }

  lemma AfterStep(values: seq<PropValue>, v: PropValue, rest: (seq<PropValue>, Read<()>))
    ensures After(values, ([v] + rest.0, rest.1)) == After(values + [v], rest)
  {
    assert values + ([v] + rest.0) == values + [v] + rest.0;
  }

  /** Parse a reply. A fault-free result is the one descriptor whose bytes these are. */
  method ParsePropDesc(data: seq<byte>, asked: nat) returns (r: Option<PropDesc>)
    ensures r == Parsed(data, asked)
    ensures r.Some? && r.value.fault.None? ==> WellFormed(r.value) && Serialised(r.value) == data
  {
    hide ValueRead, FormRead, WellFormed, Serialised;
    if Parsed(data, asked).Some? && Parsed(data, asked).value.fault.None? {
      ParseThenSerialise(data, asked);
    }
    if |data| < 5 {
      return None;
    }
    var d := PropDesc(FromLe16(data[..2]), FromLe16(data[2..4]), data[4], None, None, None, None, None);
    if d.code != asked {
      return Some(d.(fault := Some(OtherCode(d.code, asked))));
    }
    var reader := new Reader(data);
    var _ := reader.Take(5, Head);
    var default := reader.ReadValue(d.dataType, FactoryDefault);
    if default.Err? {
      return Some(d.(fault := Some(default.error)));
    }
    d := d.(default := Some(default.value));
    var current := reader.ReadValue(d.dataType, CurrentValue);
    if current.Err? {
      return Some(d.(fault := Some(current.error)));
    }
    d := d.(current := Some(current.value));
    var form, end := reader.ReadForm(d.dataType);
    d := d.(form := form);
    if end.Err? {
      return Some(d.(fault := Some(end.error)));
    }
    if reader.Rest() != [] {
      d := d.(trailing := Some(reader.Rest()));
    }
    return Some(d);
  }
}
