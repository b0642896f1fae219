// What a property's value is: the bytes of each type, and the number they stand for.

module PropValues {
  import opened Wrappers
  import opened Bytes
  import opened PropDesc

  /** Byte `i` of a number in two's complement, the lowest first. */
  function ByteOf(v: int, i: nat): int
    decreases i
  {
    if i == 0 then v % 256 else ByteOf(v / 256, i - 1)
  }

  ghost predicate HasBytes(v: int, b: seq<byte>) {
    forall i :: 0 <= i < |b| ==> ByteOf(v, i) == b[i]
  }

  /** What is left of a number above its lowest `n` bytes. */
  function Upper(v: int, n: nat): int
    decreases n
  {
    if n == 0 then v else Upper(v / 256, n - 1)
  }

  lemma {:induction false} BytesAndUpper(v: int, b: seq<byte>)
    ensures HasBytes(v, b) <==> v == FromLe(b) + Pow256(|b|) * Upper(v, |b|)
    decreases |b|
  {
    if b != [] {
      var n, rest := |b| - 1, b[1..];
      BytesAndUpper(v / 256, rest);
      var u := Upper(v, |b|);
      assert Pow256(|b|) * u == 256 * (Pow256(n) * u);
      assert (forall i :: 0 <= i < n ==> ByteOf(v / 256, i) == rest[i]) <==>
          forall i :: 0 < i < |b| ==> ByteOf(v, i) == b[i] by {
        assert forall i :: 0 < i < |b| ==> ByteOf(v, i) == ByteOf(v / 256, i - 1) && b[i] == rest[i - 1];
        assert forall i :: 0 <= i < n ==> ByteOf(v / 256, i) == ByteOf(v, i + 1) && rest[i] == b[i + 1];
      }
      assert v == 256 * (v / 256) + v % 256;
    }
  }

  lemma {:induction false} FromLeFits(b: seq<byte>)
    ensures FromLe(b) < Pow256(|b|)
  {
    if b != [] {
      FromLeFits(b[1..]);
    }
  }

  lemma {:induction false} UpperOf(x: int, n: nat, k: int)
    requires 0 <= x < Pow256(n)
    ensures Upper(x + Pow256(n) * k, n) == k
  {
    if n > 0 {
      var low := Pow256(n - 1) * k;
      assert Pow256(n) * k == 256 * low;
      UpperOf(x / 256, n - 1, k);
      assert (x + 256 * low) / 256 == x / 256 + low;
    }
  }

  lemma Powers()
    ensures Pow256(1) == 0x100 && Pow256(2) == 0x1_0000 && Pow256(4) == 0x1_0000_0000
    ensures Pow256(8) == 0x1_0000_0000_0000_0000
  {
    assert Pow256(3) == 0x100_0000 && Pow256(5) == 0x100_0000_0000 && Pow256(6) == 0x1_0000_0000_0000;
    assert Pow256(7) == 0x100_0000_0000_0000;
  }

  /** A field of `width` bytes, and the number from `lo` to `hi` that has those bytes, or none if that has none. */
  ghost predicate IsInteger(raw: seq<byte>, number: Option<int>, width: nat, lo: int, hi: int) {
    |raw| == width && forall v :: number == Some(v) <==> lo <= v <= hi && HasBytes(v, raw)
  }

  /** What a value of each type is: its bytes, and its number where it is an integer of up to eight bytes. */
  ghost predicate IsOfType(raw: seq<byte>, number: Option<int>, dt: nat) {
    match dt
    case 1 => IsInteger(raw, number, 1, -0x80, 0x7F)
    case 2 => IsInteger(raw, number, 1, 0, 0xFF)
    case 3 => IsInteger(raw, number, 2, -0x8000, 0x7FFF)
    case 4 => IsInteger(raw, number, 2, 0, 0xFFFF)
    case 5 => IsInteger(raw, number, 4, -0x8000_0000, 0x7FFF_FFFF)
    case 6 => IsInteger(raw, number, 4, 0, 0xFFFF_FFFF)
    case 7 => IsInteger(raw, number, 8, -0x8000_0000_0000_0000, 0x7FFF_FFFF_FFFF_FFFF)
    case 8 => IsInteger(raw, number, 8, 0, 0x7FFF_FFFF_FFFF_FFFF)
    case 9 => |raw| == 16 && number.None?
    case 10 => |raw| == 16 && number.None?
    case 0xFFFF => |raw| >= 1 && |raw| == 1 + 2 * raw[0] as int && number.None?
    case _ => 0x4001 <= dt <= 0x400A && number.None? && IsArray(raw, [1, 1, 2, 2, 4, 4, 8, 8, 16, 16][dt - 0x4001])
  }

  /** Four bytes of count, then as many elements. */
  ghost predicate IsArray(raw: seq<byte>, width: nat) {
    |raw| >= 4 && exists count: nat :: HasBytes(count, raw[..4]) && count < 0x1_0000_0000 && |raw| == 4 + count * width
  }

  /** The value read, whatever the type, is exactly one of that type: numbers in two's complement, lowest byte first. */
  lemma ValueSaysItsType(v: PropValue, dt: nat)
    ensures ValidValue(v, dt) <==> IsOfType(v.raw, v.number, dt)
  {
    hide IsInteger, IsArray, IntOf, FromLe;
    if ScalarWidth(dt).Some? {
      if dt <= 8 && |v.raw| == ScalarWidth(dt).value.0 {
        NumberHasTheBytes(v.raw, ScalarWidth(dt).value.1, v.number);
      }
      WrongWidth(v.raw, v.number);
    } else if ElementType(dt).Some? && 0x4001 <= dt <= 0x400A {
      ArrayIsCounted(v.raw, [1, 1, 2, 2, 4, 4, 8, 8, 16, 16][dt - 0x4001]);
    }
  }

  lemma WrongWidth(raw: seq<byte>, number: Option<int>)
    ensures forall width, lo, hi :: IsInteger(raw, number, width, lo, hi) ==> |raw| == width
    ensures |raw| == 16 ==> forall signed :: IntOf(raw, signed).None?
  {
  }

  lemma ArrayIsCounted(raw: seq<byte>, width: nat)
    ensures IsArray(raw, width) <==> |raw| >= 4 && |raw| == 4 + FromLe32(raw[..4]) * width
  {
    if |raw| >= 4 {
      var head := raw[..4];
      FourBytes(head);
      Powers();
      forall count: nat | count < 0x1_0000_0000
        ensures HasBytes(count, head) <==> count == FromLe32(head)
      {
        BytesAndUpper(count, head);
        UpperOf(count, 4, 0);
      }
      assert HasBytes(FromLe32(head), head);
    }
  }

  lemma FourBytes(b: seq<byte>)
    requires |b| == 4
    ensures FromLe(b) == FromLe32(b)
  {
    assert b[1..][1..] == b[2..] && b[2..][1..] == b[3..] && b[3..][1..] == [];
    assert FromLe(b[3..]) == b[3] as int + 256 * FromLe([]);
    assert FromLe(b[2..]) == b[2] as int + 256 * FromLe(b[3..]);
    assert FromLe(b[1..]) == b[1] as int + 256 * FromLe(b[2..]);
  }

  lemma NumberHasTheBytes(raw: seq<byte>, signed: bool, number: Option<int>)
    requires |raw| in {1, 2, 4, 8}
    ensures var p := [0x100, 0x1_0000, 0, 0x1_0000_0000, 0, 0, 0, 0x1_0000_0000_0000_0000][|raw| - 1];
            number == IntOf(raw, signed) <==>
            if signed then IsInteger(raw, number, |raw|, -(p / 2), p / 2 - 1)
            else IsInteger(raw, number, |raw|, 0, if |raw| == 8 then p / 2 - 1 else p - 1)
  {
    hide HasBytes, IsInteger, FromLe, Pow256;
    Powers();
    FromLeFits(raw);
    var p: int := Pow256(|raw|);
    var lo: int := if signed then -(p / 2) else 0;
    var hi: int := if signed || |raw| == 8 then p / 2 - 1 else p - 1;
    forall v
      ensures IntOf(raw, signed) == Some(v) <==> lo <= v <= hi && HasBytes(v, raw)
    {
      if -p <= v < p {
        BytesWithin(v, raw);
      }
    }
    OneNumber(raw, number, IntOf(raw, signed), lo, hi);
  }

  lemma BytesWithin(v: int, raw: seq<byte>)
    requires 0 <= v + Pow256(|raw|) && v < Pow256(|raw|)
    ensures HasBytes(v, raw) <==> v == FromLe(raw) || v == FromLe(raw) - Pow256(|raw|)
  {
    hide HasBytes, FromLe;
    FromLeFits(raw);
    BytesAndUpper(v, raw);
    if v < 0 {
      UpperOf(v + Pow256(|raw|), |raw|, -1);
    } else {
      UpperOf(v, |raw|, 0);
    }
  }

  lemma OneNumber(raw: seq<byte>, number: Option<int>, found: Option<int>, lo: int, hi: int)
    requires forall v :: found == Some(v) <==> lo <= v <= hi && HasBytes(v, raw)
    ensures number == found <==> IsInteger(raw, number, |raw|, lo, hi)
  {
    hide HasBytes;
    if IsInteger(raw, number, |raw|, lo, hi) {
      if number.Some? {
        var v := number.value;
        assert number == Some(v);
        assert HasBytes(v, raw);
        assert found == Some(v);
      }
      if found.Some? {
        var v := found.value;
        assert found == Some(v);
        assert HasBytes(v, raw);
        assert number == Some(v);
      }
    }
  }

  /** Which types cannot be read: an array of no known element, and what is neither a scalar, an array nor a string. */
  lemma UnreadableTypes(s: seq<byte>, len: nat, dt: nat, what: What)
    ensures forall n :: ValueRead(s, len, dt, what) == Read.Failed(UnknownElement(what, n)) <==>
              (dt == 0x4000 || 0x400B <= dt <= 0x400F) && n == dt - 0x4000
    ensures forall n :: ValueRead(s, len, dt, what) == Read.Failed(UnknownType(what, n)) <==>
              !(1 <= dt <= 10 || 0x4000 <= dt <= 0x400F || dt == 0xFFFF) && n == dt
  {
  }
}
