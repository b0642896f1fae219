// Well-formed UTF-8 and UTF-16 (RFC 3629, section 3; RFC 2781, section 2): what the two checks accept is exactly what
// encodes some list of Unicode scalar values.

module Unicode {
  import opened Wrappers
  import opened Bytes
  import opened FtpBlob

  /** A code point that is not a surrogate. */
  type Scalar = c: nat | c < 0xD800 || 0xE000 <= c <= 0x10FFFF

  function Utf8Of(c: Scalar): (s: seq<byte>)
    ensures 1 <= |s| <= 4
  {
    if c < 0x80 then [c]
    else if c < 0x800 then [0xC0 + c / 0x40, 0x80 + c % 0x40]
    else if c < 0x1_0000 then [0xE0 + c / 0x1000, 0x80 + c / 0x40 % 0x40, 0x80 + c % 0x40]
    else [0xF0 + c / 0x4_0000, 0x80 + c / 0x1000 % 0x40, 0x80 + c / 0x40 % 0x40, 0x80 + c % 0x40]
  }

  function Utf8Text(cs: seq<Scalar>): seq<byte> {
    if cs == [] then [] else Utf8Of(cs[0]) + Utf8Text(cs[1..])
  }

  function Utf16Of(c: Scalar): (u: seq<Unit>)
    ensures 1 <= |u| <= 2
  {
    if c < 0x1_0000 then [c] else [0xD800 + (c - 0x1_0000) / 0x400, 0xDC00 + (c - 0x1_0000) % 0x400]
  }

  function Utf16Text(cs: seq<Scalar>): seq<Unit> {
    if cs == [] then [] else Utf16Of(cs[0]) + Utf16Text(cs[1..])
  }

  // ----- UTF-8 -----

  lemma OneThenValid(c: Scalar, rest: seq<byte>)
    ensures ValidUtf8(Utf8Of(c) + rest) <==> ValidUtf8(rest)
  {
    var head := Utf8Of(c);
    var s := head + rest;
    assert s[|head|..] == rest;
    if c >= 0x800 {
      ThreeOrFour(c, s);
    }
  }

  /** The second byte is in the range its first one asks for. */
  lemma ThreeOrFour(c: Scalar, s: seq<byte>)
    requires c >= 0x800 && Utf8Of(c) <= s
    ensures c < 0x1_0000 ==>
              && 0xE0 <= s[0] <= 0xEF && Continuation(s[1]) && Continuation(s[2])
              && (s[0] == 0xE0 ==> s[1] >= 0xA0) && (s[0] == 0xED ==> s[1] <= 0x9F)
    ensures c >= 0x1_0000 ==>
              && 0xF0 <= s[0] <= 0xF4 && Continuation(s[1]) && Continuation(s[2]) && Continuation(s[3])
              && (s[0] == 0xF0 ==> s[1] >= 0x90) && (s[0] == 0xF4 ==> s[1] <= 0x8F)
  {
    assert forall i :: 0 <= i < |Utf8Of(c)| ==> s[i] == Utf8Of(c)[i];
  }

  /** The first scalar value of a text, and the bytes it takes. */
  lemma FirstScalar(s: seq<byte>) returns (c: Scalar)
    requires s != [] && ValidUtf8(s)
    ensures Utf8Of(c) <= s && ValidUtf8(s[|Utf8Of(c)|..])
  {
    if s[0] <= 0x7F {
      c := s[0];
      assert s[..1] == Utf8Of(c);
    } else if s[0] <= 0xDF {
      c := 0x40 * (s[0] as int - 0xC0) + (s[1] as int - 0x80);
      assert s[..2] == Utf8Of(c);
    } else if s[0] <= 0xEF {
      c := OfThree(s[0] as int - 0xE0, s[1] as int - 0x80, s[2] as int - 0x80);
      assert s[..3] == Utf8Of(c);
    } else {
      c := OfFour(s[0] as int - 0xF0, s[1] as int - 0x80, s[2] as int - 0x80, s[3] as int - 0x80);
      assert s[..4] == Utf8Of(c);
    }
  }

  lemma OfThree(x: nat, y: nat, z: nat) returns (c: Scalar)
    requires x < 0x10 && y < 0x40 && z < 0x40 && (x == 0 ==> y >= 0x20) && (x == 0xD ==> y < 0x20)
    ensures Utf8Of(c) == [(0xE0 + x) as byte, (0x80 + y) as byte, (0x80 + z) as byte]
  {
    c := 0x1000 * x + 0x40 * y + z;
    ThreeDigits(x, y, z);
  }

  lemma OfFour(w: nat, x: nat, y: nat, z: nat) returns (c: Scalar)
    requires w <= 4 && x < 0x40 && y < 0x40 && z < 0x40 && (w == 0 ==> x >= 0x10) && (w == 4 ==> x < 0x10)
    ensures Utf8Of(c) == [(0xF0 + w) as byte, (0x80 + x) as byte, (0x80 + y) as byte, (0x80 + z) as byte]
  {
    c := 0x4_0000 * w + 0x1000 * x + 0x40 * y + z;
    FourDigits(w, x, y, z);
  }

  lemma ThreeDigits(x: nat, y: nat, z: nat)
    requires y < 0x40 && z < 0x40
    ensures var c := 0x1000 * x + 0x40 * y + z; c / 0x1000 == x && c / 0x40 % 0x40 == y && c % 0x40 == z
  {
    var c := 0x1000 * x + 0x40 * y + z;
    assert c / 0x40 == 0x40 * x + y;
  }

  lemma FourDigits(w: nat, x: nat, y: nat, z: nat)
    requires x < 0x40 && y < 0x40 && z < 0x40
    ensures var c := 0x4_0000 * w + 0x1000 * x + 0x40 * y + z;
            c / 0x4_0000 == w && c / 0x1000 % 0x40 == x && c / 0x40 % 0x40 == y && c % 0x40 == z
  {
    var c := 0x4_0000 * w + 0x1000 * x + 0x40 * y + z;
    assert c / 0x40 == 0x1000 * w + 0x40 * x + y && c / 0x1000 == 0x40 * w + x;
  }

  lemma {:induction false} TextIsValid(cs: seq<Scalar>)
    ensures ValidUtf8(Utf8Text(cs))
  {
    if cs != [] {
      TextIsValid(cs[1..]);
      OneThenValid(cs[0], Utf8Text(cs[1..]));
    }
  }

  lemma {:induction false} Scalars(s: seq<byte>) returns (cs: seq<Scalar>)
    requires ValidUtf8(s)
    ensures Utf8Text(cs) == s
  {
    hide ValidUtf8, Utf8Of;
    cs := [];
    if s != [] {
      var c := FirstScalar(s);
      var n := |Utf8Of(c)|;
      var rest := Scalars(s[n..]);
      cs := [c] + rest;
      assert cs[1..] == rest && s == s[..n] + s[n..];
    }
  }

  /** A byte string is accepted as UTF-8 exactly when it encodes some list of scalar values. */
  lemma Utf8ExactlyWhen(s: seq<byte>)
    ensures ValidUtf8(s) <==> exists cs :: Utf8Text(cs) == s
  {
    if ValidUtf8(s) {
      var cs := Scalars(s);
    }
    if cs :| Utf8Text(cs) == s {
      TextIsValid(cs);
    }
  }

  // ----- UTF-16 -----

  lemma OneThenPaired(c: Scalar, rest: seq<Unit>)
    ensures Paired(Utf16Of(c) + rest) <==> Paired(rest)
  {
    assert (Utf16Of(c) + rest)[|Utf16Of(c)|..] == rest;
  }

  lemma {:induction false} TextIsPaired(cs: seq<Scalar>)
    ensures Paired(Utf16Text(cs))
  {
    if cs != [] {
      TextIsPaired(cs[1..]);
      OneThenPaired(cs[0], Utf16Text(cs[1..]));
    }
  }

  lemma {:induction false} ScalarsOfUnits(u: seq<Unit>) returns (cs: seq<Scalar>)
    requires Paired(u)
    ensures Utf16Text(cs) == u
  {
    cs := [];
    if u != [] {
      var c: Scalar := 0;
      var rest: seq<Scalar> := [];
      if 0xD800 <= u[0] < 0xDC00 {
        c := 0x1_0000 + 0x400 * (u[0] as int - 0xD800) + (u[1] as int - 0xDC00);
        rest := ScalarsOfUnits(u[2..]);
        assert Utf16Of(c) == u[..2] && u == u[..2] + u[2..];
      } else {
        c := u[0];
        rest := ScalarsOfUnits(u[1..]);
        assert Utf16Of(c) == u[..1] && u == u[..1] + u[1..];
      }
      cs := [c] + rest;
      assert cs[1..] == rest;
    }
  }

  /** Units are paired up exactly when they encode some list of scalar values. */
  lemma Utf16ExactlyWhen(u: seq<Unit>)
    ensures Paired(u) <==> exists cs :: Utf16Text(cs) == u
  {
    if Paired(u) {
      var cs := ScalarsOfUnits(u);
    }
    if cs :| Utf16Text(cs) == u {
      TextIsPaired(cs);
    }
  }
}
