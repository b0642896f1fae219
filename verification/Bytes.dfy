// Bytes, little-endian integers, UTF-8 and hex: what the binary formats are made of.

module Bytes {
  import opened Wrappers

  type byte = b: int | 0 <= b < 256

  const U16_MAX: nat := 0xFFFF
  const U32_MAX: nat := 0xFFFF_FFFF

  function Le16(n: nat): seq<byte>
    requires n <= U16_MAX
  {
    [n % 256, n / 256]
  }

  function FromLe16(b: seq<byte>): (n: nat)
    requires |b| == 2
    ensures n <= U16_MAX
  {
    b[0] as int + 256 * b[1] as int
  }

  function Le32(n: nat): (b: seq<byte>)
    requires n <= U32_MAX
    ensures |b| == 4
  {
    Le16(n % 0x1_0000) + Le16(n / 0x1_0000)
  }

  function FromLe32(b: seq<byte>): (n: nat)
    requires |b| == 4
    ensures n <= U32_MAX
  {
    FromLe16(b[..2]) + 0x1_0000 * FromLe16(b[2..])
  }

  lemma Le16RoundTrip(n: nat, b: seq<byte>)
    requires n <= U16_MAX && |b| == 2
    ensures FromLe16(b) == n <==> b == Le16(n)
  {
  }

  lemma Le32RoundTrip(n: nat, b: seq<byte>)
    requires n <= U32_MAX && |b| == 4
    ensures FromLe32(b) == n <==> b == Le32(n)
  {
    Le16RoundTrip(n % 0x1_0000, b[..2]);
    Le16RoundTrip(n / 0x1_0000, b[2..]);
    assert b == b[..2] + b[2..];
    assert Le32(n)[..2] == Le16(n % 0x1_0000) && Le32(n)[2..] == Le16(n / 0x1_0000);
  }

  // ----- UTF-8 -----

  predicate Continuation(b: byte) {
    0x80 <= b <= 0xBF
  }

  /** The well-formed byte sequences of RFC 3629, section 4. */
  predicate ValidUtf8(s: seq<byte>) {
    if s == [] then true
    else if s[0] <= 0x7F then ValidUtf8(s[1..])
    else if 0xC2 <= s[0] <= 0xDF then |s| >= 2 && Continuation(s[1]) && ValidUtf8(s[2..])
    else if 0xE0 <= s[0] <= 0xEF then
      && |s| >= 3
      && Continuation(s[1])
      && (s[0] == 0xE0 ==> s[1] >= 0xA0)
      && (s[0] == 0xED ==> s[1] <= 0x9F)
      && Continuation(s[2])
      && ValidUtf8(s[3..])
    else if 0xF0 <= s[0] <= 0xF4 then
      && |s| >= 4
      && Continuation(s[1])
      && (s[0] == 0xF0 ==> s[1] >= 0x90)
      && (s[0] == 0xF4 ==> s[1] <= 0x8F)
      && Continuation(s[2])
      && Continuation(s[3])
      && ValidUtf8(s[4..])
    else false
  }

  /** A string, as the UTF-8 bytes that hold it. */
  type Text = s: seq<byte> | ValidUtf8(s)

  // ----- Hex -----

  function HexDigit(d: nat): char
    requires d < 16
  {
    "0123456789abcdef"[d]
  }

  /** The value of a hex digit, of either case. */
  function DigitValue(c: char): (d: Option<nat>)
    ensures d.Some? ==> d.value < 16
  {
    if '0' <= c <= '9' then Some(c as int - '0' as int)
    else if 'a' <= c <= 'f' then Some(c as int - 'a' as int + 10)
    else if 'A' <= c <= 'F' then Some(c as int - 'A' as int + 10)
    else None
  }

  function HexEncode(data: seq<byte>): (text: string)
    ensures |text| == 2 * |data|
  {
    if data == [] then ""
    else [HexDigit(data[0] / 16), HexDigit(data[0] % 16)] + HexEncode(data[1..])
  }

  function HexDecode(text: string): Option<seq<byte>> {
    if text == "" then Some([])
    else if |text| == 1 then None
    else
      var hi, lo, rest := DigitValue(text[0]), DigitValue(text[1]), HexDecode(text[2..]);
      if hi.Some? && lo.Some? && rest.Some? then Some([16 * hi.value + lo.value] + rest.value) else None
  }

  /** The form the writer uses: digits and lower-case letters only. */
  predicate LowerHex(text: string) {
    forall i :: 0 <= i < |text| ==> '0' <= text[i] <= '9' || 'a' <= text[i] <= 'f'
  }

  lemma DigitRoundTrip(d: nat)
    requires d < 16
    ensures DigitValue(HexDigit(d)) == Some(d)
    ensures '0' <= HexDigit(d) <= '9' || 'a' <= HexDigit(d) <= 'f'
  {
  }

  lemma HexPair(hi: char, lo: char, rest: string)
    requires DigitValue(hi).Some? && DigitValue(lo).Some? && DigitValue(hi).value < 16 && DigitValue(lo).value < 16
    ensures HexDecode([hi, lo] + rest) ==
            if HexDecode(rest).None? then None
            else Some([16 * DigitValue(hi).value + DigitValue(lo).value] + HexDecode(rest).value)
  {
    hide DigitValue;
    var text := [hi, lo] + rest;
    assert text[0] == hi && text[1] == lo && text[2..] == rest;
  }

  lemma {:induction false} HexRoundTrip(data: seq<byte>)
    ensures HexDecode(HexEncode(data)) == Some(data) && LowerHex(HexEncode(data))
  {
    hide HexDigit, DigitValue, HexDecode;
    if data == [] {
      NoDigits();
    } else {
      DigitRoundTrip(data[0] / 16);
      DigitRoundTrip(data[0] % 16);
      HexRoundTrip(data[1..]);
      HexPair(HexDigit(data[0] / 16), HexDigit(data[0] % 16), HexEncode(data[1..]));
      assert [16 * (data[0] / 16) + data[0] % 16] + data[1..] == data;
    }
  }

  lemma NoDigits()
    ensures HexDecode("") == Some([])
  {
  }

  lemma {:induction false} LowerHexSpells(text: string)
    requires LowerHex(text) && HexDecode(text).Some?
    ensures text == HexEncode(HexDecode(text).value)
  {
    if text != "" {
      var data := HexDecode(text).value;
      LowerDigit(text[0]);
      LowerDigit(text[1]);
      LowerHexSpells(text[2..]);
      assert data[1..] == HexDecode(text[2..]).value;
      assert data[0] / 16 == DigitValue(text[0]).value && data[0] % 16 == DigitValue(text[1]).value;
      assert text == [text[0], text[1]] + text[2..];
    }
  }

  /** In lower case, one text spells one byte string. */
  lemma {:induction false} HexIsInjective(text: string, data: seq<byte>)
    requires LowerHex(text)
    ensures HexDecode(text) == Some(data) <==> text == HexEncode(data)
  {
    HexRoundTrip(data);
    if HexDecode(text).Some? {
      LowerHexSpells(text);
    }
  }

  lemma LowerDigit(c: char)
    requires '0' <= c <= '9' || 'a' <= c <= 'f'
    ensures DigitValue(c).Some? && HexDigit(DigitValue(c).value) == c
  {
  }

  /** The letters of hexadecimal, written large. */
  function Capital(c: char): char {
    match c
    case 'a' => 'A'
    case 'b' => 'B'
    case 'c' => 'C'
    case 'd' => 'D'
    case 'e' => 'E'
    case 'f' => 'F'
    case _ => c
  }

  ghost predicate SameDigits(text: string, lower: string) {
    |text| == |lower| && forall i :: 0 <= i < |text| ==> text[i] == lower[i] || text[i] == Capital(lower[i])
  }

  /** In either case, letter by letter, a text decodes to exactly the bytes whose encoding it writes. */
  lemma {:induction false} HexIgnoresCase(text: string, data: seq<byte>)
    ensures HexDecode(text) == Some(data) <==> SameDigits(text, HexEncode(data))
    decreases |data| + |text|
  {
    hide DigitValue, HexDigit;
    if data == [] || |text| < 2 {
      ShortText(text, data);
    } else {
      HexIgnoresCase(text[2..], data[1..]);
      DigitIs(text[0], data[0] / 16);
      DigitIs(text[1], data[0] % 16);
      DecodedPair(text, data);
      SamePair(text, HexEncode(data));
      assert HexEncode(data)[2..] == HexEncode(data[1..]);
    }
  }

  lemma ShortText(text: string, data: seq<byte>)
    requires data == [] || |text| < 2
    ensures HexDecode(text) == Some(data) <==> SameDigits(text, HexEncode(data))
  {
  }

  lemma DigitIs(c: char, d: nat)
    requires d < 16
    ensures DigitValue(c) == Some(d) <==> c == HexDigit(d) || c == Capital(HexDigit(d))
  {
  }

  lemma DecodedPair(text: string, data: seq<byte>)
    requires |text| >= 2 && data != []
    ensures HexDecode(text) == Some(data) <==>
            && DigitValue(text[0]) == Some(data[0] / 16) && DigitValue(text[1]) == Some(data[0] % 16)
            && HexDecode(text[2..]) == Some(data[1..])
  {
    hide DigitValue;
    assert text == [text[0], text[1]] + text[2..];
    assert data == [data[0]] + data[1..];
    assert data[0] == 16 * (data[0] / 16) + data[0] % 16;
  }

  lemma SamePair(text: string, lower: string)
    requires |text| >= 2 && |lower| >= 2
    ensures SameDigits(text, lower) <==>
            && (text[0] == lower[0] || text[0] == Capital(lower[0]))
            && (text[1] == lower[1] || text[1] == Capital(lower[1]))
            && SameDigits(text[2..], lower[2..])
  {
    hide Capital;
    var x, y := text[2..], lower[2..];
    assert forall i :: 0 <= i < |x| ==> x[i] == text[i + 2];
    assert forall i :: 0 <= i < |y| ==> y[i] == lower[i + 2];
    if SameDigits(x, y) {
      forall i | 2 <= i < |text|
        ensures text[i] == lower[i] || text[i] == Capital(lower[i])
      {
        assert x[i - 2] == y[i - 2] || x[i - 2] == Capital(y[i - 2]);
      }
    }
  }
}
