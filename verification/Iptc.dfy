// IPTC presets as bytes: an encoder, and a decoder that accepts nothing the encoder does not write.

module Iptc {
  import opened Wrappers
  import opened Bytes

  const NO_TEXT: Text := []
  const FIELD_COUNT: nat := 14
  const HEADER_LEN: nat := 12
  const KIND_PRESET: nat := 1

  function HeaderBytes(kind: nat): (h: seq<byte>)
    requires kind <= U16_MAX
    ensures |h| == HEADER_LEN
  {
    [0x01, 0, 0, 0, 0xC9, 0] + Le16(kind) + [0, 0, 0, 0]
  }

  datatype Preset = Preset(name: Text, fields: seq<Text>)

  datatype Record = Decoded(preset: Preset) | Other(kind: nat, bodyLen: nat)

  datatype DecodeError =
    | ShortHeader(len: nat)
    | OtherHeader
    | LengthCut(offset: nat, left: nat)
    | BareNul(offset: nat)
    | PastTheEnd(offset: nat, len: nat, left: nat)
    | NoNul(offset: nat, len: nat)
    | NotUtf8(offset: nat)
    | NulInside(offset: nat)
    | WrongCount(entries: nat)

  datatype EncodeError = ContainsNul | TooLong | WrongFieldCount(fields: nat)

  // ----- Encoding -----

  function EntryLengthPrefix(textLen: nat): Result<nat, EncodeError> {
    if textLen + 1 <= U32_MAX then Ok(textLen + 1) else Err(TooLong)
  }

  function EncodeEntry(t: Text): Result<seq<byte>, EncodeError> {
    if 0 in t then Err(ContainsNul)
    else if t == [] then Ok(Le32(0))
    else
      var len := EntryLengthPrefix(|t|);
      if len.Ok? then Ok(Le32(len.value) + t + [0]) else Err(len.error)
  }

  /** What the entries encode to, the first failure winning. */
  function Encoded(entries: seq<Text>): Result<seq<byte>, EncodeError> {
    if entries == [] then Ok([])
    else
      var first := EncodeEntry(entries[0]);
      if first.Err? then first
      else
        var rest := Encoded(entries[1..]);
        if rest.Err? then rest else Ok(first.value + rest.value)
  }

  lemma {:induction false} EncodedSnoc(entries: seq<Text>, t: Text)
    ensures Encoded(entries + [t]) ==
            if Encoded(entries).Err? then Encoded(entries)
            else if EncodeEntry(t).Err? then EncodeEntry(t)
            else Ok(Encoded(entries).value + EncodeEntry(t).value)
  {
    hide ValidUtf8;
    if entries == [] {
      assert [t][1..] == [] && entries + [t] == [t];
      if EncodeEntry(t).Ok? {
        assert EncodeEntry(t).value + [] == [] + EncodeEntry(t).value;
      }
    } else {
      EncodedSnoc(entries[1..], t);
      assert (entries + [t])[1..] == entries[1..] + [t];
      assert (entries + [t])[0] == entries[0];
      if Encoded(entries).Ok? && EncodeEntry(t).Ok? {
        var first, rest, last := EncodeEntry(entries[0]).value, Encoded(entries[1..]).value, EncodeEntry(t).value;
        assert first + (rest + last) == (first + rest) + last;
      }
    }
  }

  lemma {:induction false} EncodedFailsEarly(entries: seq<Text>, k: nat)
    requires k <= |entries| && Encoded(entries[..k]).Err?
    ensures Encoded(entries) == Encoded(entries[..k])
  {
    hide ValidUtf8;
    assert entries[..k][1..] == entries[1..][..k - 1];
    if EncodeEntry(entries[0]).Ok? {
      EncodedFailsEarly(entries[1..], k - 1);
    }
  }

  method EncodeEntries(entries: seq<Text>) returns (r: Result<seq<byte>, EncodeError>)
    ensures r == Encoded(entries)
  {
    hide ValidUtf8;
    var out: seq<byte> := [];
    for i := 0 to |entries|
      invariant Encoded(entries[..i]) == Ok(out)
    {
      var t := entries[i];
      assert entries[..i + 1] == entries[..i] + [t];
      EncodedSnoc(entries[..i], t);
      if Encoded(entries[..i + 1]).Err? {
        EncodedFailsEarly(entries, i + 1);
      }
      if 0 in t {
        return Err(ContainsNul);
      }
      if t == [] {
        out := out + Le32(0);
      } else {
        var len := EntryLengthPrefix(|t|);
        if len.Err? {
          return Err(len.error);
        }
        out := out + (Le32(len.value) + t + [0]);
      }
    }
    assert entries[..|entries|] == entries;
    r := Ok(out);
  }

  function EncodePresetRecord(entries: seq<Text>): Result<seq<byte>, EncodeError> {
    var body := Encoded(entries);
    if body.Err? then body else Ok(HeaderBytes(KIND_PRESET) + body.value)
  }

  function EncodePreset(p: Preset): Result<seq<byte>, EncodeError> {
    if |p.fields| != FIELD_COUNT then Err(WrongFieldCount(|p.fields|))
    else EncodePresetRecord([p.name] + p.fields)
  }

  // ----- Decoding -----

  /** The entry at the head of `b`, which starts at offset `at`, and how many bytes it takes. */
  function FirstEntry(b: seq<byte>, at: nat): (r: Result<(Text, nat), DecodeError>)
    requires b != []
    ensures r.Ok? ==> 4 <= r.value.1 <= |b|
  {
    if |b| < 4 then Err(LengthCut(at, |b|))
    else
      var len := FromLe32(b[..4]);
      if len == 0 then Ok(([], 4))
      else if len == 1 then Err(BareNul(at))
      else if 4 + len > |b| then Err(PastTheEnd(at + 4, len, |b| - 4))
      else if b[3 + len] != 0 then Err(NoNul(at + 4, len))
      else if !ValidUtf8(b[4..3 + len]) then Err(NotUtf8(at + 4))
      else if 0 in b[4..3 + len] then Err(NulInside(at + 4))
      else Ok((b[4..3 + len], 4 + len))
  }

  /** What the bytes from offset `at` decode to, entry by entry. */
  function Entries(b: seq<byte>, at: nat): Result<seq<Text>, DecodeError>
    decreases |b|
  {
    if b == [] then Ok([])
    else
      var first := FirstEntry(b, at);
      if first.Err? then Err(first.error)
      else Prepend(first.value.0, Entries(b[first.value.1..], at + first.value.1))
  }

  function Prepend(t: Text, rest: Result<seq<Text>, DecodeError>): Result<seq<Text>, DecodeError> {
    if rest.Ok? then Ok([t] + rest.value) else rest
  }

  function SlotOf(bytes: seq<byte>): Result<Record, DecodeError> {
    if |bytes| < HEADER_LEN then Err(ShortHeader(|bytes|))
    else
      var kind := FromLe16(bytes[6..8]);
      if kind != KIND_PRESET then Ok(Other(kind, |bytes| - HEADER_LEN))
      else if bytes[..HEADER_LEN] != HeaderBytes(KIND_PRESET) then Err(OtherHeader)
      else PresetOf(Entries(bytes[HEADER_LEN..], HEADER_LEN))
  }

  function PresetOf(entries: Result<seq<Text>, DecodeError>): Result<Record, DecodeError> {
    if entries.Err? then Err(entries.error)
    else if |entries.value| != 1 + FIELD_COUNT then Err(WrongCount(|entries.value|))
    else Ok(Decoded(Preset(entries.value[0], entries.value[1..])))
  }

  // ----- The two are inverse -----

  lemma FirstEntryEncodesBack(b: seq<byte>, at: nat)
    requires b != [] && FirstEntry(b, at).Ok?
    ensures var (t, size) := FirstEntry(b, at).value;
            EncodeEntry(t) == Ok(b[..size])
  {
    hide ValidUtf8;
    var len := FromLe32(b[..4]);
    Le32RoundTrip(len, b[..4]);
    if len != 0 {
      assert b[..4 + len] == b[..4] + b[4..3 + len] + [b[3 + len]];
    }
  }

  lemma LeadBytes(t: Text)
    requires EncodeEntry(t).Ok?
    ensures |EncodeEntry(t).value| >= 4
  {
  }

  lemma EntryDecodesBack(t: Text, rest: seq<byte>, at: nat)
    requires EncodeEntry(t).Ok?
    ensures var e := EncodeEntry(t).value;
            FirstEntry(e + rest, at) == Ok((t, |e|))
  {
    hide ValidUtf8;
    var len := if t == [] then 0 else |t| + 1;
    var b := EncodeEntry(t).value + rest;
    assert b[..4] == Le32(len);
    Le32RoundTrip(len, b[..4]);
    if t != [] {
      assert b[4..3 + len] == t && b[3 + len] == 0;
    }
  }

  /** Whatever entries decode, they encode back to the same bytes. */
  lemma {:induction false} DecodeThenEncode(b: seq<byte>, at: nat)
    requires Entries(b, at).Ok?
    ensures Encoded(Entries(b, at).value) == Ok(b)
    decreases |b|
  {
    hide FirstEntry, EncodeEntry, ValidUtf8;
    if b != [] {
      FirstEntryEncodesBack(b, at);
      var (t, size) := FirstEntry(b, at).value;
      DecodeThenEncode(b[size..], at + size);
      var es := Entries(b, at).value;
      assert es == [t] + Entries(b[size..], at + size).value;
      assert es[1..] == Entries(b[size..], at + size).value;
      assert b == b[..size] + b[size..];
    }
  }

  /** Whatever entries encode, they decode back to themselves. */
  lemma {:induction false} EncodeThenDecode(entries: seq<Text>, at: nat)
    requires Encoded(entries).Ok?
    ensures Entries(Encoded(entries).value, at) == Ok(entries)
  {
    hide FirstEntry, EncodeEntry, ValidUtf8;
    if entries != [] {
      var t, b := entries[0], Encoded(entries).value;
      var e, rest := EncodeEntry(t).value, Encoded(entries[1..]).value;
      EntryDecodesBack(t, rest, at);
      LeadBytes(t);
      assert b == e + rest && b[|e|..] == rest;
      assert b != [];
      EncodeThenDecode(entries[1..], at + |e|);
      assert entries == [t] + entries[1..];
    }
  }

  /** Encoded lists of entries are uniquely decodable. */
  lemma EncodedIsInjective(x: seq<Text>, y: seq<Text>)
    requires Encoded(x).Ok? && Encoded(x) == Encoded(y)
    ensures x == y
  {
    EncodeThenDecode(x, 0);
    EncodeThenDecode(y, 0);
  }

  /** The codec is a bijection between presets that encode and byte strings that decode to a preset. */
  lemma CodecIsABijection(b: seq<byte>, p: Preset)
    ensures SlotOf(b) == Ok(Decoded(p)) <==> EncodePreset(p) == Ok(b)
  {
    hide ValidUtf8;
    if SlotOf(b) == Ok(Decoded(p)) {
      var body := b[HEADER_LEN..];
      DecodeThenEncode(body, HEADER_LEN);
      var es := Entries(body, HEADER_LEN).value;
      assert [p.name] + p.fields == es;
      assert b == b[..HEADER_LEN] + body;
    }
    if EncodePreset(p) == Ok(b) {
      var es := [p.name] + p.fields;
      EncodeThenDecode(es, HEADER_LEN);
      assert b[..HEADER_LEN] == HeaderBytes(KIND_PRESET) && b[HEADER_LEN..] == Encoded(es).value;
      assert b[6..8] == Le16(KIND_PRESET);
      Le16RoundTrip(KIND_PRESET, b[6..8]);
      assert es[1..] == p.fields;
    }
  }

  // ----- What a slot is, by its bytes -----

  /** The twelve bytes before the entries of a preset. */
  predicate HasPresetHeader(b: seq<byte>) {
    |b| >= 12 && b[..12] == [0x01, 0x00, 0x00, 0x00, 0xC9, 0x00, 0x01, 0x00, 0x00, 0x00, 0x00, 0x00]
  }

  /** Which slots are too short, are of another kind, have another header, or have the wrong number of entries. */
  lemma SlotSays(b: seq<byte>)
    ensures SlotOf(b) == Err(ShortHeader(|b|)) <==> |b| < 12
    ensures forall kind, len :: SlotOf(b) == Ok(Other(kind, len)) <==>
              |b| >= 12 && kind == b[6] as int + 0x100 * b[7] as int && kind != 1 && len == |b| - 12
    ensures SlotOf(b) == Err(OtherHeader) <==> |b| >= 12 && b[6] == 1 && b[7] == 0 && !HasPresetHeader(b)
    ensures SlotOf(b).Ok? && SlotOf(b).value.Decoded? ==>
              HasPresetHeader(b) && |SlotOf(b).value.preset.fields| == 14
    ensures forall n :: SlotOf(b) == Err(WrongCount(n)) <==>
              HasPresetHeader(b) && n != 15 && exists es :: |es| == n && Encoded(es) == Ok(b[12..])
  {
    hide ValidUtf8, Entries, Encoded;
    if |b| >= 12 {
      var entries := Entries(b[12..], 12);
      NotOtherErrors(b[12..], 12);
      if entries.Ok? {
        DecodeThenEncode(b[12..], 12);
      }
      forall es | Encoded(es) == Ok(b[12..])
        ensures entries == Ok(es)
      {
        EncodeThenDecode(es, 12);
      }
      assert b[..12][6] == b[6] && b[..12][7] == b[7];
    }
  }

  lemma {:induction false} NotOtherErrors(b: seq<byte>, at: nat)
    ensures var r := Entries(b, at);
            r.Err? ==> !r.error.ShortHeader? && !r.error.OtherHeader? && !r.error.WrongCount?
    decreases |b|
  {
    hide ValidUtf8;
    if b != [] && FirstEntry(b, at).Ok? {
      NotOtherErrors(b[FirstEntry(b, at).value.1..], at + FirstEntry(b, at).value.1);
    }
  }

  /** An entry is refused for a NUL in it, and otherwise only where its length with the NUL does not fit 32 bits. */
  lemma EntryRefusedExactlyWhen(t: Text)
    ensures EncodeEntry(t) == Err(ContainsNul) <==> 0 in t
    ensures EncodeEntry(t) == Err(TooLong) <==> 0 !in t && |t| >= 0xFFFF_FFFF
    ensures EncodeEntry(t).Ok? <==> 0 !in t && |t| < 0xFFFF_FFFF
  {
    hide ValidUtf8;
  }

  // ----- The decoder's loop -----

  function PrependAll(es: seq<Text>, rest: Result<seq<Text>, DecodeError>): Result<seq<Text>, DecodeError> {
    if rest.Ok? then Ok(es + rest.value) else rest
  }

  /** Read a slot: a preset if and only if some preset encodes to these bytes. */
  method DecodeIptcSlot(bytes: seq<byte>) returns (r: Result<Record, DecodeError>)
    ensures r == SlotOf(bytes)
    ensures forall p :: r == Ok(Decoded(p)) <==> EncodePreset(p) == Ok(bytes)
  {
    forall p
      ensures SlotOf(bytes) == Ok(Decoded(p)) <==> EncodePreset(p) == Ok(bytes)
    {
      CodecIsABijection(bytes, p);
    }
    if |bytes| < HEADER_LEN {
      return Err(ShortHeader(|bytes|));
    }
    var kind := FromLe16(bytes[6..8]);
    if kind != KIND_PRESET {
      return Ok(Other(kind, |bytes| - HEADER_LEN));
    }
    if bytes[..HEADER_LEN] != HeaderBytes(KIND_PRESET) {
      return Err(OtherHeader);
    }
    var entries := DecodeLoop(bytes);
    return PresetOf(entries);
  }

  method DecodeLoop(bytes: seq<byte>) returns (r: Result<seq<Text>, DecodeError>)
    requires |bytes| >= HEADER_LEN
    ensures r == Entries(bytes[HEADER_LEN..], HEADER_LEN)
  {
    hide ValidUtf8, FirstEntry;
    var pos := HEADER_LEN;
    var entries: seq<Text> := [];
    PrependNone(Entries(bytes[pos..], pos));
    while pos < |bytes|
      invariant HEADER_LEN <= pos <= |bytes|
      invariant Entries(bytes[HEADER_LEN..], HEADER_LEN) == PrependAll(entries, Entries(bytes[pos..], pos))
    {
      var entry := ReadEntry(bytes, pos);
      if entry.Err? {
        return Err(entry.error);
      }
      var (text, size) := entry.value;
      assert bytes[pos..][size..] == bytes[pos + size..];
      PrependStep(entries, text, Entries(bytes[pos + size..], pos + size));
      entries := entries + [text];
      pos := pos + size;
    }
    assert bytes[pos..] == [] && entries + [] == entries;
    r := Ok(entries);
  }

  method ReadEntry(bytes: seq<byte>, pos: nat) returns (r: Result<(Text, nat), DecodeError>)
    requires pos < |bytes|
    ensures r == FirstEntry(bytes[pos..], pos)
    ensures r.Ok? ==> 4 <= r.value.1 <= |bytes| - pos
  {
    hide ValidUtf8;
    ghost var b := bytes[pos..];
    if |bytes| - pos < 4 {
      return Err(LengthCut(pos, |bytes| - pos));
    }
    var len := FromLe32(bytes[pos..pos + 4]);
    assert b[..4] == bytes[pos..pos + 4];
    var start := pos + 4;
    if len == 0 {
      return Ok((NO_TEXT, 4));
    }
    if len == 1 {
      return Err(BareNul(pos));
    }
    if start + len > |bytes| {
      return Err(PastTheEnd(start, len, |bytes| - start));
    }
    var text := bytes[start..start + len - 1];
    assert b[4..3 + len] == text && b[3 + len] == bytes[start + len - 1];
    if bytes[start + len - 1] != 0 {
      return Err(NoNul(start, len));
    }
    if !ValidUtf8(text) {
      return Err(NotUtf8(start));
    }
    if 0 in text {
      return Err(NulInside(start));
    }
    return Ok((text, 4 + len));
  }

  lemma PrependNone(r: Result<seq<Text>, DecodeError>)
    ensures PrependAll([], r) == r
  {
    if r.Ok? {
      assert [] + r.value == r.value;
    }
  }

  lemma PrependStep(es: seq<Text>, t: Text, rest: Result<seq<Text>, DecodeError>)
    ensures PrependAll(es, Prepend(t, rest)) == PrependAll(es + [t], rest)
  {
    if rest.Ok? {
      assert es + ([t] + rest.value) == es + [t] + rest.value;
    }
  }
}
