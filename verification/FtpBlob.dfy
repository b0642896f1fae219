// The FTP profile blob of scripts/ptpip_read_ftp.py: a strict decoder of a fixed layout, and how much of a blob its
// fields hold.

module FtpBlob {
  import opened Wrappers
  import opened Bytes

  // ----- UTF-16 units -----

  type Unit = u: nat | u <= U16_MAX

  function Units(raw: seq<byte>): (u: seq<Unit>)
    requires |raw| % 2 == 0
    ensures |u| == |raw| / 2
  {
    if raw == [] then [] else [FromLe16(raw[..2])] + Units(raw[2..])
  }

  function UnitBytes(u: seq<Unit>): (raw: seq<byte>)
    ensures |raw| == 2 * |u|
  {
    if u == [] then [] else Le16(u[0]) + UnitBytes(u[1..])
  }

  lemma {:induction false} UnitsRoundTrip(raw: seq<byte>)
    requires |raw| % 2 == 0
    ensures UnitBytes(Units(raw)) == raw
  {
    if raw != [] {
      Le16RoundTrip(FromLe16(raw[..2]), raw[..2]);
      UnitsRoundTrip(raw[2..]);
      assert Units(raw)[1..] == Units(raw[2..]);
    }
  }

  lemma {:induction false} UnitBytesRoundTrip(u: seq<Unit>)
    ensures Units(UnitBytes(u)) == u
  {
    if u != [] {
      UnitBytesRoundTrip(u[1..]);
      assert UnitBytes(u)[..2] == Le16(u[0]) && UnitBytes(u)[2..] == UnitBytes(u[1..]);
      Le16RoundTrip(u[0], Le16(u[0]));
    }
  }

  /** No unpaired surrogate (the Unicode Standard, section 3.9). */
  predicate Paired(u: seq<Unit>) {
    if u == [] then true
    else if 0xD800 <= u[0] < 0xDC00 then |u| >= 2 && 0xDC00 <= u[1] < 0xE000 && Paired(u[2..])
    else !(0xDC00 <= u[0] < 0xE000) && Paired(u[1..])
  }

  predicate GoodText(u: seq<Unit>) {
    0 !in u && Paired(u)
  }

  // ----- The layout -----

  const BLOB_HEADER: seq<byte> := [0xF4, 0x01]
  const NETWORK_TAG: seq<byte> := [0x02, 0x03, 0x03]
  const NETWORK_PAD: seq<byte> := [0, 0, 0, 0, 0, 0, 0, 0]
  const HOST_TAG: seq<byte> := [0x01]
  const PORT_SECTION_PAD: seq<byte> := [0, 0, 0, 0, 0]
  const IPV6_SEPARATOR: seq<byte> := [0x40]
  const BLOB_TRAILER: seq<byte> := [0x81]

  datatype What =
    | Header | ProfileName | Timestamp1 | Timestamp2 | NetworkTag | CameraAddress | PrefixLength | NetworkPadding
    | Ssid24Tag | Ssid24 | Ssid5Tag | Ssid5 | HostTag | Host | Folder | FtpPort | Username | Password | OptionFlags
    | SecondPort | PortPadding | Ipv6Field1 | Ipv6Separator | Ipv6Field2 | Ipv6Field3 | Trailer | BlobEnd

  /** What may stand at a place: fixed bytes, so many free ones, a PTP string, a counted UTF-8 text, or an SSID tag. */
  datatype Shape = Fixed(bytes: seq<byte>) | Free(n: nat) | PtpString | Utf8 | Tag24 | Tag5

  datatype Spot = Spot(what: What, shape: Shape)

  function Layout(): seq<Spot> {
    [Spot(Header, Fixed(BLOB_HEADER)),
     Spot(ProfileName, PtpString), Spot(Timestamp1, PtpString), Spot(Timestamp2, PtpString),
     Spot(NetworkTag, Fixed(NETWORK_TAG)), Spot(CameraAddress, Free(4)), Spot(PrefixLength, Free(1)),
     Spot(NetworkPadding, Fixed(NETWORK_PAD)),
     Spot(Ssid24Tag, Tag24), Spot(Ssid24, Utf8), Spot(Ssid5Tag, Tag5), Spot(Ssid5, Utf8),
     Spot(HostTag, Fixed(HOST_TAG)), Spot(Host, PtpString), Spot(Folder, PtpString), Spot(FtpPort, Free(2)),
     Spot(Username, Utf8), Spot(Password, Utf8), Spot(OptionFlags, Free(2)), Spot(SecondPort, Free(2)),
     Spot(PortPadding, Fixed(PORT_SECTION_PAD)), Spot(Ipv6Field1, Utf8), Spot(Ipv6Separator, Fixed(IPV6_SEPARATOR)),
     Spot(Ipv6Field2, Utf8), Spot(Ipv6Field3, Utf8), Spot(Trailer, Fixed(BLOB_TRAILER))]
  }

  /** What was found there. A PTP string of no characters is spelt with its NUL or without. */
  datatype Piece =
    | Bytes(bytes: seq<byte>)
    | Text16(units: seq<Unit>, nul: bool)
    | Text8(text: seq<byte>)
    | LeadAndKind(lead: byte, kind: byte)
    | Kind(kind: byte)

  predicate Fits(p: Piece, shape: Shape) {
    match shape
    case Fixed(bytes) => p == Bytes(bytes)
    case Free(n) => p.Bytes? && |p.bytes| == n
    case PtpString => p.Text16? && |p.units| < 255 && GoodText(p.units) && (!p.nul ==> p.units == [])
    case Utf8 => p.Text8? && |p.text| <= U32_MAX && ValidUtf8(p.text)
    case Tag24 => p.LeadAndKind? && (p.lead == 0x03 || p.lead == 0x00)
    case Tag5 => p.Kind?
  }

  function Spelt(p: Piece): seq<byte>
    requires (p.Text16? ==> |p.units| < 255) && (p.Text8? ==> |p.text| <= U32_MAX)
  {
    match p
    case Bytes(bytes) => bytes
    case Text16(units, nul) => if nul then [(|units| + 1) as byte] + UnitBytes(units + [0]) else [0]
    case Text8(text) => Le32(|text|) + text
    case LeadAndKind(lead, kind) => [lead, 0x00, kind, 0x00]
    case Kind(kind) => [kind, 0x04]
  }

  // ----- Reading -----

  /** A piece and what follows it, or how far into the bytes left the fault is. */
  datatype Read = Got(piece: Piece, rest: seq<byte>) | Bad(at: nat)

  /** Where a text stops being UTF-8. */
  function FirstBad(s: seq<byte>, k: nat): (r: nat)
    requires k <= |s|
    ensures r <= k && ValidUtf8(s[..r])
  {
    if k == 0 || ValidUtf8(s[..k]) then k else FirstBad(s, k - 1)
  }

  function PieceRead(shape: Shape, s: seq<byte>): Read {
    match shape
    case Fixed(bytes) => if bytes <= s then Got(Bytes(bytes), s[|bytes|..]) else Bad(0)
    case Free(n) => if n <= |s| then Got(Bytes(s[..n]), s[n..]) else Bad(0)
    case PtpString => PtpStringRead(s)
    case Utf8 => Utf8Read(s)
    case Tag24 =>
      if |s| >= 4 && (s[0] == 0x03 || s[0] == 0x00) && s[1] == 0x00 && s[3] == 0x00
          then Got(LeadAndKind(s[0], s[2]), s[4..])
      else Bad(0)
    case Tag5 => if |s| >= 2 && s[1] == 0x04 then Got(Kind(s[0]), s[2..]) else Bad(0)
  }

  function PtpStringRead(s: seq<byte>): Read {
    if s == [] then Bad(0)
    else
      var chars: nat := s[0];
      if 2 * chars > |s| - 1 then Bad(1)
      else if chars == 0 then Got(Text16([], false), s[1..])
      else
        var units := Units(s[1..1 + 2 * chars]);
        if units[chars - 1] == 0 && GoodText(units[..chars - 1])
            then Got(Text16(units[..chars - 1], true), s[1 + 2 * chars..])
        else Bad(0)
  }

  function Utf8Read(s: seq<byte>): Read {
    if |s| < 4 then Bad(0)
    else
      var n := FromLe32(s[..4]);
      if n > |s| - 4 then Bad(0)
      else if ValidUtf8(s[4..4 + n]) then Got(Text8(s[4..4 + n]), s[4 + n..])
      else Bad(4 + FirstBad(s[4..4 + n], n))
  }

  /** A piece is read exactly when the bytes begin with one that fits, spelt out. */
  lemma PieceReadExactly(shape: Shape, s: seq<byte>)
    ensures var r := PieceRead(shape, s);
            r.Got? ==> Fits(r.piece, shape) && s == Spelt(r.piece) + r.rest
  {
    hide PtpStringRead, Utf8Read;
    PtpStringReadExactly(s);
    Utf8ReadExactly(s);
  }

  lemma PtpStringReadExactly(s: seq<byte>)
    ensures var r := PtpStringRead(s);
            r.Got? ==> Fits(r.piece, PtpString) && s == Spelt(r.piece) + r.rest
  {
    hide Units;
    if s != [] && 0 < 2 * s[0] as int <= |s| - 1 {
      var chars: nat := s[0];
      var raw := s[1..1 + 2 * chars];
      var units := Units(raw);
      UnitsRoundTrip(raw);
      assert units[chars - 1] == 0 ==> units == units[..chars - 1] + [0];
      assert s == [s[0]] + raw + s[1 + 2 * chars..];
    }
  }

  lemma Utf8ReadExactly(s: seq<byte>)
    ensures var r := Utf8Read(s);
            r.Got? ==> Fits(r.piece, Utf8) && s == Spelt(r.piece) + r.rest
  {
    hide ValidUtf8, FirstBad;
    if |s| >= 4 {
      Le32RoundTrip(FromLe32(s[..4]), s[..4]);
    }
  }

  lemma FittingPieceIsRead(shape: Shape, p: Piece, rest: seq<byte>)
    requires Fits(p, shape)
    ensures PieceRead(shape, Spelt(p) + rest) == Got(p, rest)
  {
    var s := Spelt(p) + rest;
    assert s[|Spelt(p)|..] == rest;
    match shape
    case PtpString =>
      if p.nul {
        var units := p.units + [0];
        UnitBytesRoundTrip(units);
        assert s[1..1 + 2 * |units|] == UnitBytes(units);
        assert units[..|units| - 1] == p.units;
      }
    case Utf8 =>
      assert s[..4] == Le32(|p.text|);
      Le32RoundTrip(|p.text|, s[..4]);
      assert s[4..4 + |p.text|] == p.text;
    case _ =>
  }

  datatype BlobError = BlobError(what: What, offset: nat)

  /** The pieces of a whole blob, or what is wrong first and at which offset. */
  function PiecesRead(spots: seq<Spot>, s: seq<byte>, pos: nat): Result<seq<Piece>, BlobError> {
    if spots == [] then if s == [] then Ok([]) else Err(BlobError(BlobEnd, pos))
    else
      var r := PieceRead(spots[0].shape, s);
      if r.Bad? then Err(BlobError(spots[0].what, pos + r.at))
      else
        PieceReadExactly(spots[0].shape, s);
        After([r.piece], PiecesRead(spots[1..], r.rest, pos + |s| - |r.rest|))
  }

  function After(read: seq<Piece>, more: Result<seq<Piece>, BlobError>): Result<seq<Piece>, BlobError> {
    if more.Ok? then Ok(read + more.value) else more
  }

  function SpeltAll(ps: seq<Piece>): seq<byte>
    requires forall i :: 0 <= i < |ps| ==>
               && (ps[i].Text16? ==> |ps[i].units| < 255)
               && (ps[i].Text8? ==> |ps[i].text| <= U32_MAX)
  {
    if ps == [] then [] else Spelt(ps[0]) + SpeltAll(ps[1..])
  }

  predicate FitAll(ps: seq<Piece>, spots: seq<Spot>) {
    |ps| == |spots| && forall i :: 0 <= i < |ps| ==> Fits(ps[i], spots[i].shape)
  }

  /** Accepted means spelt out: nothing is skipped and nothing is left. */
  lemma {:induction false} ReadThenSpell(spots: seq<Spot>, s: seq<byte>, pos: nat)
    ensures var r := PiecesRead(spots, s, pos);
            r.Ok? ==> FitAll(r.value, spots) && SpeltAll(r.value) == s
  {
    hide PieceRead, Fits, Spelt;
    if spots != [] {
      PieceReadExactly(spots[0].shape, s);
      var r := PieceRead(spots[0].shape, s);
      if r.Got? {
        var more := PiecesRead(spots[1..], r.rest, pos + |s| - |r.rest|);
        ReadThenSpell(spots[1..], r.rest, pos + |s| - |r.rest|);
        if more.Ok? {
          assert ([r.piece] + more.value)[1..] == more.value;
          FitsCons(r.piece, more.value, spots);
        }
      }
    }
  }

  lemma FitsCons(p: Piece, more: seq<Piece>, spots: seq<Spot>)
    requires spots != [] && Fits(p, spots[0].shape) && FitAll(more, spots[1..])
    ensures FitAll([p] + more, spots)
  {
    hide Fits;
  }

  /** Whatever fits the layout is accepted, and read as what it is. */
  lemma {:induction false} SpellThenRead(spots: seq<Spot>, ps: seq<Piece>, pos: nat)
    requires FitAll(ps, spots)
    ensures PiecesRead(spots, SpeltAll(ps), pos) == Ok(ps)
    decreases |spots|
  {
    hide PieceRead, Spelt;
    if spots != [] {
      var rest := SpeltAll(ps[1..]);
      FittingPieceIsRead(spots[0].shape, ps[0], rest);
      SpellThenRead(spots[1..], ps[1..], pos + |SpeltAll(ps)| - |rest|);
      assert ps == [ps[0]] + ps[1..];
    }
  }

  // ----- The fields -----

  datatype Names = Names(name: seq<Unit>, timestamp1: seq<Unit>, timestamp2: seq<Unit>)

  datatype Network = Network(
    address: seq<byte>,
    prefixLength: byte,
    ssid24Lead: byte,
    ssid24Kind: byte,
    ssid24: seq<byte>,
    ssid5Kind: byte,
    ssid5: seq<byte>)

  datatype Server = Server(
    host: seq<Unit>,
    folder: seq<Unit>,
    port: nat,
    username: seq<byte>,
    password: seq<byte>,
    optionFlags: nat,
    secondPort: nat)

  datatype Profile = Profile(names: Names, network: Network, server: Server, ipv6: (seq<byte>, seq<byte>, seq<byte>))

  function Reversed(b: seq<byte>): (r: seq<byte>)
    requires |b| == 4
    ensures |r| == 4
  {
    [b[3], b[2], b[1], b[0]]
  }

  function Decoded(blob: seq<byte>): Result<seq<Piece>, BlobError> {
    PiecesRead(Layout(), blob, 0)
  }

  /** The blob made of these pieces. */
  function BlobOf(ps: seq<Piece>): seq<byte>
    requires FitAll(ps, Layout())
  {
    SpeltAll(ps)
  }

  predicate HoldsNames(ps: seq<Piece>) {
    |ps| >= 4 && ps[1].Text16? && ps[2].Text16? && ps[3].Text16?
  }

  function NamesIn(ps: seq<Piece>): Names
    requires HoldsNames(ps)
  {
    Names(ps[1].units, ps[2].units, ps[3].units)
  }

  predicate HoldsNetwork(ps: seq<Piece>) {
    && |ps| >= 12
    && ps[5].Bytes? && |ps[5].bytes| == 4 && ps[6].Bytes? && |ps[6].bytes| == 1
    && ps[8].LeadAndKind? && ps[9].Text8? && ps[10].Kind? && ps[11].Text8?
  }

  /** The address is held the other way round. */
  function NetworkIn(ps: seq<Piece>): Network
    requires HoldsNetwork(ps)
  {
    Network(Reversed(ps[5].bytes), ps[6].bytes[0], ps[8].lead, ps[8].kind, ps[9].text, ps[10].kind, ps[11].text)
  }

  predicate HoldsServer(ps: seq<Piece>) {
    && |ps| >= 21
    && ps[13].Text16? && ps[14].Text16? && ps[16].Text8? && ps[17].Text8?
    && ps[15].Bytes? && |ps[15].bytes| == 2 && ps[18].Bytes? && |ps[18].bytes| == 2 && ps[19].Bytes?
       && |ps[19].bytes| == 2
  }

  function ServerIn(ps: seq<Piece>): Server
    requires HoldsServer(ps)
  {
    Server(ps[13].units, ps[14].units, FromLe16(ps[15].bytes), ps[16].text, ps[17].text, FromLe16(ps[18].bytes),
           FromLe16(ps[19].bytes))
  }

  predicate HoldsIpv6(ps: seq<Piece>) {
    |ps| >= 26 && ps[21].Text8? && ps[23].Text8? && ps[24].Text8?
  }

  /** The fields the pieces of a blob hold. */
  function Fields(ps: seq<Piece>): Profile
    requires FitAll(ps, Layout())
  {
    FitsLayout(ps);
    Profile(NamesIn(ps), NetworkIn(ps), ServerIn(ps), (ps[21].text, ps[23].text, ps[24].text))
  }

  predicate Shaped(ps: seq<Piece>) {
    && |ps| == 26
    && (forall i <- {1, 2, 3, 13, 14} :: Fits(ps[i], PtpString))
    && (forall i <- {9, 11, 16, 17, 21, 23, 24} :: Fits(ps[i], Utf8))
    && (forall i <- {15, 18, 19} :: Fits(ps[i], Free(2)))
    && Fits(ps[5], Free(4)) && Fits(ps[6], Free(1)) && Fits(ps[8], Tag24) && Fits(ps[10], Tag5)
    && Fits(ps[0], Fixed(BLOB_HEADER)) && Fits(ps[4], Fixed(NETWORK_TAG)) && Fits(ps[7], Fixed(NETWORK_PAD))
    && Fits(ps[12], Fixed(HOST_TAG)) && Fits(ps[20], Fixed(PORT_SECTION_PAD)) && Fits(ps[22], Fixed(IPV6_SEPARATOR))
    && Fits(ps[25], Fixed(BLOB_TRAILER))
  }

  lemma FitsLayout(ps: seq<Piece>)
    requires FitAll(ps, Layout())
    ensures Shaped(ps)
  {
    hide Fits;
  }

  /** The same piece, an empty PTP string's spelling apart. */
  predicate SameButSpelling(p: Piece, q: Piece) {
    p == q || (p.Text16? && q.Text16? && p.units == q.units == [] && p.nul != q.nul)
  }

  predicate HasFields(blob: seq<byte>, d: Profile) {
    Decoded(blob).Ok? && (ReadThenSpell(Layout(), blob, 0); Fields(Decoded(blob).value) == d)
  }

  /** Two blobs with the same fields are the same blob, but for how an empty PTP string is spelt. */
  lemma FieldsLoseNothing(x: seq<byte>, y: seq<byte>, d: Profile)
    requires HasFields(x, d) && HasFields(y, d)
    ensures var p, q := Decoded(x).value, Decoded(y).value;
            && |p| == |q| == |Layout()|
            && (forall i :: 0 <= i < |p| ==> SameButSpelling(p[i], q[i]))
            && (x == y <==> p == q)
  {
    ReadThenSpell(Layout(), x, 0);
    ReadThenSpell(Layout(), y, 0);
    SamePieces(Decoded(x).value, Decoded(y).value);
  }

  lemma SamePieces(p: seq<Piece>, q: seq<Piece>)
    requires FitAll(p, Layout()) && FitAll(q, Layout()) && Fields(p) == Fields(q)
    ensures forall i :: 0 <= i < |p| ==> SameButSpelling(p[i], q[i])
  {
    hide Fits, SameButSpelling, Layout, FitAll;
    FitsLayout(p);
    FitsLayout(q);
    SameText16(p, q);
    SameText8(p, q);
    SameBytes(p, q);
  }

  lemma SameText16(p: seq<Piece>, q: seq<Piece>)
    requires FitAll(p, Layout()) && FitAll(q, Layout()) && Shaped(p) && Shaped(q) && Fields(p) == Fields(q)
    ensures forall i <- {1, 2, 3, 13, 14} :: SameButSpelling(p[i], q[i])
  {
    hide Layout, FitAll;
  }

  lemma SameText8(p: seq<Piece>, q: seq<Piece>)
    requires FitAll(p, Layout()) && FitAll(q, Layout()) && Shaped(p) && Shaped(q) && Fields(p) == Fields(q)
    ensures forall i <- {9, 11, 16, 17, 21, 23, 24} :: SameButSpelling(p[i], q[i])
  {
    hide Layout, FitAll;
  }

  lemma SameBytes(p: seq<Piece>, q: seq<Piece>)
    requires FitAll(p, Layout()) && FitAll(q, Layout()) && Shaped(p) && Shaped(q) && Fields(p) == Fields(q)
    ensures forall i <- {0, 4, 5, 6, 7, 8, 10, 12, 15, 18, 19, 20, 22, 25} :: SameButSpelling(p[i], q[i])
  {
    hide Layout, FitAll;
    forall i <- {15, 18, 19} ensures p[i] == q[i] {
      Le16RoundTrip(FromLe16(p[i].bytes), q[i].bytes);
      Le16RoundTrip(FromLe16(p[i].bytes), p[i].bytes);
    }
    assert p[5].bytes == Reversed(Reversed(p[5].bytes)) == q[5].bytes;
  }

  /** Where no PTP string is empty the fields are the whole blob. */
  lemma NoEmptyStringsNoChoice(x: seq<byte>, y: seq<byte>, d: Profile)
    requires HasFields(x, d) && HasFields(y, d)
    requires d.names.name != [] && d.names.timestamp1 != [] && d.names.timestamp2 != []
    requires d.server.host != [] && d.server.folder != []
    ensures x == y
  {
    hide SpeltAll, FitAll, Layout, PiecesRead, Fields, SameButSpelling;
    FieldsLoseNothing(x, y, d);
    ReadThenSpell(Layout(), x, 0);
    FieldsSay(Decoded(x).value);
    NoneEmpty(Decoded(x).value, Decoded(y).value);
  }

  lemma FieldsSay(ps: seq<Piece>)
    requires FitAll(ps, Layout())
    ensures |ps| == 26 && forall i <- {1, 2, 3, 13, 14} :: ps[i].Text16?
    ensures var d := Fields(ps);
            && d.names == Names(ps[1].units, ps[2].units, ps[3].units)
            && d.server.host == ps[13].units && d.server.folder == ps[14].units
  {
    hide Layout, FitAll;
    FitsLayout(ps);
  }

  lemma NoneEmpty(p: seq<Piece>, q: seq<Piece>)
    requires FitAll(p, Layout()) && |q| == |p|
    requires forall i :: 0 <= i < |p| ==> SameButSpelling(p[i], q[i])
    requires forall i <- {1, 2, 3, 13, 14} :: i < |p| && p[i].Text16? ==> p[i].units != []
    ensures p == q
  {
    hide FitAll, Layout;
    FitsLayout(p);
    forall i | 0 <= i < 26 ensures p[i] == q[i] {
      assert SameButSpelling(p[i], q[i]);
    }
  }

  /** Each empty string does have two accepted spellings. */
  lemma EmptyStringsAreSpeltTwice(ps: seq<Piece>, i: nat)
    requires FitAll(ps, Layout()) && i < |ps| && ps[i].Text16? && ps[i].units == []
    ensures var other := ps[i := Text16([], !ps[i].nul)];
            FitAll(other, Layout()) && Fields(other) == Fields(ps) && BlobOf(other) != BlobOf(ps)
  {
    hide Fields, Layout, PiecesRead, SpeltAll;
    var other := ps[i := Text16([], !ps[i].nul)];
    OtherSpellingFits(ps, i, Layout());
    OtherSpellingSays(ps, other, i);
    SpellThenRead(Layout(), ps, 0);
    SpellThenRead(Layout(), other, 0);
    assert other[i] != ps[i];
  }

  lemma OtherSpellingFits(ps: seq<Piece>, i: nat, spots: seq<Spot>)
    requires FitAll(ps, spots) && i < |ps| && ps[i].Text16? && ps[i].units == []
    ensures FitAll(ps[i := Text16([], !ps[i].nul)], spots)
  {
    assert Fits(ps[i], spots[i].shape);
  }

  lemma OtherSpellingSays(ps: seq<Piece>, other: seq<Piece>, i: nat)
    requires FitAll(ps, Layout()) && FitAll(other, Layout()) && i < |ps| && ps[i].Text16? && other[i].Text16?
    requires ps[i].units == other[i].units && other == ps[i := other[i]]
    ensures Fields(other) == Fields(ps)
  {
    hide Layout, FitAll, FromLe16, Reversed;
    FitsLayout(ps);
    FitsLayout(other);
  }

  // ----- The cursor -----

  class Reader {
    const data: seq<byte>
    var pos: nat
    ghost var read: seq<Piece>

    /** What is decided so far: the pieces read, and whatever the bytes left come to. */
    ghost predicate Valid()
      reads this
    {
      && pos <= |data| && |read| <= 26
      && Decoded(data) == After(read, PiecesRead(Layout()[|read|..], data[pos..], pos))
    }

    ghost predicate At(what: What, shape: Shape)
      reads this
    {
      |read| < 26 && Layout()[|read|] == Spot(what, shape)
    }

    constructor (data: seq<byte>)
      ensures this.data == data && pos == 0 && read == [] && Valid()
    {
      this.data, pos, read := data, 0, [];
      new;
      AfterNothing(data);
    }

    method Take(what: What, n: nat) returns (r: Result<seq<byte>, BlobError>)
      requires pos <= |data|
      modifies this`pos
      ensures if n <= |data| - old(pos) then r == Ok(data[old(pos)..old(pos) + n]) && pos == old(pos) + n
              else r == Err(BlobError(what, pos)) && pos == old(pos)
    {
      if n > |data| - pos {
        return Err(BlobError(what, pos));
      }
      r := Ok(data[pos..pos + n]);
      pos := pos + n;
    }

    ghost method Note(what: What, shape: Shape, start: nat)
      requires start <= |data| && pos <= |data| && |read| < 26 && Layout()[|read|] == Spot(what, shape)
      requires Decoded(data) == After(read, PiecesRead(Layout()[|read|..], data[start..], start))
      requires PieceRead(shape, data[start..]).Got? && PieceRead(shape, data[start..]).rest == data[pos..]
      modifies this`read
      ensures Valid() && read == old(read) + [PieceRead(shape, data[start..]).piece]
    {
      Advance(data, read, start, pos);
      read := read + [PieceRead(shape, data[start..]).piece];
    }

    method Expect(what: What, expected: seq<byte>) returns (r: Result<(), BlobError>)
      requires Valid() && At(what, Fixed(expected))
      modifies this
      ensures r.Err? ==> Decoded(data) == Err(r.error)
      ensures r.Ok? ==> Valid() && read == old(read) + [Bytes(expected)]
    {
      hide Decoded, PiecesRead, Layout;
      ghost var start := pos;
      AdvanceFails(data, read, start, what, Fixed(expected));
      var at := pos;
      var got :- Take(what, |expected|);
      if got != expected {
        pos := at;
        return Err(BlobError(what, pos));
      }
      assert expected <= data[start..];
      Note(what, Fixed(expected), start);
      return Ok(());
    }

    method Plain(what: What, n: nat) returns (r: Result<seq<byte>, BlobError>)
      requires Valid() && At(what, Free(n))
      modifies this
      ensures r.Err? ==> Decoded(data) == Err(r.error)
      ensures r.Ok? ==> Valid() && read == old(read) + [Bytes(r.value)] && |r.value| == n
    {
      hide Decoded, PiecesRead, Layout;
      ghost var start := pos;
      AdvanceFails(data, read, start, what, Free(n));
      var got :- Take(what, n);
      assert data[start..][..n] == got;
      Note(what, Free(n), start);
      return Ok(got);
    }

    /** A count of units, the NUL among them, then the units; the count 0 spells the empty string too. */
    method ReadPtpString(what: What) returns (r: Result<seq<Unit>, BlobError>)
      requires Valid() && At(what, PtpString)
      modifies this
      ensures r.Err? ==> Decoded(data) == Err(r.error)
      ensures r.Ok? ==> Valid() && exists nul :: read == old(read) + [Text16(r.value, nul)]
    {
      hide Decoded, PiecesRead, Layout, Units, Paired;
      ghost var start, s := pos, data[pos..];
      AdvanceFails(data, read, start, what, PtpString);
      var at := pos;
      var count :- Take(what, 1);
      var chars: nat := count[0];
      assert s[0] == count[0];
      var raw :- Take(what, 2 * chars);
      assert s[1..1 + 2 * chars] == raw && s[1 + 2 * chars..] == data[pos..];
      var units := Units(raw);
      var terminated := units == [] || units[|units| - 1] == 0;
      if units != [] && terminated {
        units := units[..|units| - 1];
      }
      if !terminated || 0 in units || !Paired(units) {
        assert chars != 0 by {
          PairedNothing();
        }
        pos := at;
        return Err(BlobError(what, pos));
      }
      Note(what, PtpString, start);
      assert read == old(read) + [Text16(units, chars != 0)];
      return Ok(units);
    }

    /** A length in bytes, checked against the bytes left, then UTF-8. */
    method ReadUtf8(what: What) returns (r: Result<seq<byte>, BlobError>)
      requires Valid() && At(what, Utf8)
      modifies this
      ensures r.Err? ==> Decoded(data) == Err(r.error)
      ensures r.Ok? ==> Valid() && read == old(read) + [Text8(r.value)]
    {
      hide Decoded, PiecesRead, Layout, ValidUtf8, FirstBad, FromLe32;
      ghost var start, s := pos, data[pos..];
      AdvanceFails(data, read, start, what, Utf8);
      var at := pos;
      var head :- Take(what, 4);
      assert s[..4] == head;
      var n := FromLe32(head);
      if n > |data| - pos {
        pos := at;
        return Err(BlobError(what, pos));
      }
      var body := Take(what, n);
      var raw := body.value;
      assert s[4..4 + n] == raw && s[4 + n..] == data[pos..];
      if !ValidUtf8(raw) {
        pos := at + 4 + FirstBad(raw, n);
        return Err(BlobError(what, pos));
      }
      Note(what, Utf8, start);
      return Ok(raw);
    }

    method ReadTag24(what: What) returns (r: Result<(byte, byte), BlobError>)
      requires Valid() && At(what, Tag24)
      modifies this
      ensures r.Err? ==> Decoded(data) == Err(r.error)
      ensures r.Ok? ==> Valid() && read == old(read) + [LeadAndKind(r.value.0, r.value.1)]
    {
      hide Decoded, PiecesRead, Layout;
      ghost var start := pos;
      AdvanceFails(data, read, start, what, Tag24);
      var at := pos;
      var tag :- Take(what, 4);
      assert tag == data[start..][..4];
      if (tag[0] != 0x03 && tag[0] != 0x00) || tag[1] != 0x00 || tag[3] != 0x00 {
        pos := at;
        return Err(BlobError(what, pos));
      }
      Note(what, Tag24, start);
      return Ok((tag[0], tag[2]));
    }

    method ReadTag5(what: What) returns (r: Result<byte, BlobError>)
      requires Valid() && At(what, Tag5)
      modifies this
      ensures r.Err? ==> Decoded(data) == Err(r.error)
      ensures r.Ok? ==> Valid() && read == old(read) + [Kind(r.value)]
    {
      hide Decoded, PiecesRead, Layout;
      ghost var start := pos;
      AdvanceFails(data, read, start, what, Tag5);
      var at := pos;
      var tag :- Take(what, 2);
      assert tag == data[start..][..2];
      if tag[1] != 0x04 {
        pos := at;
        return Err(BlobError(what, pos));
      }
      Note(what, Tag5, start);
      return Ok(tag[0]);
    }

    /** Up to the second timestamp. */
    method ReadNames() returns (r: Result<Names, BlobError>)
      requires Valid() && read == []
      modifies this
      ensures r.Err? ==> Decoded(data) == Err(r.error)
      ensures r.Ok? ==> Valid() && |read| == 4 && HoldsNames(read) && r.value == NamesIn(read)
    {
      hide Decoded, Layout, Valid;
      NamesAt();
      var _ :- Expect(Header, BLOB_HEADER);
      var name :- ReadPtpString(ProfileName);
      var timestamp1 :- ReadPtpString(Timestamp1);
      var timestamp2 :- ReadPtpString(Timestamp2);
      return Ok(Names(name, timestamp1, timestamp2));
    }

    method ReadAddress() returns (r: Result<(seq<byte>, byte), BlobError>)
      requires Valid() && |read| == 4
      modifies this
      ensures r.Err? ==> Decoded(data) == Err(r.error)
      ensures r.Ok? ==>
                && Valid() && |read| == 8 && old(read) <= read
                && read[5].Bytes? && |read[5].bytes| == 4 && read[6].Bytes? && |read[6].bytes| == 1
                && r.value == (Reversed(read[5].bytes), read[6].bytes[0])
    {
      hide Decoded, Layout, Valid;
      AddressAt();
      var _ :- Expect(NetworkTag, NETWORK_TAG);
      var address :- Plain(CameraAddress, 4);
      var prefixLength :- Plain(PrefixLength, 1);
      var _ :- Expect(NetworkPadding, NETWORK_PAD);
      return Ok((Reversed(address), prefixLength[0]));
    }

    /** Up to the 5 GHz SSID. */
    method ReadNetwork() returns (r: Result<Network, BlobError>)
      requires Valid() && |read| == 4
      modifies this
      ensures r.Err? ==> Decoded(data) == Err(r.error)
      ensures r.Ok? ==> Valid() && |read| == 12 && old(read) <= read && HoldsNetwork(read) && r.value == NetworkIn(read)
    {
      hide Decoded, Layout, Valid;
      SsidsAt();
      var camera :- ReadAddress();
      var tag24 :- ReadTag24(Ssid24Tag);
      var ssid24 :- ReadUtf8(Ssid24);
      var ssid5Kind :- ReadTag5(Ssid5Tag);
      var ssid5 :- ReadUtf8(Ssid5);
      return Ok(Network(camera.0, camera.1, tag24.0, tag24.1, ssid24, ssid5Kind, ssid5));
    }

    method ReadPlace() returns (r: Result<(seq<Unit>, seq<Unit>), BlobError>)
      requires Valid() && |read| == 12
      modifies this
      ensures r.Err? ==> Decoded(data) == Err(r.error)
      ensures r.Ok? ==>
                && Valid() && |read| == 15 && old(read) <= read && read[13].Text16? && read[14].Text16?
                && r.value == (read[13].units, read[14].units)
    {
      hide Decoded, Layout, Valid;
      PlaceAt();
      var _ :- Expect(HostTag, HOST_TAG);
      var host :- ReadPtpString(Host);
      var folder :- ReadPtpString(Folder);
      return Ok((host, folder));
    }

    /** Up to the padding after the ports. */
    method ReadServer() returns (r: Result<Server, BlobError>)
      requires Valid() && |read| == 12
      modifies this
      ensures r.Err? ==> Decoded(data) == Err(r.error)
      ensures r.Ok? ==> Valid() && |read| == 21 && old(read) <= read && HoldsServer(read) && r.value == ServerIn(read)
    {
      hide Decoded, Layout, Valid;
      ServerAt();
      var place :- ReadPlace();
      var port :- Plain(FtpPort, 2);
      var username :- ReadUtf8(Username);
      var password :- ReadUtf8(Password);
      var ports :- ReadPorts();
      return Ok(Server(place.0, place.1, FromLe16(port), username, password, FromLe16(ports.0), FromLe16(ports.1)));
    }

    method ReadPorts() returns (r: Result<(seq<byte>, seq<byte>), BlobError>)
      requires Valid() && |read| == 18
      modifies this
      ensures r.Err? ==> Decoded(data) == Err(r.error)
      ensures r.Ok? ==>
                && Valid() && |read| == 21 && old(read) <= read
                && read[18] == Bytes(r.value.0) && |r.value.0| == 2 && read[19] == Bytes(r.value.1) && |r.value.1| == 2
    {
      hide Decoded, Layout, Valid;
      PortsAt();
      var optionFlags :- Plain(OptionFlags, 2);
      var secondPort :- Plain(SecondPort, 2);
      var _ :- Expect(PortPadding, PORT_SECTION_PAD);
      return Ok((optionFlags, secondPort));
    }

    /** The IPv6 fields and the trailer. */
    method ReadIpv6() returns (r: Result<(seq<byte>, seq<byte>, seq<byte>), BlobError>)
      requires Valid() && |read| == 21
      modifies this
      ensures r.Err? ==> Decoded(data) == Err(r.error)
      ensures r.Ok? ==>
                && Valid() && |read| == 26 && old(read) <= read && HoldsIpv6(read)
                && r.value == (read[21].text, read[23].text, read[24].text)
    {
      hide Decoded, Layout, Valid;
      Ipv6At();
      var a :- ReadUtf8(Ipv6Field1);
      var _ :- Expect(Ipv6Separator, IPV6_SEPARATOR);
      var b :- ReadUtf8(Ipv6Field2);
      var c :- ReadUtf8(Ipv6Field3);
      var _ :- Expect(Trailer, BLOB_TRAILER);
      return Ok((a, b, c));
    }
  }

  lemma PairedNothing()
    ensures Paired([]) && Units([]) == []
  {
  }

  lemma AfterNothing(data: seq<byte>)
    ensures Decoded(data) == After([], PiecesRead(Layout()[0..], data[0..], 0))
  {
    assert Layout()[0..] == Layout() && data[0..] == data;
    ghost var r := Decoded(data);
    assert r.Ok? ==> [] + r.value == r.value;
  }

  lemma {:induction false} Advance(data: seq<byte>, read: seq<Piece>, start: nat, pos: nat)
    requires start <= |data| && pos <= |data| && |read| < 26
    requires var r := PieceRead(Layout()[|read|].shape, data[start..]); r.Got? && r.rest == data[pos..]
    ensures var more := read + [PieceRead(Layout()[|read|].shape, data[start..]).piece];
            After(read, PiecesRead(Layout()[|read|..], data[start..], start)) ==
            After(more, PiecesRead(Layout()[|more|..], data[pos..], pos))
  {
    hide PieceRead, Layout;
    LayoutSize();
    var spots := Layout()[|read|..];
    assert spots[0] == Layout()[|read|] && spots[1..] == Layout()[|read| + 1..];
    var p := PieceRead(spots[0].shape, data[start..]).piece;
    var end := PiecesRead(spots[1..], data[pos..], pos);
    assert end.Ok? ==> read + ([p] + end.value) == read + [p] + end.value;
  }

  lemma AdvanceFails(data: seq<byte>, read: seq<Piece>, start: nat, what: What, shape: Shape)
    requires start <= |data| && |read| < 26 && Layout()[|read|] == Spot(what, shape)
    ensures var r := PieceRead(shape, data[start..]);
            r.Bad? ==>
              After(read, PiecesRead(Layout()[|read|..], data[start..], start)) == Err(BlobError(what, start + r.at))
  {
    hide PieceRead, Layout;
    LayoutSize();
    assert Layout()[|read|..][0] == Layout()[|read|];
  }

  lemma LayoutSize()
    ensures |Layout()| == 26
  {
  }

  /** Read a whole blob, field by field: its fields if and only if it is laid out as it should be. */
  method DecodeFtpProfile(blob: seq<byte>) returns (r: Result<Profile, BlobError>)
    ensures r.Ok? ==> HasFields(blob, r.value) && exists ps :: FitAll(ps, Layout()) && BlobOf(ps) == blob
    ensures r.Err? ==> Decoded(blob) == Err(r.error) && forall ps :: FitAll(ps, Layout()) ==> BlobOf(ps) != blob
  {
    hide Decoded, Layout, HasFields, FitAll, BlobOf, Reader.Valid;
    Undecodable(blob);
    var c := new Reader(blob);
    var names :- c.ReadNames();
    var network :- c.ReadNetwork();
    var server :- c.ReadServer();
    var ipv6 :- c.ReadIpv6();
    AllRead(c);
    if c.pos != |blob| {
      return Err(BlobError(BlobEnd, c.pos));
    }
    r := Ok(Profile(names, network, server, ipv6));
    Decodable(blob, c.read);
  }

  lemma NamesAt()
    ensures |Layout()| == 26
    ensures Layout()[0] == Spot(Header, Fixed(BLOB_HEADER))
    ensures Layout()[1] == Spot(ProfileName, PtpString)
    ensures Layout()[2] == Spot(Timestamp1, PtpString)
    ensures Layout()[3] == Spot(Timestamp2, PtpString)
  {
  }

  lemma AddressAt()
    ensures |Layout()| == 26
    ensures Layout()[4] == Spot(NetworkTag, Fixed(NETWORK_TAG))
    ensures Layout()[5] == Spot(CameraAddress, Free(4))
    ensures Layout()[6] == Spot(PrefixLength, Free(1))
    ensures Layout()[7] == Spot(NetworkPadding, Fixed(NETWORK_PAD))
  {
  }

  lemma SsidsAt()
    ensures |Layout()| == 26
    ensures Layout()[8] == Spot(Ssid24Tag, Tag24)
    ensures Layout()[9] == Spot(Ssid24, Utf8)
    ensures Layout()[10] == Spot(Ssid5Tag, Tag5)
    ensures Layout()[11] == Spot(Ssid5, Utf8)
  {
  }

  lemma PlaceAt()
    ensures |Layout()| == 26
    ensures Layout()[12] == Spot(HostTag, Fixed(HOST_TAG))
    ensures Layout()[13] == Spot(Host, PtpString)
    ensures Layout()[14] == Spot(Folder, PtpString)
  {
  }

  lemma ServerAt()
    ensures |Layout()| == 26
    ensures Layout()[15] == Spot(FtpPort, Free(2))
    ensures Layout()[16] == Spot(Username, Utf8)
    ensures Layout()[17] == Spot(Password, Utf8)
  {
  }

  lemma PortsAt()
    ensures |Layout()| == 26
    ensures Layout()[18] == Spot(OptionFlags, Free(2))
    ensures Layout()[19] == Spot(SecondPort, Free(2))
    ensures Layout()[20] == Spot(PortPadding, Fixed(PORT_SECTION_PAD))
  {
  }

  lemma Ipv6At()
    ensures |Layout()| == 26
    ensures Layout()[21] == Spot(Ipv6Field1, Utf8)
    ensures Layout()[22] == Spot(Ipv6Separator, Fixed(IPV6_SEPARATOR))
    ensures Layout()[23] == Spot(Ipv6Field2, Utf8)
    ensures Layout()[24] == Spot(Ipv6Field3, Utf8)
    ensures Layout()[25] == Spot(Trailer, Fixed(BLOB_TRAILER))
  {
  }

  lemma Undecodable(blob: seq<byte>)
    ensures Decoded(blob).Err? ==> forall ps :: FitAll(ps, Layout()) ==> BlobOf(ps) != blob
  {
    hide PiecesRead, Layout, FitAll, SpeltAll;
    forall ps | FitAll(ps, Layout()) ensures Decoded(BlobOf(ps)) == Ok(ps) {
      SpellThenRead(Layout(), ps, 0);
    }
  }

  lemma AllRead(c: Reader)
    requires c.Valid() && |c.read| == 26
    ensures c.pos <= |c.data|
    ensures Decoded(c.data) == if c.pos == |c.data| then Ok(c.read) else Err(BlobError(BlobEnd, c.pos))
  {
    hide Decoded;
    assert Layout()[26..] == [];
    assert c.read + [] == c.read;
  }

  lemma Decodable(blob: seq<byte>, read: seq<Piece>)
    requires Decoded(blob) == Ok(read)
    ensures FitAll(read, Layout()) && BlobOf(read) == blob
    ensures HasFields(blob, Fields(read)) && Shaped(read)
    ensures Fields(read) == Profile(NamesIn(read), NetworkIn(read), ServerIn(read),
            (read[21].text, read[23].text, read[24].text))
  {
    hide PiecesRead, Layout, FitAll, SpeltAll;
    ReadThenSpell(Layout(), blob, 0);
    FitsLayout(read);
  }
}
