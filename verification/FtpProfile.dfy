// A profile blob, byte for byte: which bytes each field of a profile is.

module FtpProfile {
  import opened Wrappers
  import opened Bytes
  import opened FtpBlob

  // ----- The bytes of a field -----

  function LowHigh(n: nat): seq<byte>
    requires n <= U16_MAX
  {
    [n % 0x100, n / 0x100]
  }

  function FourBytes(n: nat): seq<byte>
    requires n <= U32_MAX
  {
    [n % 0x100, n / 0x100 % 0x100, n / 0x1_0000 % 0x100, n / 0x100_0000]
  }

  function UnitsLowHigh(u: seq<Unit>): seq<byte> {
    if u == [] then [] else LowHigh(u[0]) + UnitsLowHigh(u[1..])
  }

  /** A text after the count of its units and a NUL; an empty one may go without the NUL, counted as nothing. */
  function Counted(u: seq<Unit>, bare: bool): seq<byte>
    requires |u| < 255
  {
    if u == [] && bare then [0] else [(|u| + 1) as byte] + UnitsLowHigh(u) + [0, 0]
  }

  /** A text after its length in bytes. */
  function Sized(t: seq<byte>): seq<byte>
    requires |t| <= U32_MAX
  {
    FourBytes(|t|) + t
  }

  // ----- The blob -----

  /** For each of the five counted texts, whether it goes without its NUL when empty. */
  type Choice = c: seq<bool> | |c| == 5 witness [false, false, false, false, false]

  predicate ValidNames(n: Names) {
    && |n.name| < 255 && |n.timestamp1| < 255 && |n.timestamp2| < 255
    && GoodText(n.name) && GoodText(n.timestamp1) && GoodText(n.timestamp2)
  }

  predicate ValidNetwork(n: Network) {
    && |n.address| == 4 && (n.ssid24Lead == 0x00 || n.ssid24Lead == 0x03)
    && |n.ssid24| <= U32_MAX && ValidUtf8(n.ssid24) && |n.ssid5| <= U32_MAX && ValidUtf8(n.ssid5)
  }

  predicate ValidServer(s: Server) {
    && |s.host| < 255 && |s.folder| < 255 && GoodText(s.host) && GoodText(s.folder)
    && s.port <= U16_MAX && s.optionFlags <= U16_MAX && s.secondPort <= U16_MAX
    && |s.username| <= U32_MAX && ValidUtf8(s.username) && |s.password| <= U32_MAX && ValidUtf8(s.password)
  }

  predicate ValidIpv6(v: (seq<byte>, seq<byte>, seq<byte>)) {
    && |v.0| <= U32_MAX && ValidUtf8(v.0) && |v.1| <= U32_MAX && ValidUtf8(v.1) && |v.2| <= U32_MAX && ValidUtf8(v.2)
  }

  predicate ValidProfile(d: Profile) {
    ValidNames(d.names) && ValidNetwork(d.network) && ValidServer(d.server) && ValidIpv6(d.ipv6)
  }

  function NamesThen(n: Names, c: Choice, rest: seq<byte>): seq<byte>
    requires ValidNames(n)
  {
    [0xF4, 0x01] + (Counted(n.name, c[0]) + (Counted(n.timestamp1, c[1]) + (Counted(n.timestamp2, c[2]) + rest)))
  }

  /** The address stands the other way round. */
  function NetworkThen(n: Network, rest: seq<byte>): seq<byte>
    requires ValidNetwork(n)
  {
    [0x02, 0x03, 0x03] + ([n.address[3], n.address[2], n.address[1], n.address[0]] + ([n.prefixLength]
    + ([0, 0, 0, 0, 0, 0, 0, 0] + ([n.ssid24Lead, 0x00, n.ssid24Kind, 0x00] + (Sized(n.ssid24)
    + ([n.ssid5Kind, 0x04] + (Sized(n.ssid5) + rest)))))))
  }

  function ServerThen(s: Server, c: Choice, rest: seq<byte>): seq<byte>
    requires ValidServer(s)
  {
    [0x01] + (Counted(s.host, c[3]) + (Counted(s.folder, c[4]) + (LowHigh(s.port) + (Sized(s.username)
    + (Sized(s.password) + (LowHigh(s.optionFlags) + (LowHigh(s.secondPort) + ([0, 0, 0, 0, 0] + rest))))))))
  }

  function Ipv6Then(v: (seq<byte>, seq<byte>, seq<byte>), rest: seq<byte>): seq<byte>
    requires ValidIpv6(v)
  {
    Sized(v.0) + ([0x40] + (Sized(v.1) + (Sized(v.2) + ([0x81] + rest))))
  }

  /** The blob of a profile. */
  function Written(d: Profile, c: Choice): seq<byte>
    requires ValidProfile(d)
  {
    NamesThen(d.names, c, NetworkThen(d.network, ServerThen(d.server, c, Ipv6Then(d.ipv6, []))))
  }

  // ----- Pieces are these bytes -----

  lemma {:induction false} UnitsSpelt(u: seq<Unit>)
    ensures UnitBytes(u + [0]) == UnitsLowHigh(u) + [0, 0]
  {
    if u == [] {
      assert UnitBytes([0]) == Le16(0) + UnitBytes([]);
    } else {
      UnitsSpelt(u[1..]);
      assert (u + [0])[1..] == u[1..] + [0];
    }
  }

  lemma TextSpelt(u: seq<Unit>, nul: bool)
    requires |u| < 255 && (nul || u == [])
    ensures Spelt(Text16(u, nul)) == Counted(u, !nul)
  {
    UnitsSpelt(u);
  }

  lemma SizedSpelt(t: seq<byte>)
    requires |t| <= U32_MAX
    ensures Spelt(Text8(t)) == Sized(t)
  {
    hide Le32, FourBytes;
    LengthSpelt(|t|);
  }

  lemma LengthSpelt(n: nat)
    requires n <= U32_MAX
    ensures Le32(n) == FourBytes(n)
  {
    var high, low := n / 0x1_0000, n % 0x1_0000;
    assert n == 0x1_0000 * high + low;
    assert n / 0x100 == 0x100 * high + low / 0x100;
    assert n % 0x100 == low % 0x100;
    assert n / 0x100_0000 == high / 0x100;
  }

  lemma PortRead(b: seq<byte>)
    requires |b| == 2
    ensures LowHigh(FromLe16(b)) == b
  {
  }

  predicate Spellable(ps: seq<Piece>) {
    forall j :: 0 <= j < |ps| ==>
      (ps[j].Text16? ==> |ps[j].units| < 255) && (ps[j].Text8? ==> |ps[j].text| <= U32_MAX)
  }

  lemma FitsLater(ps: seq<Piece>, i: nat)
    requires FitAll(ps, Layout()) && i <= |ps|
    ensures Spellable(ps[i..])
  {
    forall j | 0 <= j < |ps[i..]|
      ensures (ps[i..][j].Text16? ==> |ps[i..][j].units| < 255) && (ps[i..][j].Text8? ==> |ps[i..][j].text| <= U32_MAX)
    {
      assert Fits(ps[i + j], Layout()[i + j].shape);
    }
  }

  /** What the bytes from piece `i` on come to. */
  function From(ps: seq<Piece>, i: nat): seq<byte>
    requires FitAll(ps, Layout()) && i <= |ps|
  {
    FitsLater(ps, i);
    SpeltAll(ps[i..])
  }

  /** One piece after another. */
  lemma Unrolled(ps: seq<Piece>, i: nat)
    requires FitAll(ps, Layout()) && i < |ps|
    ensures Fits(ps[i], Layout()[i].shape)
    ensures (ps[i].Text16? ==> |ps[i].units| < 255) && (ps[i].Text8? ==> |ps[i].text| <= U32_MAX)
    ensures From(ps, i) == Spelt(ps[i]) + From(ps, i + 1)
  {
    hide Spelt, Layout;
    FitsLater(ps, i);
    FitsLater(ps, i + 1);
    assert Fits(ps[i], Layout()[i].shape);
    assert ps[i..][1..] == ps[i + 1..];
  }

  lemma FromText16(ps: seq<Piece>, i: nat)
    requires FitAll(ps, Layout()) && i < |ps| && Layout()[i].shape == PtpString
    ensures ps[i].Text16? && |ps[i].units| < 255 && GoodText(ps[i].units)
    ensures From(ps, i) == Counted(ps[i].units, !ps[i].nul) + From(ps, i + 1)
  {
    hide Layout, SpeltAll, Counted;
    Unrolled(ps, i);
    TextSpelt(ps[i].units, ps[i].nul);
  }

  lemma FromText8(ps: seq<Piece>, i: nat)
    requires FitAll(ps, Layout()) && i < |ps| && Layout()[i].shape == Utf8
    ensures ps[i].Text8? && |ps[i].text| <= U32_MAX && ValidUtf8(ps[i].text)
    ensures From(ps, i) == Sized(ps[i].text) + From(ps, i + 1)
  {
    hide Layout, SpeltAll, Sized, ValidUtf8;
    Unrolled(ps, i);
    SizedSpelt(ps[i].text);
  }

  lemma FromFixed(ps: seq<Piece>, i: nat, bytes: seq<byte>)
    requires FitAll(ps, Layout()) && i < |ps| && Layout()[i].shape == Fixed(bytes)
    ensures ps[i] == Bytes(bytes) && From(ps, i) == bytes + From(ps, i + 1)
  {
    hide Layout, SpeltAll;
    Unrolled(ps, i);
  }

  lemma FromFree(ps: seq<Piece>, i: nat, n: nat)
    requires FitAll(ps, Layout()) && i < |ps| && Layout()[i].shape == Free(n)
    ensures ps[i].Bytes? && |ps[i].bytes| == n && From(ps, i) == ps[i].bytes + From(ps, i + 1)
  {
    hide Layout, SpeltAll;
    Unrolled(ps, i);
  }

  lemma FromTags(ps: seq<Piece>)
    requires FitAll(ps, Layout()) && |ps| == 26
    ensures ps[8].LeadAndKind? && (ps[8].lead == 0x03 || ps[8].lead == 0x00) && ps[10].Kind?
    ensures From(ps, 8) == [ps[8].lead, 0x00, ps[8].kind, 0x00] + From(ps, 9)
    ensures From(ps, 10) == [ps[10].kind, 0x04] + From(ps, 11)
  {
    hide SpeltAll;
    Unrolled(ps, 8);
    Unrolled(ps, 10);
  }

  function ChoiceOf(ps: seq<Piece>): Choice
    requires HoldsNames(ps) && HoldsServer(ps)
  {
    [!ps[1].nul, !ps[2].nul, !ps[3].nul, !ps[13].nul, !ps[14].nul]
  }

  lemma NamesWritten(ps: seq<Piece>)
    requires FitAll(ps, Layout())
    ensures |ps| == 26 && HoldsNames(ps) && HoldsServer(ps) && ValidNames(NamesIn(ps))
    ensures From(ps, 0) == NamesThen(NamesIn(ps), ChoiceOf(ps), From(ps, 4))
  {
    hide From, Counted, GoodText, Fits;
    FitsLayout(ps);
    assert HoldsServer(ps) by {
      FitsHolds(ps);
    }
    FromFixed(ps, 0, [0xF4, 0x01]);
    FromText16(ps, 1);
    FromText16(ps, 2);
    FromText16(ps, 3);
  }

  lemma FitsHolds(ps: seq<Piece>)
    requires FitAll(ps, Layout())
    ensures |ps| == 26 && HoldsNames(ps) && HoldsNetwork(ps) && HoldsServer(ps) && HoldsIpv6(ps)
  {
    FitsLayout(ps);
  }

  lemma NetworkWritten(ps: seq<Piece>)
    requires FitAll(ps, Layout())
    ensures |ps| == 26 && HoldsNetwork(ps) && ValidNetwork(NetworkIn(ps))
    ensures From(ps, 4) == NetworkThen(NetworkIn(ps), From(ps, 12))
  {
    hide From, Sized, ValidUtf8, FitAll;
    FitsHolds(ps);
    FromFixed(ps, 4, [0x02, 0x03, 0x03]);
    FromFree(ps, 5, 4);
    FromFree(ps, 6, 1);
    FromFixed(ps, 7, [0, 0, 0, 0, 0, 0, 0, 0]);
    FromTags(ps);
    FromText8(ps, 9);
    FromText8(ps, 11);
    var n := NetworkIn(ps);
    assert [n.address[3], n.address[2], n.address[1], n.address[0]] == ps[5].bytes;
    assert [n.prefixLength] == ps[6].bytes;
  }

  lemma ServerWritten(ps: seq<Piece>)
    requires FitAll(ps, Layout())
    ensures |ps| == 26 && HoldsNames(ps) && HoldsServer(ps) && ValidServer(ServerIn(ps))
    ensures From(ps, 12) == ServerThen(ServerIn(ps), ChoiceOf(ps), From(ps, 21))
  {
    hide From, Sized, Counted, ValidUtf8, GoodText, FitAll, LowHigh;
    FitsHolds(ps);
    FromFixed(ps, 12, [0x01]);
    FromText16(ps, 13);
    FromText16(ps, 14);
    FromFree(ps, 15, 2);
    PortRead(ps[15].bytes);
    FromText8(ps, 16);
    FromText8(ps, 17);
    FromFree(ps, 18, 2);
    PortRead(ps[18].bytes);
    FromFree(ps, 19, 2);
    PortRead(ps[19].bytes);
    FromFixed(ps, 20, [0, 0, 0, 0, 0]);
  }

  lemma Ipv6Written(ps: seq<Piece>)
    requires FitAll(ps, Layout())
    ensures |ps| == 26 && HoldsIpv6(ps) && ValidIpv6((ps[21].text, ps[23].text, ps[24].text))
    ensures From(ps, 21) == Ipv6Then((ps[21].text, ps[23].text, ps[24].text), [])
  {
    hide Sized, ValidUtf8, FitAll;
    FitsHolds(ps);
    FromText8(ps, 21);
    FromFixed(ps, 22, [0x40]);
    FromText8(ps, 23);
    FromText8(ps, 24);
    FromFixed(ps, 25, [0x81]);
    assert From(ps, 26) == [];
  }

  /** Pieces that fit spell the blob of the fields they hold. */
  lemma PiecesAreWritten(ps: seq<Piece>)
    requires FitAll(ps, Layout())
    ensures |ps| == 26 && HoldsNames(ps) && HoldsServer(ps) && ValidProfile(Fields(ps))
    ensures BlobOf(ps) == Written(Fields(ps), ChoiceOf(ps))
  {
    hide NamesThen, NetworkThen, ServerThen, Ipv6Then, ValidNames, ValidNetwork, ValidServer, ValidIpv6, FitAll;
    FitsHolds(ps);
    NamesWritten(ps);
    NetworkWritten(ps);
    ServerWritten(ps);
    Ipv6Written(ps);
    assert ps[0..] == ps;
  }

  // ----- Profiles are these pieces -----

  function PiecesFor(d: Profile, c: Choice): seq<Piece>
    requires ValidProfile(d)
  {
    var n, s := d.network, d.server;
    [Bytes([0xF4, 0x01]), TextPiece(d.names.name, c[0]), TextPiece(d.names.timestamp1, c[1]),
     TextPiece(d.names.timestamp2, c[2]), Bytes([0x02, 0x03, 0x03]), Bytes(Reversed(n.address)),
     Bytes([n.prefixLength]), Bytes([0, 0, 0, 0, 0, 0, 0, 0]), LeadAndKind(n.ssid24Lead, n.ssid24Kind), Text8(n.ssid24),
     Kind(n.ssid5Kind), Text8(n.ssid5), Bytes([0x01]), TextPiece(s.host, c[3]), TextPiece(s.folder, c[4]),
     Bytes(Le16(s.port)), Text8(s.username), Text8(s.password), Bytes(Le16(s.optionFlags)), Bytes(Le16(s.secondPort)),
     Bytes([0, 0, 0, 0, 0]), Text8(d.ipv6.0), Bytes([0x40]), Text8(d.ipv6.1), Text8(d.ipv6.2), Bytes([0x81])]
  }

  function TextPiece(u: seq<Unit>, bare: bool): Piece {
    Text16(u, !(u == [] && bare))
  }

  lemma PiecesFit(d: Profile, c: Choice)
    requires ValidProfile(d)
    ensures FitAll(PiecesFor(d, c), Layout())
  {
    hide ValidUtf8, Paired, Le16, Reversed;
    var ps, spots := PiecesFor(d, c), Layout();
    assert |ps| == |spots| == 26;
    FitsFirst(d, c);
    FitsLast(d, c);
    forall i | 0 <= i < |ps|
      ensures Fits(ps[i], spots[i].shape)
    {
      if i < 13 {
        assert Fits(PiecesFor(d, c)[i], Layout()[i].shape);
      } else {
        assert Fits(PiecesFor(d, c)[i], Layout()[i].shape);
      }
    }
  }

  lemma FitsFirst(d: Profile, c: Choice)
    requires ValidProfile(d)
    ensures forall i :: 0 <= i < 13 ==> Fits(PiecesFor(d, c)[i], Layout()[i].shape)
  {
    hide ValidUtf8, Paired;
  }

  lemma FitsLast(d: Profile, c: Choice)
    requires ValidProfile(d)
    ensures forall i :: 13 <= i < 26 ==> Fits(PiecesFor(d, c)[i], Layout()[i].shape)
  {
    hide ValidUtf8, Paired;
  }

  lemma PiecesHold(d: Profile, c: Choice)
    requires ValidProfile(d) && FitAll(PiecesFor(d, c), Layout())
    ensures Fields(PiecesFor(d, c)) == d
  {
    hide Layout, FitAll, ValidUtf8, GoodText, Fits;
    var ps := PiecesFor(d, c);
    FitsLayout(ps);
    Le16RoundTrip(d.server.port, Le16(d.server.port));
    Le16RoundTrip(d.server.optionFlags, Le16(d.server.optionFlags));
    Le16RoundTrip(d.server.secondPort, Le16(d.server.secondPort));
    assert Reversed(Reversed(d.network.address)) == d.network.address;
  }

  lemma SameWriting(d: Profile, c: Choice, k: Choice)
    requires ValidProfile(d)
    requires d.names.name == [] ==> c[0] == k[0]
    requires d.names.timestamp1 == [] ==> c[1] == k[1]
    requires d.names.timestamp2 == [] ==> c[2] == k[2]
    requires d.server.host == [] ==> c[3] == k[3]
    requires d.server.folder == [] ==> c[4] == k[4]
    ensures Written(d, c) == Written(d, k)
  {
    hide Sized, UnitsLowHigh, NetworkThen, Ipv6Then, ValidUtf8, GoodText;
  }

  /** The bytes of a valid profile are read as that profile. */
  lemma WriteThenRead(d: Profile, c: Choice)
    requires ValidProfile(d)
    ensures HasFields(Written(d, c), d)
  {
    hide Written, ValidProfile, Layout, FitAll, PiecesRead, SpeltAll, Fields;
    PiecesFit(d, c);
    var ps := PiecesFor(d, c);
    PiecesHold(d, c);
    PiecesAreWritten(ps);
    ChoiceIs(d, c);
    SpellThenRead(Layout(), ps, 0);
  }

  lemma ChoiceIs(d: Profile, c: Choice)
    requires ValidProfile(d) && FitAll(PiecesFor(d, c), Layout())
    ensures HoldsNames(PiecesFor(d, c)) && HoldsServer(PiecesFor(d, c))
    ensures Written(d, ChoiceOf(PiecesFor(d, c))) == Written(d, c)
  {
    hide Layout, FitAll, ValidUtf8, GoodText, Written;
    FitsHolds(PiecesFor(d, c));
    SameWriting(d, ChoiceOf(PiecesFor(d, c)), c);
  }

  /** A blob is read as a profile exactly when the profile is valid and the blob is its bytes. */
  lemma ReadExactlyWhenWritten(blob: seq<byte>, d: Profile)
    ensures HasFields(blob, d) <==> ValidProfile(d) && exists c: Choice :: Written(d, c) == blob
  {
    hide Written, ValidProfile, Layout, FitAll, PiecesRead, SpeltAll, Fields;
    if HasFields(blob, d) {
      ReadThenSpell(Layout(), blob, 0);
      PiecesAreWritten(Decoded(blob).value);
    }
    if ValidProfile(d) {
      if c: Choice :| Written(d, c) == blob {
        WriteThenRead(d, c);
      }
    }
  }

  // ----- The first bad byte -----

  /** A text's error is at the end of its longest prefix that is well formed. */
  lemma {:induction false} FirstBadIsTheFirst(s: seq<byte>, k: nat)
    requires k <= |s|
    ensures ValidUtf8(s[..FirstBad(s, k)])
    ensures forall j :: FirstBad(s, k) < j <= k ==> !ValidUtf8(s[..j])
  {
    hide ValidUtf8;
    if k > 0 && !ValidUtf8(s[..k]) {
      FirstBadIsTheFirst(s, k - 1);
    }
  }
}
