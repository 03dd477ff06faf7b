/** The NATNEG packets: the init record of a client and the replies built from it. */
module NatnegCodec {
  import opened Bytes

  const MAGIC: Text := [0xfd, 0xfc, 0x1e, 0x66, 0x6a, 0xb2]

  /** A client of a session; its address is the little-endian reading of four octets. */
  datatype Client = Client(sessionId: u32, index: byte, gameName: Text, address: u32, port: u16)

  predicate HasHeader(p: Text) {
    |p| >= 14 && p[..6] == MAGIC && p[6] == 0x03
  }

  predicate IsInit(p: Text) {
    HasHeader(p) && p[7] == 0x00 && |p| >= 22
  }

  function GameName(p: Text): Text
    requires |p| >= 21
  {
    match IndexOf(p, 0, 21)
    case None => p[21..]
    case Some(end) => p[21..end]
  }

  function ParseInit(p: Text): Option<Client> {
    if !IsInit(p) || GameName(p) == [] then None
    else Some(Client(ReadU32Le(p, 8), p[13], GameName(p), ReadU32Le(p, 15), ReadU16Be(p, 19)))
  }

  /** The 21 bytes before the name; `x` and `y` are bytes that the server does not read. */
  function InitHead(c: Client, x: byte, y: byte): (h: Text)
    ensures |h| == 21
  {
    MAGIC + [0x03, 0x00] + U32Le(c.sessionId) + [x, c.index, y] + U32Le(c.address) + U16Be(c.port)
  }

  /** An independent builder of init records; `tail` is what follows the name. */
  function InitRecord(c: Client, x: byte, y: byte, tail: Text): Text {
    InitHead(c, x, y) + (c.gameName + tail)
  }

  /** The name ends with the packet or at a zero byte. */
  predicate EndsName(tail: Text) {
    tail == [] || tail[0] == 0
  }

  lemma HeadReads(p: Text, c: Client, x: byte, y: byte)
    requires |p| >= 21 && p[..21] == InitHead(c, x, y)
    ensures p[..6] == MAGIC && p[6] == 0x03 && p[7] == 0x00 && p[13] == c.index
    ensures ReadU32Le(p, 8) == c.sessionId && ReadU32Le(p, 15) == c.address && ReadU16Be(p, 19) == c.port
  {
    var h := p[..21];
    assert forall k :: 0 <= k < 21 ==> p[k] == h[k];
    assert p[..6] == h[..6] == MAGIC;
    assert p[8..12] == h[8..12] == U32Le(c.sessionId);
    assert p[15..19] == h[15..19] == U32Le(c.address);
    assert p[19..21] == h[19..21] == U16Be(c.port);
    U32LeReads(c.sessionId, p, 8);
    U32LeReads(c.address, p, 15);
    U16BeReads(c.port, p, 19);
  }

  lemma HeadOfRead(p: Text, c: Client)
    requires |p| >= 21 && p[..6] == MAGIC && p[6] == 0x03 && p[7] == 0x00 && p[13] == c.index
    requires ReadU32Le(p, 8) == c.sessionId && ReadU32Le(p, 15) == c.address && ReadU16Be(p, 19) == c.port
    ensures p[..21] == InitHead(c, p[12], p[14])
  {
    U32LeReads(c.sessionId, p, 8);
    U32LeReads(c.address, p, 15);
    U16BeReads(c.port, p, 19);
    assert p[..21] == p[..6] + [p[6], p[7]] + p[8..12] + [p[12], p[13], p[14]] + p[15..19] + p[19..21];
  }

  lemma NameIsRead(p: Text, name: Text, tail: Text)
    requires |p| >= 21 && p[21..] == name + tail && 0 !in name && EndsName(tail)
    ensures GameName(p) == name
  {
    var end := 21 + |name|;
    CutAt(p, 21, name, tail);
    forall k | 21 <= k < end ensures p[k] != 0 {
      assert p[k] == name[k - 21];
    }
    if tail == [] {
      Units(name);
      assert IndexOf(p, 0, 21) == None;
    } else {
      assert p[end] == p[end..][0] == 0;
      assert IndexOf(p, 0, 21) == Some(end);
    }
  }

  /** Parsing inverts building: the record of a client whose game has a name is read as that client. */
  lemma ParseOfInitRecord(c: Client, x: byte, y: byte, tail: Text)
    requires c.gameName != [] && 0 !in c.gameName && EndsName(tail)
    ensures ParseInit(InitRecord(c, x, y, tail)) == Some(c)
  {
    var p := InitRecord(c, x, y, tail);
    PartsOfConcat(InitHead(c, x, y), c.gameName + tail);
    HeadReads(p, c, x, y);
    NameIsRead(p, c.gameName, tail);
  }

  lemma TailOfName(p: Text) returns (tail: Text)
    requires |p| >= 21
    ensures p[21..] == GameName(p) + tail && EndsName(tail) && 0 !in GameName(p)
  {
    match IndexOf(p, 0, 21)
    case None =>
      tail := [];
      Units(p[21..]);
      assert forall k :: 0 <= k < |p[21..]| ==> p[21..][k] == p[21 + k];
    case Some(end) =>
      tail := p[end..];
      assert p[21..] == p[21..end] + p[end..];
      assert forall k :: 0 <= k < |p[21..end]| ==> p[21..end][k] == p[21 + k];
  }

  /** Exactly the init records of a client with a game name parse, and they parse to that client. */
  lemma InitRecordsExactly(p: Text, c: Client)
    ensures ParseInit(p) == Some(c) <==>
            && c.gameName != [] && 0 !in c.gameName
            && exists x, y, tail :: EndsName(tail) && p == InitRecord(c, x, y, tail)
  {
    if ParseInit(p) == Some(c) {
      var tail := TailOfName(p);
      HeadOfRead(p, c);
      SplitAt(p, 21);
      assert EndsName(tail) && p == InitRecord(c, p[12], p[14], tail);
    } else if c.gameName != [] && 0 !in c.gameName {
      if x, y, tail :| EndsName(tail) && p == InitRecord(c, x, y, tail) {
        ParseOfInitRecord(c, x, y, tail);
      }
    }
  }

  // ---------- Replies ----------

  function InitAck(p: Text): Text {
    if !IsInit(p) then [] else p[..14][7 := 0x01] + [0xff, 0xff, 0x6d, 0x16, 0xb5, 0x7d, 0xea]
  }

  function Connect(p: Text, peer: Client): Text {
    if !IsInit(p) then []
    else p[..12][7 := 0x05] + U32Le(peer.address) + U16Be(peer.port) + [0x42, 0x00]
  }

  function ConnectAck(p: Text): Text {
    if !HasHeader(p) || p[7] != 0x06 then [] else p[7 := 0x06]
  }

  function AddressReply(p: Text, address: u32, port: u16): Text {
    if !HasHeader(p) || p[7] != 0x0a || |p| < 21 then []
    else p[..15][7 := 0x0b] + U32Le(address) + U16Be(port) + p[21..]
  }

  // ---------- Reading a connect ----------

  datatype ConnectInfo = ConnectInfo(sessionId: u32, address: u32, port: u16)

  function DecodeConnect(d: Text): Option<ConnectInfo> {
    if |d| == 20 && d[..6] == MAGIC && d[6] == 0x03 && d[7] == 0x05 && d[18] == 0x42 && d[19] == 0x00
    then Some(ConnectInfo(ReadU32Le(d, 8), ReadU32Le(d, 12), ReadU16Be(d, 16)))
    else None
  }

  /** A connect built from an init record names the record's session and the peer's endpoint. */
  lemma ConnectDecodes(p: Text, peer: Client)
    requires IsInit(p)
    ensures |Connect(p, peer)| == 20
    ensures DecodeConnect(Connect(p, peer)) == Some(ConnectInfo(ReadU32Le(p, 8), peer.address, peer.port))
  {
    var d := Connect(p, peer);
    assert d[12..16] == U32Le(peer.address) && d[16..18] == U16Be(peer.port);
    U32LeReads(peer.address, d, 12);
    U16BeReads(peer.port, d, 16);
    assert d[..6] == p[..6];
    assert d[8] == p[8] && d[9] == p[9] && d[10] == p[10] && d[11] == p[11];
  }

  /** No other reply can be taken for a connect. */
  lemma OnlyConnectsDecode(p: Text, address: u32, port: u16)
    ensures DecodeConnect(InitAck(p)).None?
    ensures DecodeConnect(ConnectAck(p)).None?
    ensures DecodeConnect(AddressReply(p, address, port)).None?
  {
    assert HasHeader(p) && |p| >= 21 && p[7] == 0x0a ==> AddressReply(p, address, port)[7] == 0x0b;
  }

  /** An acknowledgement repeats the record's header, session and index, and is marked as one. */
  lemma InitAckEchoes(p: Text)
    requires IsInit(p)
    ensures var r := InitAck(p);
            && |r| == 21 && r[..7] == p[..7] && r[7] == 0x01 && r[8..14] == p[8..14] && HasHeader(r)
            && r[14..] == [0xff, 0xff, 0x6d, 0x16, 0xb5, 0x7d, 0xea]
  {
    assert p[..14][7 := 0x01][..7] == p[..7] && InitAck(p)[..6] == p[..6];
  }

  /** A connect acknowledgement is the packet itself, or nothing if its header is not a NATNEG header. */
  lemma ConnectAckEchoes(p: Text)
    requires |p| >= 8 && p[7] == 0x06
    ensures ConnectAck(p) ==
            if |p| >= 14 && p[..6] == [0xfd, 0xfc, 0x1e, 0x66, 0x6a, 0xb2] && p[6] == 0x03 then p else []
  {
    if HasHeader(p) {
      assert p[7 := 0x06] == p;
    }
  }

  /** An address reply tells the asking endpoint what the server saw and repeats the rest of the request. */
  lemma AddressReplyReads(p: Text, address: u32, port: u16)
    requires HasHeader(p) && p[7] == 0x0a && |p| >= 21
    ensures var r := AddressReply(p, address, port);
            && |r| == |p| && ReadU32Le(r, 15) == address && ReadU16Be(r, 19) == port && r[7] == 0x0b
            && forall k :: 0 <= k < |p| && k != 7 && !(15 <= k < 21) ==> r[k] == p[k]
  {
    var r := AddressReply(p, address, port);
    assert r[15..19] == U32Le(address) && r[19..21] == U16Be(port);
    U32LeReads(address, r, 15);
    U16BeReads(port, r, 19);
  }

  // ---------- The builders ----------

  method NatnegConnect(initPacket: Text, peer: Client) returns (response: Text)
    ensures response == Connect(initPacket, peer)
  {
    if !IsInit(initPacket) {
      return [];
    }
    OctetsOf(peer.address);
    response := initPacket[..12];
    response := response[7 := 0x05];
    response := response + [peer.address % 0x100];
    response := response + [peer.address / 0x100 % 0x100];
    response := response + [peer.address / 0x1_0000 % 0x100];
    response := response + [peer.address / 0x100_0000];
    response := response + [peer.port / 0x100];
    response := response + [peer.port % 0x100];
    response := response + [0x42, 0x00];
  }

  method NatnegAddressReply(packet: Text, address: u32, port: u16) returns (result: Text)
    ensures result == AddressReply(packet, address, port)
  {
    if !HasHeader(packet) || packet[7] != 0x0a || |packet| < 21 {
      return [];
    }
    OctetsOf(address);
    var response := new byte[|packet|](i requires 0 <= i < |packet| => packet[i]);
    response[7] := 0x0b;
    response[15] := address % 0x100;
    response[16] := address / 0x100 % 0x100;
    response[17] := address / 0x1_0000 % 0x100;
    response[18] := address / 0x100_0000;
    response[19] := port / 0x100;
    response[20] := port % 0x100;
    result := response[..];
  }
}
