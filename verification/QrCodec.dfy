/** The GameSpy QR packets: what the server recognises, what it sends, and how a client answers a challenge. */
module QrCodec {
  import opened Bytes
  import opened Rc4
  import opened Base64

  // "mariokartwii"
  const GAME_NAME: Text := [0x6d, 0x61, 0x72, 0x69, 0x6f, 0x6b, 0x61, 0x72, 0x74, 0x77, 0x69, 0x69]
  // "localip0", with its terminator
  const LOCAL_IP_MARKER: Text := [0x6c, 0x6f, 0x63, 0x61, 0x6c, 0x69, 0x70, 0x30, 0]
  // "gamename" and the game's name, with their terminators
  const GAME_NAME_MARKER: Text := [0x67, 0x61, 0x6d, 0x65, 0x6e, 0x61, 0x6d, 0x65, 0] + GAME_NAME + [0]

  const AVAILABLE: Text := [0xfe, 0xfd, 0x09, 0, 0, 0, 0]

  // ---------- Requests ----------

  predicate IsAvailabilityRequest(p: Text) {
    |p| == 18 && p[0] == 0x09 && p[1..5] == [0, 0, 0, 0] && p[5..] == GAME_NAME + [0]
  }

  predicate IsHeartbeat(p: Text) {
    && |p| >= 5 && p[0] == 0x03
    && Find(p[5..], LOCAL_IP_MARKER, 0) == Some(0)
    && Find(p[5..], GAME_NAME_MARKER, 0).Some?
  }

  /** Only one packet asks for availability. */
  lemma AvailabilityExactly(p: Text)
    ensures IsAvailabilityRequest(p) <==> p == [0x09, 0, 0, 0, 0] + GAME_NAME + [0]
  {
    if IsAvailabilityRequest(p) {
      assert p == [p[0]] + p[1..5] + p[5..];
    }
  }

  function SessionId(p: Text): u32 {
    if |p| < 5 then 0 else ReadU32Le(p, 1)
  }

  /** A packet from a client: its command, its session, and the rest. */
  function ClientPacket(command: byte, id: u32, body: Text): Text {
    [command] + U32Le(id) + body
  }

  lemma PartsOfClientPacket(command: byte, id: u32, body: Text)
    ensures var p := ClientPacket(command, id, body);
            |p| == 5 + |body| && p[0] == command && SessionId(p) == id && p[5..] == body
  {
    var p := ClientPacket(command, id, body);
    assert p[1..5] == U32Le(id);
    U32LeReads(id, p, 1);
  }

  lemma IsClientPacket(p: Text)
    requires |p| >= 5
    ensures p == ClientPacket(p[0], SessionId(p), p[5..])
  {
    U32LeReads(SessionId(p), p, 1);
    assert p == [p[0]] + p[1..5] + p[5..];
  }

  /** The text from `first` up to the next zero byte. */
  function UpToZero(payload: Text, first: nat): Text
    requires first <= |payload|
  {
    match IndexOf(payload, 0, first)
    case None => payload[first..]
    case Some(end) => payload[first..end]
  }

  /** The text after the first occurrence of the marker, up to the next zero byte. */
  function TextAfter(payload: Text, marker: Text): Text
    requires marker != []
  {
    match Find(payload, marker, 0)
    case None => []
    case Some(start) => UpToZero(payload, start + |marker|)
  }

  /** The value of a field: the marker is its key and a terminator. */
  function FieldValue(p: Text, key: Text): Text {
    if |p| <= 5 then [] else TextAfter(p[5..], key + [0])
  }

  /** A command-3 packet whose payload starts with the local address and names the game anywhere is a heartbeat. */
  lemma HeartbeatIsRecognised(id: u32, rest: Text, i: nat)
    requires OccursAt(LOCAL_IP_MARKER + rest, GAME_NAME_MARKER, i)
    ensures var p := ClientPacket(0x03, id, LOCAL_IP_MARKER + rest); IsHeartbeat(p) && SessionId(p) == id
  {
    PartsOfClientPacket(0x03, id, LOCAL_IP_MARKER + rest);
    assert (LOCAL_IP_MARKER + rest)[0..9] == LOCAL_IP_MARKER;
    assert OccursAt(LOCAL_IP_MARKER + rest, LOCAL_IP_MARKER, 0);
  }

  /** Every heartbeat is such a packet. */
  lemma HeartbeatShape(p: Text) returns (rest: Text, i: nat)
    requires IsHeartbeat(p)
    ensures p == ClientPacket(0x03, SessionId(p), LOCAL_IP_MARKER + rest)
    ensures OccursAt(LOCAL_IP_MARKER + rest, GAME_NAME_MARKER, i)
  {
    var payload := p[5..];
    rest, i := payload[9..], Find(payload, GAME_NAME_MARKER, 0).value;
    assert payload == payload[0..9] + rest == LOCAL_IP_MARKER + rest;
    IsClientPacket(p);
  }

  /** The marker first occurs after `before`, and the value after it ends the payload or at a zero byte. */
  predicate CarriesAt(payload: Text, before: Text, marker: Text, value: Text, after: Text)
    requires marker != []
  {
    && payload == before + marker + (value + after)
    && Find(payload, marker, 0) == Some(|before|) && 0 !in value && (after == [] || after[0] == 0)
  }

  lemma ValueEnds(payload: Text, first: nat, value: Text, after: Text)
    requires first <= |payload| && payload[first..] == value + after && 0 !in value && (after == [] || after[0] == 0)
    ensures UpToZero(payload, first) == value
  {
    if after == [] {
      Units(value);
      assert forall k :: first <= k < |payload| ==> payload[k] == value[k - first];
    } else {
      SplitAt(after, 1);
      assert after[..1] == [0];
      Assoc(value, [0], after[1..]);
      SeparatorAfter(payload, 0, first, value, after[1..]);
    }
  }

  lemma CarriedIsRead(payload: Text, before: Text, marker: Text, value: Text, after: Text)
    requires marker != [] && CarriesAt(payload, before, marker, value, after)
    ensures TextAfter(payload, marker) == value
  {
    PartsOfConcat(before + marker, value + after);
    ValueEnds(payload, |before| + |marker|, value, after);
  }

  /** A field whose key first occurs where the field is, and whose value holds no zero byte, is read back. */
  lemma FieldIsRead(p: Text, before: Text, key: Text, value: Text, after: Text)
    requires |p| > 5 && CarriesAt(p[5..], before, key + [0], value, after)
    ensures FieldValue(p, key) == value
  {
    CarriedIsRead(p[5..], before, key + [0], value, after);
  }

  /** The payload has a field with this value, or has no such field and the value is empty. */
  ghost predicate PayloadSays(payload: Text, marker: Text, value: Text)
    requires marker != []
  {
    || (exists before, after :: CarriesAt(payload, before, marker, value, after))
    || (value == [] && forall j: nat :: !OccursAt(payload, marker, j))
  }

  /** What a packet of more than five bytes says after them; a shorter one says nothing. */
  ghost predicate Says(p: Text, key: Text, value: Text) {
    if |p| <= 5 then value == [] else PayloadSays(p[5..], key + [0], value)
  }

  lemma ValueAndRest(t: Text) returns (value: Text, after: Text)
    ensures t == value + after && 0 !in value && (after == [] || after[0] == 0)
  {
    match IndexOf(t, 0, 0)
    case None =>
      value, after := t, [];
    case Some(end) =>
      value, after := t[..end], t[end..];
  }

  lemma FoundIsCarried(payload: Text, marker: Text) returns (before: Text, value: Text, after: Text)
    requires marker != [] && Find(payload, marker, 0).Some?
    ensures CarriesAt(payload, before, marker, value, after)
  {
    var start := Find(payload, marker, 0).value;
    var first := start + |marker|;
    value, after := ValueAndRest(payload[first..]);
    before := payload[..start];
    TakeFurther(payload, start, first);
    SplitAt(payload, first);
  }

  lemma TextAfterExactly(payload: Text, marker: Text, value: Text)
    requires marker != []
    ensures TextAfter(payload, marker) == value <==> PayloadSays(payload, marker, value)
  {
    if Find(payload, marker, 0).Some? {
      var before, read, after := FoundIsCarried(payload, marker);
      CarriedIsRead(payload, before, marker, read, after);
      assert OccursAt(payload, marker, Find(payload, marker, 0).value);
    }
    if before, after :| CarriesAt(payload, before, marker, value, after) {
      CarriedIsRead(payload, before, marker, value, after);
    }
  }

  /** Reading a field gives exactly the value that the packet says. */
  lemma FieldExactly(p: Text, key: Text, value: Text)
    ensures FieldValue(p, key) == value <==> Says(p, key, value)
  {
    if |p| > 5 {
      TextAfterExactly(p[5..], key + [0], value);
    }
  }

  // ---------- Hexadecimal ----------

  function HexDigit(d: int): byte
    requires 0 <= d < 16
  {
    if d < 10 then 0x30 + d else 0x41 + (d - 10)
  }

  function HexByte(b: byte): Text {
    [HexDigit(b / 16), HexDigit(b % 16)]
  }

  function Hex(s: Text): (h: Text)
    ensures |h| == 2 * |s|
  {
    if s == [] then [] else HexByte(s[0]) + Hex(s[1..])
  }

  function HexValue(c: byte): Option<int> {
    if 0x30 <= c <= 0x39 then Some(c - 0x30)
    else if 0x41 <= c <= 0x46 then Some(c - 0x41 + 10)
    else None
  }

  function UnHexByte(c0: byte, c1: byte): Option<byte> {
    match (HexValue(c0), HexValue(c1))
    case (Some(high), Some(low)) => Some(16 * high + low)
    case _ => None
  }

  function UnHex(h: Text): Option<Text> {
    if h == [] then Some([])
    else if |h| < 2 then None
    else
      match (UnHexByte(h[0], h[1]), UnHex(h[2..]))
      case (Some(b), Some(rest)) => Some([b] + rest)
      case _ => None
  }

  lemma UnHexHexByte(b: byte)
    ensures var h := HexByte(b); UnHexByte(h[0], h[1]) == Some(b) && h[0] != 0 && h[1] != 0
  {
  }

  lemma {:induction false} UnHexHex(s: Text)
    ensures UnHex(Hex(s)) == Some(s)
    ensures 0 !in Hex(s)
  {
    if s == [] {
    } else {
      var h := HexByte(s[0]);
      UnHexHexByte(s[0]);
      UnHexHex(s[1..]);
      assert Hex(s)[0] == h[0] && Hex(s)[1] == h[1] && Hex(s)[2..] == Hex(s[1..]);
      assert s == [s[0]] + s[1..];
    }
  }

  // ---------- The challenge ----------

  predicate AreSixLetters(s: Text) {
    |s| == 6 && forall i :: 0 <= i < 6 ==> 0x41 <= s[i] <= 0x5a
  }

  /** Six random letters, "00", and the client's address and port in hexadecimal. */
  function ChallengeText(letters: Text, address: Address, port: u16): (t: Text)
    ensures |t| == |letters| + 14
  {
    letters + [0x30, 0x30] + Hex(address + U16Be(port))
  }

  function ChallengeResponse(id: u32, letters: Text, address: Address, port: u16): Text {
    [0xfe, 0xfd, 0x01] + U32Le(id) + ChallengeText(letters, address, port) + [0]
  }

  /** The text that the server keeps and the client reads: from byte 7 up to the first zero byte. */
  function TextOfChallenge(response: Text): Text
    requires |response| >= 7
  {
    match IndexOf(response, 0, 7)
    case None => response[7..]
    case Some(end) => response[7..end]
  }

  /** The reply carries its whole text, from which the client's address and port can be read back. */
  lemma ChallengeCarriesItsText(id: u32, letters: Text, address: Address, port: u16)
    requires AreSixLetters(letters)
    ensures var r := ChallengeResponse(id, letters, address, port); var text := TextOfChallenge(r);
            && |r| == 28 && (forall i :: 7 <= i < 28 ==> (r[i] == 0 <==> i == 27))
            && text == ChallengeText(letters, address, port) && |text| == 20
            && text[..6] == letters && text[6..8] == [0x30, 0x30] && UnHex(text[8..]) == Some(address + U16Be(port))
            && r[..3] == [0xfe, 0xfd, 0x01] && ReadU32Le(r, 3) == id
  {
    var r := ChallengeResponse(id, letters, address, port);
    var text := ChallengeText(letters, address, port);
    UnHexHex(address + U16Be(port));
    assert 0 !in text;
    assert r[7..27] == text && r[27] == 0;
    forall i | 7 <= i < 27 ensures r[i] != 0 {
      assert r[i] == text[i - 7];
    }
    assert IndexOf(r, 0, 7) == Some(27);
    assert text[8..] == Hex(address + U16Be(port));
    Assoc([0xfe, 0xfd, 0x01] + U32Le(id), text, [0]);
    ReadsBack(r, [0xfe, 0xfd, 0x01], id, text + [0]);
  }

  function RegisteredResponse(id: u32): Text {
    [0xfe, 0xfd, 0x0a] + U32Le(id)
  }

  /** A registration has seven bytes, of which the last four name the session. */
  lemma RegisteredReads(id: u32)
    ensures var r := RegisteredResponse(id); |r| == 7 && r[..3] == [0xfe, 0xfd, 0x0a] && ReadU32Le(r, 3) == id
  {
    Units(RegisteredResponse(id));
    ReadsBack(RegisteredResponse(id), [0xfe, 0xfd, 0x0a], id, []);
  }

  // ---------- The answer ----------

  /** The encrypted and encoded challenge. */
  function ExpectedAnswer(challenge: Text, key: Text): Text
    requires key != []
  {
    Encode(Rc4.Rc4(key, challenge) + [0], QR_PAD)
  }

  function AnswerOf(p: Text): Text
    requires |p| >= 6
  {
    if p[|p| - 1] == 0 then p[5..|p| - 1] else p[5..]
  }

  predicate Answers(p: Text, expected: Text) {
    |p| >= 7 && p[0] == 0x01 && AnswerOf(p) == expected
  }

  predicate ChallengeMatches(p: Text, challenge: Text, key: Text) {
    key != [] && Answers(p, ExpectedAnswer(challenge, key))
  }

  function ClientResponse(id: u32, challenge: Text, key: Text): Text {
    if key == [] then [] else ClientPacket(0x01, id, ExpectedAnswer(challenge, key) + [0])
  }

  lemma ExpectedAnswerShape(challenge: Text, key: Text)
    requires key != []
    ensures var e := ExpectedAnswer(challenge, key); |e| >= 4 && 0 !in e
  {
    var s := Rc4.Rc4(key, challenge) + [0];
    EncodedLength(s, QR_PAD);
    EncodedHasNoZero(s, QR_PAD);
  }

  function DropTrailingZero(body: Text): Text {
    if body != [] && body[|body| - 1] == 0 then body[..|body| - 1] else body
  }

  lemma DropTrailingZeroTo(body: Text, e: Text)
    requires e != [] && 0 !in e
    ensures DropTrailingZero(body) == e <==> body == e || body == e + [0]
  {
    if body != [] && body[|body| - 1] == 0 {
      assert body == body[..|body| - 1] + [0];
    }
    assert e[|e| - 1] in e;
    assert DropTrailingZero(e) == e && DropTrailingZero(e + [0]) == e;
  }

  lemma AnswersExactly(p: Text, e: Text)
    requires |p| >= 5 && |e| >= 4 && 0 !in e
    ensures Answers(p, e) <==>
            p == ClientPacket(0x01, SessionId(p), e + [0]) || p == ClientPacket(0x01, SessionId(p), e)
  {
    IsClientPacket(p);
    PartsOfClientPacket(0x01, SessionId(p), e);
    PartsOfClientPacket(0x01, SessionId(p), e + [0]);
    DropTrailingZeroTo(p[5..], e);
    if |p| >= 7 {
      assert AnswerOf(p) == DropTrailingZero(p[5..]);
    }
  }

  /** Exactly two packets of a session answer its challenge: the client's, with or without the last zero byte. */
  lemma MatchesExactly(p: Text, challenge: Text, key: Text)
    requires key != [] && |p| >= 5
    ensures var id, e := SessionId(p), ExpectedAnswer(challenge, key);
            ChallengeMatches(p, challenge, key) <==>
            p == ClientResponse(id, challenge, key) || p == ClientPacket(0x01, id, e)
  {
    ExpectedAnswerShape(challenge, key);
    AnswersExactly(p, ExpectedAnswer(challenge, key));
  }

  /**
   * Every accepted answer is a command-1 packet of its session whose text, up to an optional zero byte, decodes to
   * the cipher text of the challenge under the key and a zero byte.
   */
  lemma AcceptedAnswerDecodes(p: Text, challenge: Text, key: Text) returns (body: Text, encrypted: Text)
    requires ChallengeMatches(p, challenge, key)
    ensures key != [] && |p| >= 7
    ensures p == ClientPacket(0x01, SessionId(p), body) || p == ClientPacket(0x01, SessionId(p), body + [0])
    ensures Decode(body, QR_PAD) == Some(encrypted + [0]) && Rc4.IsCipherText(key, challenge, encrypted)
  {
    body, encrypted := ExpectedAnswer(challenge, key), Rc4.Rc4(key, challenge);
    MatchesExactly(p, challenge, key);
    DecodeEncode(encrypted + [0], QR_PAD);
    Rc4.Rc4Exactly(key, challenge, encrypted);
  }

  lemma PartsOfClientResponse(id: u32, challenge: Text, key: Text)
    requires key != []
    ensures var r := ClientResponse(id, challenge, key); |r| >= 10 && r[0] == 0x01 && SessionId(r) == id
  {
    ExpectedAnswerShape(challenge, key);
    PartsOfClientPacket(0x01, id, ExpectedAnswer(challenge, key) + [0]);
  }

  method QrChallengeMatches(packet: Text, challenge: Text, secretKey: Text) returns (matches: bool)
    ensures matches == ChallengeMatches(packet, challenge, secretKey)
  {
    if |packet| < 7 || packet[0] != 0x01 || secretKey == [] {
      return false;
    }
    var encrypted := Rc4Transform(secretKey, challenge);
    encrypted := encrypted + [0];
    var expected := QrBase64Encode(encrypted);
    var responseEnd := if packet[|packet| - 1] == 0 then |packet| - 1 else |packet|;
    assert packet[5..responseEnd] == AnswerOf(packet);
    matches := packet[5..responseEnd] == expected;
  }

  method QrClientChallengeResponse(id: u32, challenge: Text, secretKey: Text) returns (response: Text)
    ensures response == ClientResponse(id, challenge, secretKey)
  {
    if secretKey == [] {
      return [];
    }
    var encrypted := Rc4Transform(secretKey, challenge);
    encrypted := encrypted + [0];
    var encoded := QrBase64Encode(encrypted);
    response := [0x01] + U32Le(id);
    response := response + encoded;
    response := response + [0];
  }
}
