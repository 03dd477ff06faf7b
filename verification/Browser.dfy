/** The GameSpy browser request and the empty server list that answers it. */
module Browser {
  import opened Bytes
  import opened Splitting
  import Fields

  const BACKSLASH: byte := Fields.BACKSLASH

  datatype Request = Request(gameName: Text, challenge: Text, filter: Text, fields: seq<Text>)

  const FRESH: Request := Request([], [], [], [])

  // ---------- Parsing ----------

  /** The text up to the next zero byte, and the position after it; without a zero byte, nothing and the end. */
  function CString(p: Text, offset: nat): (r: (Text, nat))
    requires offset <= |p|
    ensures offset <= r.1 <= |p|
  {
    match IndexOf(p, 0, offset)
    case None => ([], |p|)
    case Some(end) => (p[offset..end], end + 1)
  }

  predicate HasHeader(p: Text) {
    |p| >= 15 && p[2] == 0 && ReadU16Be(p, 0) == |p|
  }

  /** The challenge, the filter and the fields, from position `offset` on. */
  function ParseRest(p: Text, offset: nat, into: Request): (bool, Request)
    requires offset + 8 <= |p|
  {
    var (filter, afterFilter) := CString(p, offset + 8);
    var (fieldText, afterFields) := CString(p, afterFilter);
    var known := into.(challenge := p[offset..offset + 8], filter := filter);
    if afterFields + 4 > |p| then (false, known)
    else (true, known.(fields := into.fields + Pieces(fieldText, BACKSLASH)))
  }

  /** Whether the packet parses, and what parsing it into a record leaves there. */
  function Parse(p: Text, into: Request): (bool, Request) {
    if !HasHeader(p) then (false, into)
    else
      var (queryGame, afterQuery) := CString(p, 9);
      var (game, afterGame) := CString(p, afterQuery);
      var named := into.(gameName := game);
      if queryGame == [] || game == [] || afterGame + 8 > |p| then (false, named)
      else ParseRest(p, afterGame, named)
  }

  // ---------- An independent encoder ----------

  /** `options` are the six bytes after the size and the zero byte that the parser skips; `tail` ends the request. */
  function Encode(options: Text, queryGame: Text, r: Request, tail: Text): Text {
    options + (queryGame + [0] + (r.gameName + [0] + (r.challenge +
    (r.filter + [0] + (Join(r.fields, BACKSLASH) + [0] + tail)))))
  }

  function WithSize(body: Text): Text
    requires |body| + 3 < 0x1_0000
  {
    U16Be(|body| + 3) + [0] + body
  }

  lemma CStringReads(p: Text, offset: nat, t: Text, rest: Text)
    requires offset <= |p| && p[offset..] == t + [0] + rest && 0 !in t
    ensures var next := offset + |t| + 1;
            CString(p, offset) == (t, next) && next <= |p| && p[next..] == rest
  {
    SeparatorAfter(p, 0, offset, t, rest);
  }

  predicate IsField(f: Text) {
    IsPiece(f, BACKSLASH) && 0 !in f
  }

  lemma {:induction false} JoinHasNoZero(fields: seq<Text>)
    requires forall f :: f in fields ==> IsField(f)
    ensures 0 !in Join(fields, BACKSLASH)
  {
    if fields == [] {
    } else {
      assert fields[0] in fields;
      JoinHasNoZero(fields[1..]);
      if |fields| > 1 {
        InConcat(0, fields[0], [BACKSLASH]);
        InConcat(0, fields[0] + [BACKSLASH], Join(fields[1..], BACKSLASH));
      }
    }
  }

  lemma ParseRestByCursors(p: Text, offset: nat, filter: Text, afterFilter: nat, fieldText: Text, afterFields: nat,
                           into: Request)
    requires offset + 8 <= |p| && afterFilter <= |p| && afterFields + 4 <= |p|
    requires CString(p, offset + 8) == (filter, afterFilter) && CString(p, afterFilter) == (fieldText, afterFields)
    ensures ParseRest(p, offset, into) ==
            (true, Request(into.gameName, p[offset..offset + 8], filter, into.fields + Pieces(fieldText, BACKSLASH)))
  {
  }

  lemma ParseRestOfTexts(p: Text, offset: nat, challenge: Text, filter: Text, fieldText: Text, tail: Text,
                         into: Request)
    requires offset <= |p| && |challenge| == 8 && 0 !in filter && 0 !in fieldText && |tail| >= 4
    requires p[offset..] == challenge + (filter + [0] + (fieldText + [0] + tail))
    ensures ParseRest(p, offset, into) ==
            (true, Request(into.gameName, challenge, filter, into.fields + Pieces(fieldText, BACKSLASH)))
  {
    CutAt(p, offset, challenge, filter + [0] + (fieldText + [0] + tail));
    CStringReads(p, offset + 8, filter, fieldText + [0] + tail);
    var afterFilter := offset + 8 + |filter| + 1;
    CStringReads(p, afterFilter, fieldText, tail);
    ParseRestByCursors(p, offset, filter, afterFilter, fieldText, afterFilter + |fieldText| + 1, into);
  }

  predicate IsEncodable(r: Request) {
    && r.gameName != [] && 0 !in r.gameName && |r.challenge| == 8 && 0 !in r.filter
    && forall f :: f in r.fields ==> IsField(f)
  }

  lemma ParseByCursors(p: Text, queryGame: Text, afterQuery: nat, game: Text, afterGame: nat, into: Request)
    requires HasHeader(p) && queryGame != [] && game != [] && afterQuery <= |p| && afterGame + 8 <= |p|
    requires CString(p, 9) == (queryGame, afterQuery) && CString(p, afterQuery) == (game, afterGame)
    ensures Parse(p, into) == ParseRest(p, afterGame, into.(gameName := game))
  {
  }

  lemma NamesRead(p: Text, queryGame: Text, game: Text, rest: Text) returns (afterQuery: nat, afterGame: nat)
    requires |p| >= 9 && p[9..] == queryGame + [0] + (game + [0] + rest) && 0 !in queryGame && 0 !in game
    ensures afterQuery <= |p| && afterGame <= |p|
    ensures CString(p, 9) == (queryGame, afterQuery) && CString(p, afterQuery) == (game, afterGame)
    ensures p[afterGame..] == rest
  {
    CStringReads(p, 9, queryGame, game + [0] + rest);
    afterQuery := 9 + |queryGame| + 1;
    CStringReads(p, afterQuery, game, rest);
    afterGame := afterQuery + |game| + 1;
  }

  lemma ParseOfNames(p: Text, queryGame: Text, game: Text, challenge: Text, filter: Text, fieldText: Text,
                     tail: Text, rest: Text)
    requires queryGame != [] && 0 !in queryGame && game != [] && 0 !in game
    requires |challenge| == 8 && 0 !in filter && 0 !in fieldText && |tail| >= 4 && HasHeader(p)
    requires rest == challenge + (filter + [0] + (fieldText + [0] + tail))
    requires p[9..] == queryGame + [0] + (game + [0] + rest)
    ensures Parse(p, FRESH) == (true, Request(game, challenge, filter, Pieces(fieldText, BACKSLASH)))
  {
    var afterQuery, afterGame := NamesRead(p, queryGame, game, rest);
    ParseByCursors(p, queryGame, afterQuery, game, afterGame, FRESH);
    ParseRestOfTexts(p, afterGame, challenge, filter, fieldText, tail, FRESH.(gameName := game));
    Units(Pieces(fieldText, BACKSLASH));
  }

  lemma SizeReads(body: Text, options: Text, names: Text)
    requires |options| == 6 && body == options + names && |names| >= 6 && |body| + 3 < 0x1_0000
    ensures HasHeader(WithSize(body)) && WithSize(body)[9..] == names
  {
    var p := WithSize(body);
    assert p[0..2] == U16Be(|p|);
    U16BeReads(|p|, p, 0);
  }

  /**
   * A packet of at most 65535 bytes that starts with its own size and a zero byte, and then consists of six option
   * bytes, the query game and the game, eight bytes, the filter, the field text, and at least four more bytes. The
   * four texts are ended by zero bytes, and the two games have names.
   */
  predicate IsRequest(p: Text, options: Text, queryGame: Text, game: Text, challenge: Text, filter: Text,
                      fieldText: Text, tail: Text)
  {
    var body := options + (queryGame + [0] + (game + [0] + (challenge + (filter + [0] + (fieldText + [0] + tail)))));
    && |options| == 6 && queryGame != [] && 0 !in queryGame && game != [] && 0 !in game && |challenge| == 8
    && 0 !in filter && 0 !in fieldText && |tail| >= 4
    && |body| + 3 < 0x1_0000 && p == WithSize(body)
  }

  lemma ParseOfRequest(p: Text, options: Text, queryGame: Text, game: Text, challenge: Text, filter: Text,
                       fieldText: Text, tail: Text)
    requires IsRequest(p, options, queryGame, game, challenge, filter, fieldText, tail)
    ensures Parse(p, FRESH) == (true, Request(game, challenge, filter, Pieces(fieldText, BACKSLASH)))
  {
    var rest := challenge + (filter + [0] + (fieldText + [0] + tail));
    var names := queryGame + [0] + (game + [0] + rest);
    SizeReads(options + names, options, names);
    ParseOfNames(p, queryGame, game, challenge, filter, fieldText, tail, rest);
  }

  /** A text that was read, or that was not the last thing in the packet, was ended by a zero byte. */
  lemma CStringStands(p: Text, offset: nat)
    requires offset <= |p| && (CString(p, offset).0 != [] || CString(p, offset).1 < |p|)
    ensures var (t, next) := CString(p, offset); p[offset..] == t + [0] + p[next..] && 0 !in t
  {
    var end := IndexOf(p, 0, offset).value;
    assert p[offset..] == p[offset..end] + [p[end]] + p[end + 1..];
    assert forall k :: 0 <= k < end - offset ==> p[offset..end][k] == p[offset + k];
  }

  lemma HeaderStands(p: Text)
    requires HasHeader(p) && |p| < 0x1_0000
    ensures p == WithSize(p[3..9] + p[9..])
  {
    U16BeReads(|p|, p, 0);
    assert p[0..2] == U16Be(|p|);
    assert p[3..9] + p[9..] == p[3..];
    assert p == p[0..2] + [p[2]] + p[3..];
  }

  /** The texts of a request that parses. */
  lemma RequestOfParsed(p: Text)
    returns (queryGame: Text, game: Text, challenge: Text, filter: Text, fieldText: Text, tail: Text)
    requires Parse(p, FRESH).0
    ensures IsRequest(p, p[3..9], queryGame, game, challenge, filter, fieldText, tail)
  {
    var afterQuery, afterGame;
    queryGame, afterQuery, game, afterGame := NamesOfParsed(p);
    challenge, filter, fieldText, tail := TextsOfParsed(p, afterGame, FRESH.(gameName := game));
    HeaderStands(p);
  }

  lemma NamesOfParsed(p: Text) returns (queryGame: Text, afterQuery: nat, game: Text, afterGame: nat)
    requires Parse(p, FRESH).0
    ensures HasHeader(p) && |p| < 0x1_0000 && afterGame <= |p|
    ensures queryGame != [] && 0 !in queryGame && game != [] && 0 !in game
    ensures p[9..] == queryGame + [0] + (game + [0] + p[afterGame..])
    ensures afterGame + 8 <= |p| && ParseRest(p, afterGame, FRESH.(gameName := game)).0
  {
    queryGame, afterQuery := CString(p, 9).0, CString(p, 9).1;
    game, afterGame := CString(p, afterQuery).0, CString(p, afterQuery).1;
    CStringStands(p, 9);
    CStringStands(p, afterQuery);
  }

  lemma TextsOfParsed(p: Text, offset: nat, into: Request)
    returns (challenge: Text, filter: Text, fieldText: Text, tail: Text)
    requires offset + 8 <= |p| && ParseRest(p, offset, into).0
    ensures |challenge| == 8 && 0 !in filter && 0 !in fieldText && |tail| >= 4
    ensures p[offset..] == challenge + (filter + [0] + (fieldText + [0] + tail))
  {
    var afterFilter := CString(p, offset + 8).1;
    var afterFields := CString(p, afterFilter).1;
    challenge, filter, fieldText := p[offset..offset + 8], CString(p, offset + 8).0, CString(p, afterFilter).0;
    tail := p[afterFields..];
    CStringStands(p, offset + 8);
    CStringStands(p, afterFilter);
    assert p[offset..] == p[offset..offset + 8] + p[offset + 8..];
  }

  /** Exactly such packets parse. */
  lemma ParsedExactly(p: Text)
    ensures Parse(p, FRESH).0 <==>
            exists options, queryGame, game, challenge, filter, fieldText, tail ::
              IsRequest(p, options, queryGame, game, challenge, filter, fieldText, tail)
  {
    if Parse(p, FRESH).0 {
      var queryGame, game, challenge, filter, fieldText, tail := RequestOfParsed(p);
    } else if options, queryGame, game, challenge, filter, fieldText, tail :|
        IsRequest(p, options, queryGame, game, challenge, filter, fieldText, tail) {
      ParseOfRequest(p, options, queryGame, game, challenge, filter, fieldText, tail);
    }
  }

  /** Parsing inverts encoding: a request of at most 65535 bytes is read back whole. */
  lemma ParseOfEncoded(options: Text, queryGame: Text, r: Request, tail: Text)
    requires |options| == 6 && queryGame != [] && 0 !in queryGame && IsEncodable(r) && |tail| >= 4
    requires |Encode(options, queryGame, r, tail)| + 3 < 0x1_0000
    ensures Parse(WithSize(Encode(options, queryGame, r, tail)), FRESH) == (true, r)
  {
    var joined := Join(r.fields, BACKSLASH);
    JoinHasNoZero(r.fields);
    ParseOfRequest(WithSize(Encode(options, queryGame, r, tail)), options, queryGame, r.gameName, r.challenge, r.filter,
                   joined, tail);
    PiecesOfJoin(r.fields, BACKSLASH);
  }

  // ---------- The reply ----------

  function FieldEntries(fields: seq<Text>): Text {
    if fields == [] then [] else fields[0] + [0, 0] + FieldEntries(fields[1..])
  }

  const LIST_END: Text := [0, 0xff, 0xff, 0xff, 0xff]

  /** The count is a 16-bit number, so it wraps around. */
  function Reply(r: Request, address: Address, port: u16): Text {
    address + U16Be(port) + U16Be(|r.fields| % 0x1_0000) + FieldEntries(r.fields) + LIST_END
  }

  /** Reads `n` entries, each a zero-terminated name and a zero byte. */
  function DecodeEntries(p: Text, n: nat): Option<(seq<Text>, Text)> {
    if n == 0 then Some(([], p))
    else
      match IndexOf(p, 0, 0)
      case None => None
      case Some(end) =>
        if end + 1 < |p| && p[end + 1] == 0 then
          match DecodeEntries(p[end + 2..], n - 1)
          case None => None
          case Some((fields, rest)) => Some(([p[..end]] + fields, rest))
        else None
  }

  /** The fields that a reply announces, if it is a whole reply for this endpoint. */
  function DecodeReply(p: Text, address: Address, port: u16): Option<seq<Text>> {
    if |p| < 8 || p[..4] != address || p[4..6] != U16Be(port) then None
    else
      match DecodeEntries(p[8..], ReadU16Be(p, 6))
      case Some((fields, rest)) => if rest == LIST_END then Some(fields) else None
      case None => None
  }

  lemma FirstEntry(p: Text, first: Text, more: Text, n: nat)
    requires p == first + [0, 0] + more && 0 !in first && n > 0
    ensures DecodeEntries(p, n) ==
            match DecodeEntries(more, n - 1)
            case None => None
            case Some((fields, rest)) => Some(([first] + fields, rest))
  {
    var end := |first|;
    assert p[end] == 0 && p[end + 1] == 0 && forall k :: 0 <= k < end ==> p[k] == first[k];
    assert IndexOf(p, 0, 0) == Some(end);
    assert p[..end] == first && p[end + 2..] == more;
  }

  lemma EntriesOfFirst(fields: seq<Text>, rest: Text)
    requires fields != []
    ensures FieldEntries(fields) + rest == fields[0] + [0, 0] + (FieldEntries(fields[1..]) + rest)
  {
    Assoc(fields[0] + [0, 0], FieldEntries(fields[1..]), rest);
  }

  lemma {:induction false} DecodeOfEntries(p: Text, fields: seq<Text>, rest: Text)
    requires p == FieldEntries(fields) + rest && forall f :: f in fields ==> 0 !in f
    ensures DecodeEntries(p, |fields|) == Some((fields, rest))
    decreases |fields|
  {
    if fields == [] {
      assert p == rest;
    } else {
      var first, others := fields[0], fields[1..];
      var more := FieldEntries(others) + rest;
      assert first in fields && forall f :: f in others ==> f in fields;
      EntriesOfFirst(fields, rest);
      DecodeOfEntries(more, others, rest);
      FirstEntry(p, first, more, |fields|);
      SplitAt(fields, 1);
      assert fields[..1] == [first];
    }
  }

  lemma {:induction false} DecodedCount(p: Text, n: nat)
    ensures DecodeEntries(p, n).Some? ==> |DecodeEntries(p, n).value.0| == n
    decreases n
  {
    if n == 0 {
    } else if IndexOf(p, 0, 0).Some? {
      var end := IndexOf(p, 0, 0).value;
      if end + 1 < |p| {
        DecodedCount(p[end + 2..], n - 1);
      }
    }
  }

  lemma ReplyParts(r: Request, address: Address, port: u16, count: u16)
    requires count == |r.fields| % 0x1_0000
    ensures var p := Reply(r, address, port);
            && |p| >= 8 && p[..4] == address && p[4..6] == U16Be(port) && ReadU16Be(p, 6) == count
            && p[8..] == FieldEntries(r.fields) + LIST_END
  {
    var p := Reply(r, address, port);
    assert p[6..8] == U16Be(count);
    U16BeReads(count, p, 6);
  }

  lemma DecodeOfParts(p: Text, address: Address, port: u16, count: u16, entries: Text)
    requires |p| >= 8 && p[..4] == address && p[4..6] == U16Be(port) && ReadU16Be(p, 6) == count && p[8..] == entries
    ensures DecodeReply(p, address, port) ==
            match DecodeEntries(entries, count)
            case Some((fields, rest)) => (if rest == LIST_END then Some(fields) else None)
            case None => None
  {
  }

  /** The reply decodes to the request's fields exactly when their number fits in 16 bits. */
  lemma ReplyDecodes(r: Request, address: Address, port: u16)
    requires forall f :: f in r.fields ==> 0 !in f
    ensures DecodeReply(Reply(r, address, port), address, port) == Some(r.fields) <==> |r.fields| < 0x1_0000
  {
    var count := |r.fields| % 0x1_0000;
    var entries := FieldEntries(r.fields) + LIST_END;
    ReplyParts(r, address, port, count);
    DecodeOfParts(Reply(r, address, port), address, port, count, entries);
    DecodeOfEntries(entries, r.fields, LIST_END);
    DecodedCount(entries, count);
  }

  lemma CStringIsZeroFree(p: Text, offset: nat)
    requires offset <= |p|
    ensures 0 !in CString(p, offset).0 && |CString(p, offset).0| <= |p|
  {
  }

  lemma RestOfParsed(p: Text) returns (offset: nat, into: Request)
    requires Parse(p, FRESH).0
    ensures offset + 8 <= |p| < 0x1_0000 && into.fields == [] && Parse(p, FRESH) == ParseRest(p, offset, into)
  {
    var (game, afterGame) := CString(p, CString(p, 9).1);
    offset, into := afterGame, FRESH.(gameName := game);
  }

  lemma FieldTextOf(p: Text) returns (fieldText: Text)
    requires Parse(p, FRESH).0
    ensures 0 !in fieldText && |fieldText| < 0x1_0000 && Parse(p, FRESH).1.fields == Pieces(fieldText, BACKSLASH)
  {
    var offset, into := RestOfParsed(p);
    var afterFilter := CString(p, offset + 8).1;
    fieldText := CString(p, afterFilter).0;
    CStringIsZeroFree(p, afterFilter);
    Units(Pieces(fieldText, BACKSLASH));
  }

  /** The fields of a request that parses into a fresh record are zero-free and fewer than 65536. */
  lemma ParsedFields(p: Text)
    requires Parse(p, FRESH).0
    ensures var fields := Parse(p, FRESH).1.fields;
            |fields| < 0x1_0000 && forall f :: f in fields ==> 0 !in f
  {
    var fieldText := FieldTextOf(p);
    PiecesArePieces(fieldText, BACKSLASH, 0, 0);
    PiecesAreFew(fieldText, BACKSLASH, 0);
  }

  /** Every request that parses is answered with its own fields. */
  lemma ReplyToParsedRequest(p: Text, address: Address, port: u16)
    requires Parse(p, FRESH).0
    ensures var r := Parse(p, FRESH).1; DecodeReply(Reply(r, address, port), address, port) == Some(r.fields)
  {
    ParsedFields(p);
    ReplyDecodes(Parse(p, FRESH).1, address, port);
  }

  // ---------- The record that parsing fills ----------

  method ReadCString(packet: Text, start: nat) returns (text: Text, offset: nat)
    requires start <= |packet|
    ensures (text, offset) == CString(packet, start)
  {
    offset := start;
    while offset < |packet| && packet[offset] != 0
      invariant start <= offset <= |packet|
      invariant forall k :: start <= k < offset ==> packet[k] != 0
    {
      offset := offset + 1;
    }
    if offset == |packet| {
      text := [];
    } else {
      offset := offset + 1;
      text := packet[start..offset - 1];
    }
  }

  class BrowserRequest {
    var gameName: Text
    var challenge: Text
    var filter: Text
    var fields: seq<Text>

    function Contents(): Request
      reads this
    {
      Request(gameName, challenge, filter, fields)
    }

    constructor ()
      ensures Contents() == FRESH
    {
      gameName, challenge, filter, fields := [], [], [], [];
    }

    method ReadFields(fieldText: Text)
      modifies this`fields
      ensures fields == old(fields) + Pieces(fieldText, BACKSLASH)
    {
      var fieldStart := 0;
      while fieldStart < |fieldText|
        invariant fieldStart <= |fieldText|
        invariant fields + PiecesFrom(fieldText, BACKSLASH, fieldStart) == old(fields) + Pieces(fieldText, BACKSLASH)
      {
        NextPiece(fieldText, BACKSLASH, fieldStart, fields);
        var separator := IndexOf(fieldText, BACKSLASH, fieldStart);
        var field := if separator.None? then fieldText[fieldStart..] else fieldText[fieldStart..separator.value];
        fields := AddPiece(fields, field);
        if separator.None? {
          return;
        }
        fieldStart := separator.value + 1;
      }
      Units(fields);
    }

    method ParseBrowserRequest(packet: Text) returns (ok: bool)
      modifies this
      ensures (ok, Contents()) == Parse(packet, old(Contents()))
    {
      if |packet| < 15 || packet[2] != 0 {
        return false;
      }
      var declaredSize := 0x100 * (packet[0] as int) + packet[1];
      if declaredSize != |packet| {
        return false;
      }
      var offset := 9;
      var queryGame;
      queryGame, offset := ReadCString(packet, offset);
      gameName, offset := ReadCString(packet, offset);
      if queryGame == [] || gameName == [] || offset + 8 > |packet| {
        return false;
      }
      challenge := packet[offset..offset + 8];
      filter, offset := ReadCString(packet, offset + 8);
      var fieldText;
      fieldText, offset := ReadCString(packet, offset);
      if offset + 4 > |packet| {
        return false;
      }
      ReadFields(fieldText);
      ok := true;
    }

    method EmptyServerList(address: Address, port: u16) returns (response: Text)
      ensures response == Reply(Contents(), address, port)
    {
      response := U16Be(port);
      response := address + response;
      response := response + U16Be(|fields| % 0x1_0000);
      ghost var head := response;
      for i := 0 to |fields|
        invariant response + FieldEntries(fields[i..]) == head + FieldEntries(fields)
      {
        TailOfSuffix(fields, i);
        Assoc(response, fields[i] + [0, 0], FieldEntries(fields[i + 1..]));
        response := response + (fields[i] + [0, 0]);
      }
      response := response + LIST_END;
    }
  }
}
