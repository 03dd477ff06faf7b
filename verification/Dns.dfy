/**
 * The DNS responder: one A record for whatever name the first question asks for. Messages, names and pointers are
 * those of sections 4.1 and 4.1.4 of RFC 1035.
 */
module Dns {
  import opened Bytes

  // ---------- The label walk ----------

  /** Where walking the labels from `pos` ends: at a zero byte or at the end, unless a label is too long. */
  function WalkEnd(p: Text, pos: nat): Option<nat>
    decreases |p| - pos
  {
    if pos >= |p| || p[pos] == 0 then Some(pos)
    else if p[pos] > 63 || pos + p[pos] + 1 >= |p| then None
    else WalkEnd(p, pos + p[pos] + 1)
  }

  /** The end of the first question: its name, its type and its class. */
  function QuestionEnd(p: Text): (r: Option<nat>)
    ensures r.Some? ==> 17 <= r.value <= |p|
  {
    if |p| < 12 then None
    else
      match WalkEnd(p, 12)
      case None => None
      case Some(end) => if end + 5 > |p| || end < 12 then None else Some(end + 5)
  }

  // ---------- The response ----------

  // A response to a standard query, with one question and one answer
  const FLAGS_AND_COUNTS: Text := [0x81, 0x80, 0, 1, 0, 1, 0, 0, 0, 0]

  /** The name at 0xc00c, type A, class IN, 60 seconds, four octets. */
  function Record(address: Address): Text {
    [0xc0, 0x0c, 0, 1, 0, 1, 0, 0, 0, 0x3c, 0, 4] + address
  }

  function Response(request: Text, address: Address): Text {
    match QuestionEnd(request)
    case None => []
    case Some(end) => request[..2] + FLAGS_AND_COUNTS + request[12..end] + Record(address)
  }

  // ---------- The grammar of questions ----------

  predicate IsLabel(l: Text) {
    1 <= |l| <= 63
  }

  /** A name as length-prefixed labels with a zero byte at the end. */
  function Name(labels: seq<Text>): Text
    requires forall l :: l in labels ==> IsLabel(l)
  {
    if labels == [] then [0]
    else
      var first := labels[0];
      assert first in labels && IsLabel(first);
      var length: byte := |first|;
      [length] + first + Name(labels[1..])
  }

  /** A message of a 12-byte header, a question for these labels, and anything after it. */
  predicate IsQuestion(p: Text, header: Text, labels: seq<Text>, typeAndClass: Text, trailing: Text) {
    && |header| == 12 && |typeAndClass| == 4 && (forall l :: l in labels ==> IsLabel(l))
    && p == header + (Name(labels) + typeAndClass + trailing)
  }

  lemma NameOfFirst(labels: seq<Text>, rest: Text)
    requires (forall l :: l in labels ==> IsLabel(l)) && labels != []
    ensures labels[0] in labels && forall l :: l in labels[1..] ==> l in labels
    ensures Name(labels) + rest == [|labels[0]|] + labels[0] + (Name(labels[1..]) + rest)
  {
    Assoc([|labels[0]|] + labels[0], Name(labels[1..]), rest);
  }

  lemma {:induction false} WalkOfName(p: Text, pos: nat, labels: seq<Text>, rest: Text)
    requires (forall l :: l in labels ==> IsLabel(l)) && rest != []
    requires pos <= |p| && p[pos..] == Name(labels) + rest
    ensures WalkEnd(p, pos) == Some(pos + |Name(labels)| - 1)
    decreases |labels|
  {
    if labels == [] {
      assert p[pos] == p[pos..][0] == 0;
    } else {
      var first, others := labels[0], labels[1..];
      NameOfFirst(labels, rest);
      CutAt(p, pos, [|first|] + first, Name(others) + rest);
      assert p[pos] == p[pos..pos + |first| + 1][0] == |first|;
      WalkOfName(p, pos + |first| + 1, others, rest);
    }
  }

  lemma {:induction false} NameOfWalk(p: Text, pos: nat) returns (labels: seq<Text>)
    requires WalkEnd(p, pos).Some? && pos < |p|
    ensures (forall l :: l in labels ==> IsLabel(l))
    ensures pos <= WalkEnd(p, pos).value < |p| && p[pos..WalkEnd(p, pos).value + 1] == Name(labels)
    decreases |p| - pos
  {
    var end := WalkEnd(p, pos).value;
    if p[pos] == 0 {
      labels := [];
    } else {
      var next := pos + p[pos] + 1;
      var others := NameOfWalk(p, next);
      var first := p[pos + 1..next];
      labels := [first] + others;
      assert WalkEnd(p, next) == Some(end) && next <= end && |first| == p[pos];
      assert labels[1..] == others && labels[0] == first;
      assert p[pos..end + 1] == p[pos..pos + 1] + first + p[next..end + 1];
      assert p[pos..pos + 1] == [p[pos]];
    }
  }

  lemma EndOfQuestion(p: Text, header: Text, labels: seq<Text>, typeAndClass: Text, trailing: Text)
    requires IsQuestion(p, header, labels, typeAndClass, trailing)
    ensures QuestionEnd(p) == Some(12 + |Name(labels)| + 4)
    ensures p[12..12 + |Name(labels)| + 4] == Name(labels) + typeAndClass
  {
    assert p[12..] == Name(labels) + (typeAndClass + trailing);
    WalkOfName(p, 12, labels, typeAndClass + trailing);
  }

  lemma QuestionOfEnd(p: Text, end: nat) returns (labels: seq<Text>)
    requires QuestionEnd(p) == Some(end)
    ensures IsQuestion(p, p[..12], labels, p[end - 4..end], p[end..])
  {
    labels := NameOfWalk(p, 12);
    FourParts(p, 12, end - 4, end);
  }

  /** A request is answered exactly when it is a header, a question whose labels are of 1 to 63 bytes, and anything. */
  lemma AnsweredExactly(p: Text, address: Address)
    ensures Response(p, address) != [] <==>
            exists header, labels, typeAndClass, trailing :: IsQuestion(p, header, labels, typeAndClass, trailing)
  {
    if QuestionEnd(p).Some? {
      var end := QuestionEnd(p).value;
      var labels := QuestionOfEnd(p, end);
    } else if header, labels, typeAndClass, trailing :| IsQuestion(p, header, labels, typeAndClass, trailing) {
      EndOfQuestion(p, header, labels, typeAndClass, trailing);
    }
  }

  /** The response to a question: its header with flags and counts rewritten, the question itself, and the record. */
  lemma ResponseToQuestion(p: Text, header: Text, labels: seq<Text>, typeAndClass: Text, trailing: Text,
                           address: Address)
    requires IsQuestion(p, header, labels, typeAndClass, trailing)
    ensures IsQuestion(Response(p, address), header[..2] + FLAGS_AND_COUNTS, labels, typeAndClass, Record(address))
  {
    EndOfQuestion(p, header, labels, typeAndClass, trailing);
    assert p[..2] == header[..2];
    var end := 12 + |Name(labels)| + 4;
    assert Response(p, address) ==
           header[..2] + FLAGS_AND_COUNTS + (Name(labels) + typeAndClass + Record(address));
  }

  /** What follows the question in a request never matters. */
  lemma TrailingNeverMatters(p: Text, q: Text, header: Text, labels: seq<Text>, typeAndClass: Text,
                             trailing: Text, other: Text, address: Address)
    requires IsQuestion(p, header, labels, typeAndClass, trailing) && IsQuestion(q, header, labels, typeAndClass, other)
    ensures Response(p, address) == Response(q, address)
  {
    ResponseToQuestion(p, header, labels, typeAndClass, trailing, address);
    ResponseToQuestion(q, header, labels, typeAndClass, other, address);
  }

  /** Answering a response yields the same response. */
  lemma AnsweringIsIdempotent(p: Text, address: Address)
    ensures Response(Response(p, address), address) == Response(p, address)
  {
    if QuestionEnd(p).Some? {
      var end := QuestionEnd(p).value;
      var labels := QuestionOfEnd(p, end);
      var r := Response(p, address);
      var header := p[..12][..2] + FLAGS_AND_COUNTS;
      ResponseToQuestion(p, p[..12], labels, p[end - 4..end], p[end..], address);
      ResponseToQuestion(r, header, labels, p[end - 4..end], Record(address), address);
      assert header[..2] == p[..12][..2];
    }
  }

  // ---------- Reading the answer ----------

  datatype Answer = Answer(nameAt: nat, ttl: int, address: Text)

  /** An independent reader of an A record of class IN whose name is a pointer. */
  function ReadRecord(rr: Text): Option<Answer> {
    if |rr| == 16 && rr[0] >= 0xc0 && ReadU16Be(rr, 2) == 1 && ReadU16Be(rr, 4) == 1 && ReadU16Be(rr, 10) == 4
    then
      var ttl := ReadU16Be(rr, 6) as int * 0x1_0000 + ReadU16Be(rr, 8);
      Some(Answer((rr[0] as int - 0xc0) * 0x100 + rr[1], ttl, rr[12..]))
    else None
  }

  /** An independent reader of a response without error and with one question and one answer. */
  function ReadAnswer(r: Text): Option<Answer> {
    match QuestionEnd(r)
    case None => None
    case Some(end) =>
      if r[2] >= 0x80 && r[3] % 0x10 == 0 && ReadU16Be(r, 4) == 1 && ReadU16Be(r, 6) == 1 && ReadU16Be(r, 8) == 0
         && ReadU16Be(r, 10) == 0
      then ReadRecord(r[end..]) else None
  }

  lemma RecordIsRead(address: Address)
    ensures ReadRecord(Record(address)) == Some(Answer(12, 60, address))
  {
    assert Record(address)[12..] == address;
  }

  lemma PartsOfResponse(p: Text, end: nat, address: Address)
    requires QuestionEnd(p) == Some(end)
    ensures var r := Response(p, address);
            && |r| == end + 16 && r[..2] == p[..2] && r[2..12] == FLAGS_AND_COUNTS && r[12..end] == p[12..end]
            && r[end..] == Record(address)
  {
    var r := Response(p, address);
    assert r[..2] == p[..2];
    assert r[2..12] == FLAGS_AND_COUNTS;
    assert r[12..end] == p[12..end];
    assert r[end..] == Record(address);
  }

  lemma ResponseHasSameQuestion(p: Text, end: nat, address: Address)
    requires QuestionEnd(p) == Some(end)
    ensures QuestionEnd(Response(p, address)) == Some(end)
  {
    var labels := QuestionOfEnd(p, end);
    ResponseToQuestion(p, p[..12], labels, p[end - 4..end], p[end..], address);
    EndOfQuestion(Response(p, address), p[..12][..2] + FLAGS_AND_COUNTS, labels, p[end - 4..end], Record(address));
    EndOfQuestion(p, p[..12], labels, p[end - 4..end], p[end..]);
  }

  /** A response repeats the request's id and question, and its record names that question and gives the address. */
  lemma ResponseIsRead(p: Text, end: nat, address: Address)
    requires QuestionEnd(p) == Some(end)
    ensures var r := Response(p, address);
            && |r| == end + 16 && r[..2] == p[..2] && QuestionEnd(r) == Some(end) && r[12..end] == p[12..end]
            && ReadAnswer(r) == Some(Answer(12, 60, address))
  {
    var r := Response(p, address);
    PartsOfResponse(p, end, address);
    ResponseHasSameQuestion(p, end, address);
    assert forall k :: 2 <= k < 12 ==> r[k] == r[2..12][k - 2];
    RecordIsRead(address);
  }

  // ---------- The responder ----------

  /** The label walk, and the type and class after it. */
  method EndOfFirstQuestion(request: Text) returns (end: Option<nat>)
    requires |request| >= 12
    ensures end == QuestionEnd(request)
  {
    var questionEnd := 12;
    while questionEnd < |request| && request[questionEnd] != 0
      invariant 12 <= questionEnd <= |request|
      invariant WalkEnd(request, questionEnd) == WalkEnd(request, 12)
    {
      var labelLength := request[questionEnd];
      if labelLength > 63 || questionEnd + labelLength + 1 >= |request| {
        return None;
      }
      questionEnd := questionEnd + labelLength + 1;
    }
    end := if questionEnd + 5 > |request| then None else Some(questionEnd + 5);
  }

  method DnsAResponse(request: Text, address: Address) returns (result: Text)
    ensures result == Response(request, address)
  {
    if |request| < 12 {
      return [];
    }
    var end := EndOfFirstQuestion(request);
    if end.None? {
      return [];
    }
    var response := new byte[end.value](i requires 0 <= i < end.value => request[i]);
    response[2] := 0x81;
    response[3] := 0x80;
    response[4] := 0x00;
    response[5] := 0x01;
    response[6] := 0x00;
    response[7] := 0x01;
    response[8], response[9], response[10], response[11] := 0, 0, 0, 0;
    Overwritten(request[..end.value], response[..]);
    assert request[..end.value][..2] == request[..2] && request[..end.value][12..] == request[12..end.value];
    result := response[..] + Record(address);
  }

  lemma Overwritten(before: Text, after: Text)
    requires |before| == |after| >= 12 && after[..2] == before[..2] && after[12..] == before[12..]
    requires after[2] == 0x81 && after[3] == 0x80 && after[4] == 0 && after[5] == 1 && after[6] == 0 && after[7] == 1
    requires after[8] == 0 && after[9] == 0 && after[10] == 0 && after[11] == 0
    ensures after == before[..2] + FLAGS_AND_COUNTS + before[12..]
  {
    assert after[2..12] == FLAGS_AND_COUNTS;
    assert after == after[..2] + after[2..12] + after[12..];
  }
}
