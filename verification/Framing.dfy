/** The `\final\` framing shared by the profile, player-search and gamestats connections. */
module Framing {
  import opened Bytes

  // "\final\"
  const FINAL: Text := [0x5c, 0x66, 0x69, 0x6e, 0x61, 0x6c, 0x5c]

  datatype Framed = Framed(messages: seq<Text>, residue: Text)

  // ---------- What framing means ----------

  predicate HasNoFinal(s: Text) {
    Find(s, FINAL, 0).None?
  }

  /** A message ends with `\final\` and contains it nowhere earlier. */
  predicate IsMessage(m: Text) {
    |m| >= 7 && Find(m, FINAL, 0) == Some(|m| - 7)
  }

  /** A decomposition of the stream `s` into complete messages and an incomplete rest. */
  predicate IsFraming(s: Text, f: Framed) {
    && Flatten(f.messages) + f.residue == s
    && HasNoFinal(f.residue)
    && forall m :: m in f.messages ==> IsMessage(m)
  }

  // ---------- Framing a whole stream at once ----------

  function Frame(s: Text): Framed
    decreases |s|
  {
    match Find(s, FINAL, 0)
    case None => Framed([], s)
    case Some(i) =>
      var rest := Frame(s[i + 7..]);
      Framed([s[..i + 7]] + rest.messages, rest.residue)
  }

  /** Where the first `\final\` stands does not depend on what follows it. */
  lemma FirstFinalOfPrefix(a: Text, b: Text, i: nat)
    requires i + 7 <= |a|
    ensures Find(a, FINAL, 0) == Some(i) <==> Find(a + b, FINAL, 0) == Some(i)
  {
    forall j: nat | j <= i
      ensures OccursAt(a, FINAL, j) == OccursAt(a + b, FINAL, j)
    {
      assert (a + b)[j..j + 7] == a[j..j + 7];
    }
  }

  lemma FirstMessage(s: Text, i: nat)
    requires Find(s, FINAL, 0) == Some(i)
    ensures IsMessage(s[..i + 7])
  {
    SplitAt(s, i + 7);
    FirstFinalOfPrefix(s[..i + 7], s[i + 7..], i);
  }

  lemma PrependMessage(m: Text, s: Text, f: Framed)
    requires IsMessage(m) && IsFraming(s, f)
    ensures IsFraming(m + s, Framed([m] + f.messages, f.residue))
  {
    TailOfCons(m, f.messages);
    Assoc(m, Flatten(f.messages), f.residue);
  }

  lemma {:induction false} FrameIsFraming(s: Text)
    ensures IsFraming(s, Frame(s))
    decreases |s|
  {
    match Find(s, FINAL, 0)
    case None =>
      Units(s);
    case Some(i) =>
      FirstMessage(s, i);
      FrameIsFraming(s[i + 7..]);
      PrependMessage(s[..i + 7], s[i + 7..], Frame(s[i + 7..]));
      SplitAt(s, i + 7);
  }

  /** The first message of a decomposition is the one that `Frame` takes off first. */
  lemma FirstOfFraming(s: Text, f: Framed)
    requires IsFraming(s, f) && f.messages != []
    ensures var m, rest := f.messages[0], Framed(f.messages[1..], f.residue);
            && |m| >= 7 && |m| <= |s| && Find(s, FINAL, 0) == Some(|m| - 7)
            && s[..|m|] == m && IsFraming(s[|m|..], rest)
  {
    var m, rest := f.messages[0], Flatten(f.messages[1..]) + f.residue;
    assert m in f.messages && IsMessage(m);
    Assoc(m, Flatten(f.messages[1..]), f.residue);
    assert s == m + rest;
    FirstFinalOfPrefix(m, rest, |m| - 7);
    assert s[..|m|] == m && s[|m|..] == rest;
  }

  /** A stream has only one decomposition, so `Frame` finds the one there is. */
  lemma {:induction false} FramingIsUnique(s: Text, f: Framed)
    requires IsFraming(s, f)
    ensures f == Frame(s)
    decreases |f.messages|
  {
    if f.messages == [] {
      Units(s);
      Units(f.residue);
    } else {
      var m := f.messages[0];
      FirstOfFraming(s, f);
      FramingIsUnique(s[|m|..], Framed(f.messages[1..], f.residue));
      SplitAt(f.messages, 1);
    }
  }

  lemma FramingsCompose(a: Text, b: Text, f: Framed, g: Framed)
    requires IsFraming(a, f) && IsFraming(f.residue + b, g)
    ensures IsFraming(a + b, Framed(f.messages + g.messages, g.residue))
  {
    FlattenAppend(f.messages, g.messages);
    Assoc(Flatten(f.messages), Flatten(g.messages), g.residue);
    Assoc(Flatten(f.messages), f.residue, b);
  }

  /** Framing may stop anywhere and resume from the residue. */
  lemma FrameResumes(a: Text, b: Text)
    ensures var f := Frame(a); var g := Frame(f.residue + b);
            Frame(a + b) == Framed(f.messages + g.messages, g.residue)
  {
    var f := Frame(a);
    var g := Frame(f.residue + b);
    FrameIsFraming(a);
    FrameIsFraming(f.residue + b);
    FramingsCompose(a, b, f, g);
    FramingIsUnique(a + b, Framed(f.messages + g.messages, g.residue));
  }

  // ---------- Framing chunk by chunk ----------

  /** What a connection has produced after receiving `chunks` with `buffer` already held. */
  function Feed(buffer: Text, chunks: seq<Text>): Framed
    decreases |chunks|
  {
    if chunks == [] then Framed([], buffer)
    else
      var f := Frame(buffer + chunks[0]);
      var rest := Feed(f.residue, chunks[1..]);
      Framed(f.messages + rest.messages, rest.residue)
  }

  /** However the stream is cut, the messages and the residue are those of the whole stream. */
  lemma {:induction false} ChunkIndependence(buffer: Text, chunks: seq<Text>)
    requires HasNoFinal(buffer)
    ensures Feed(buffer, chunks) == Frame(buffer + Flatten(chunks))
    decreases |chunks|
  {
    if chunks == [] {
      Units(buffer);
    } else {
      var f := Frame(buffer + chunks[0]);
      FrameIsFraming(buffer + chunks[0]);
      ChunkIndependence(f.residue, chunks[1..]);
      FrameResumes(buffer + chunks[0], Flatten(chunks[1..]));
      Assoc(buffer, chunks[0], Flatten(chunks[1..]));
    }
  }

  /** The framing `f`, with the messages taken off before it. */
  function WithEarlier(messages: seq<Text>, f: Framed): Framed {
    Framed(messages + f.messages, f.residue)
  }

  /** The request buffer of one connection. */
  class RequestBuffer {
    var buffer: Text

    constructor ()
      ensures buffer == []
    {
      buffer := [];
    }

    /** Appends one received chunk and takes off every complete message. */
    method Receive(chunk: Text) returns (messages: seq<Text>)
      modifies this
      ensures Framed(messages, buffer) == Frame(old(buffer) + chunk)
      ensures IsFraming(old(buffer) + chunk, Framed(messages, buffer))
    {
      buffer := buffer + chunk;
      messages := [];
      Units(Frame(buffer).messages);
      while true
        invariant Frame(old(buffer) + chunk) == WithEarlier(messages, Frame(buffer))
        decreases |buffer|
      {
        var end := Find(buffer, FINAL, 0);
        if end.None? {
          break;
        }
        var size := end.value + 7;
        Assoc(messages, [buffer[..size]], Frame(buffer[size..]).messages);
        messages := messages + [buffer[..size]];
        buffer := buffer[size..];
      }
      Units(messages);
      FrameIsFraming(old(buffer) + chunk);
    }

    /** The receive loop of a connection whose peer sends `chunks` and then closes. */
    method ReceiveAll(chunks: seq<Text>) returns (messages: seq<Text>)
      requires HasNoFinal(buffer)
      modifies this
      ensures Framed(messages, buffer) == Frame(old(buffer) + Flatten(chunks))
    {
      messages := [];
      Units(Feed(buffer, chunks).messages);
      for i := 0 to |chunks|
        invariant Feed(old(buffer), chunks) == WithEarlier(messages, Feed(buffer, chunks[i..]))
      {
        TailOfSuffix(chunks, i);
        var more := Receive(chunks[i]);
        Assoc(messages, more, Feed(buffer, chunks[i + 1..]).messages);
        messages := messages + more;
      }
      Units(messages);
      ChunkIndependence(old(buffer), chunks);
    }
  }
}
