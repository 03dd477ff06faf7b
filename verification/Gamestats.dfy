/** The gamestats connection: XOR-encrypted messages on a `\final\`-framed stream. */
module Gamestats {
  import opened Bytes
  import opened Framing
  import opened Fields

  // "GameSpy3D"
  const KEY: Text := [0x47, 0x61, 0x6d, 0x65, 0x53, 0x70, 0x79, 0x33, 0x44]

  // "\ka\\final\"
  const KEEPALIVE: Text := [0x5c, 0x6b, 0x61, 0x5c] + FINAL

  // "\lc\1\challenge\" and "\id\1", around the ten random letters
  const CHALLENGE_HEAD: Text :=
    [0x5c, 0x6c, 0x63, 0x5c, 0x31, 0x5c, 0x63, 0x68, 0x61, 0x6c, 0x6c, 0x65, 0x6e, 0x67, 0x65, 0x5c]
  const CHALLENGE_TAIL: Text := [0x5c, 0x69, 0x64, 0x5c, 0x31]

  /** How many bytes are encrypted: those before the first `\final\`, or all of them. */
  function CryptSize(m: Text): (n: nat)
    ensures n <= |m|
  {
    match Find(m, FINAL, 0)
    case None => |m|
    case Some(i) => i
  }

  /** Byte `b` at position `i`, encrypted if the position is among the first `n`. */
  function XorAt(b: byte, i: nat, n: nat): byte {
    if i < n then Xor(b, KEY[i % |KEY|]) else b
  }

  function XorPrefix(m: Text, n: nat): (c: Text)
    ensures |c| == |m|
  {
    seq(|m|, i requires 0 <= i < |m| => XorAt(m[i], i, n))
  }

  function Cipher(m: Text): (c: Text)
    ensures |c| == |m|
  {
    XorPrefix(m, CryptSize(m))
  }

  function CipherAll(messages: seq<Text>): (r: seq<Text>)
    ensures |r| == |messages|
    ensures forall i :: 0 <= i < |r| ==> r[i] == Cipher(messages[i])
  {
    if messages == [] then [] else [Cipher(messages[0])] + CipherAll(messages[1..])
  }

  /** Encrypts or decrypts one message; the two are the same operation. */
  method GamespyMessage(message: Text) returns (result: Text)
    ensures result == Cipher(message)
  {
    var output := new byte[|message|](i requires 0 <= i < |message| => message[i]);
    var finalStart := Find(message, FINAL, 0);
    var encryptedSize := if finalStart.None? then output.Length else finalStart.value;
    for index := 0 to encryptedSize
      invariant forall k :: 0 <= k < index ==> output[k] == XorAt(message[k], k, encryptedSize)
      invariant forall k :: index <= k < output.Length ==> output[k] == message[k]
    {
      output[index] := Xor(output[index], KEY[index % |KEY|]);
    }
    result := output[..];
  }

  /** Byte `i` is encrypted with its key byte unless a `\final\` starts at it or before it. */
  lemma CipherAt(m: Text, i: nat)
    requires i < |m|
    ensures Cipher(m)[i] ==
            if exists j: nat :: j <= i && OccursAt(m, FINAL, j) then m[i] else Xor(m[i], KEY[i % |KEY|])
  {
    match Find(m, FINAL, 0)
    case None =>
    case Some(start) => assert OccursAt(m, FINAL, start);
  }

  // ---------- When decryption undoes encryption ----------

  lemma KeyBytesAreNotZero(i: nat)
    ensures KEY[i % |KEY|] != 0
  {
    assert i % 9 in {0, 1, 2, 3, 4, 5, 6, 7, 8};
  }

  lemma XorAtTwice(b: byte, i: nat, n: nat)
    ensures XorAt(XorAt(b, i, n), i, n) == b
  {
    XorTwice(b, KEY[i % |KEY|]);
  }

  /** Seven bytes of `m` at `j` that read `\final\` once the first `n` bytes of `m` are encrypted. */
  predicate Decoy(m: Text, n: nat, j: nat) {
    j + 7 <= |m| && forall k :: 0 <= k < 7 ==> m[j + k] == XorAt(FINAL[k], j + k, n)
  }

  /** Nothing before the first `\final\` of `m`, or in all of `m` if it has none, is a decoy. */
  predicate HasNoDecoy(m: Text) {
    forall j: nat :: j < CryptSize(m) ==> !Decoy(m, CryptSize(m), j)
  }

  lemma DecoyEncryptsToFinal(m: Text, n: nat, j: nat)
    ensures Decoy(m, n, j) <==> OccursAt(XorPrefix(m, n), FINAL, j)
  {
    var c := XorPrefix(m, n);
    if j + 7 <= |m| {
      forall k | 0 <= k < 7 ensures c[j + k] == FINAL[k] <==> m[j + k] == XorAt(FINAL[k], j + k, n) {
        XorAtTwice(FINAL[k], j + k, n);
        XorAtTwice(m[j + k], j + k, n);
      }
      assert c[j..j + 7] == FINAL <==> forall k :: 0 <= k < 7 ==> c[j + k] == FINAL[k];
    }
  }

  lemma FinalStaysInPlace(m: Text)
    requires Find(m, FINAL, 0).Some?
    ensures OccursAt(Cipher(m), FINAL, CryptSize(m))
  {
    var n := CryptSize(m);
    assert Cipher(m)[n..n + 7] == m[n..n + 7];
  }

  /** Encryption leaves the first `\final\` where it was exactly when the message has no decoy. */
  lemma CryptSizeKept(m: Text)
    ensures CryptSize(Cipher(m)) == CryptSize(m) <==> HasNoDecoy(m)
  {
    var c, n := Cipher(m), CryptSize(m);
    forall j: nat | j < n ensures Decoy(m, n, j) <==> OccursAt(c, FINAL, j) {
      DecoyEncryptsToFinal(m, n, j);
    }
    if Find(m, FINAL, 0).Some? {
      FinalStaysInPlace(m);
    }
  }

  /** An encrypted message still has its first `\final\` at its end exactly when the message has no decoy. */
  lemma EncryptionFrames(m: Text)
    requires IsMessage(m)
    ensures IsMessage(Cipher(m)) <==> HasNoDecoy(m)
  {
    FinalStaysInPlace(m);
    CryptSizeKept(m);
  }

  lemma CipherAtSameSize(m: Text)
    ensures Cipher(Cipher(m)) == m <==> CryptSize(Cipher(m)) == CryptSize(m)
  {
    var c := Cipher(m);
    var d := Cipher(c);
    var n, k := CryptSize(m), CryptSize(c);
    if n == k {
      forall i | 0 <= i < |m| ensures d[i] == m[i] {
        XorTwice(m[i], KEY[i % |KEY|]);
      }
      assert d == m;
    } else {
      var i := if n < k then n else k;
      KeyBytesAreNotZero(i);
      XorTwice(m[i], KEY[i % |KEY|]);
      assert d[i] == Xor(m[i], KEY[i % |KEY|]);
      assert d[i] != m[i];
    }
  }

  /** Encrypting twice gives a text back exactly when nothing before its first `\final\` is a decoy. */
  lemma CipherTwice(m: Text)
    ensures Cipher(Cipher(m)) == m <==> HasNoDecoy(m)
  {
    CipherAtSameSize(m);
    CryptSizeKept(m);
  }

  /** Lists that concatenate to the same text and whose members have the same lengths are equal. */
  lemma {:induction false} FlattenInjective(a: seq<Text>, b: seq<Text>)
    requires |a| == |b| && forall i :: 0 <= i < |a| ==> |a[i]| == |b[i]|
    requires Flatten(a) == Flatten(b)
    ensures a == b
  {
    if a == [] {
    } else {
      var n := |a[0]|;
      assert Flatten(a)[..n] == a[0] && Flatten(b)[..n] == b[0];
      assert Flatten(a)[n..] == Flatten(a[1..]) && Flatten(b)[n..] == Flatten(b[1..]);
      FlattenInjective(a[1..], b[1..]);
      SplitAt(a, 1);
      SplitAt(b, 1);
    }
  }

  /** The messages a stream of encrypted messages yields when it is cut anywhere, framed and decrypted. */
  function Decrypted(chunks: seq<Text>): Framed {
    var f := Feed([], chunks);
    Framed(CipherAll(f.messages), f.residue)
  }

  lemma FramesAsSent(messages: seq<Text>)
    requires forall m :: m in messages ==> IsMessage(Cipher(m))
    ensures Frame(Flatten(CipherAll(messages))) == Framed(CipherAll(messages), [])
  {
    var sent := CipherAll(messages);
    forall c | c in sent ensures IsMessage(c) {
      var i :| 0 <= i < |sent| && sent[i] == c;
      assert messages[i] in messages;
    }
    Units(Flatten(sent));
    FramingIsUnique(Flatten(sent), Framed(sent, []));
  }

  lemma DecryptsAll(messages: seq<Text>)
    requires forall m :: m in messages ==> HasNoDecoy(m)
    ensures CipherAll(CipherAll(messages)) == messages
  {
    forall i | 0 <= i < |messages| ensures Cipher(Cipher(messages[i])) == messages[i] {
      assert messages[i] in messages;
      CipherTwice(messages[i]);
    }
  }

  /** Messages without decoys are received unchanged. */
  lemma ReceivedIfFramable(messages: seq<Text>, chunks: seq<Text>)
    requires forall m :: m in messages ==> IsMessage(m) && HasNoDecoy(m)
    requires Flatten(chunks) == Flatten(CipherAll(messages))
    ensures Decrypted(chunks) == Framed(messages, [])
  {
    forall m | m in messages ensures IsMessage(Cipher(m)) {
      EncryptionFrames(m);
    }
    ChunkIndependence([], chunks);
    Units(Flatten(chunks));
    FramesAsSent(messages);
    DecryptsAll(messages);
  }

  lemma FramableIfReceived(messages: seq<Text>, chunks: seq<Text>)
    requires Flatten(chunks) == Flatten(CipherAll(messages))
    requires Decrypted(chunks) == Framed(messages, [])
    ensures forall m :: m in messages ==> IsMessage(Cipher(m)) && Cipher(Cipher(m)) == m
  {
    var sent := CipherAll(messages);
    var f := Feed([], chunks);
    ChunkIndependence([], chunks);
    Units(Flatten(sent));
    FrameIsFraming(Flatten(sent));
    forall i | 0 <= i < |messages| ensures |f.messages[i]| == |sent[i]| {
      assert |CipherAll(f.messages)[i]| == |messages[i]|;
    }
    Units(Flatten(f.messages));
    FlattenInjective(f.messages, sent);
    forall m | m in messages ensures IsMessage(Cipher(m)) && Cipher(Cipher(m)) == m {
      var i :| 0 <= i < |messages| && messages[i] == m;
      assert f.messages[i] in f.messages;
      assert Cipher(sent[i]) == CipherAll(f.messages)[i] == messages[i];
    }
  }

  /**
   * Encrypt messages, send them back to back, cut the stream anywhere, frame and decrypt: the peer gets the
   * very same messages exactly when none of them has a decoy.
   */
  lemma EndToEnd(messages: seq<Text>, chunks: seq<Text>)
    requires forall m :: m in messages ==> IsMessage(m)
    requires Flatten(chunks) == Flatten(CipherAll(messages))
    ensures Decrypted(chunks) == Framed(messages, []) <==> forall m :: m in messages ==> HasNoDecoy(m)
  {
    if forall m :: m in messages ==> HasNoDecoy(m) {
      ReceivedIfFramable(messages, chunks);
    }
    if Decrypted(chunks) == Framed(messages, []) {
      FramableIfReceived(messages, chunks);
      forall m | m in messages ensures HasNoDecoy(m) {
        CipherTwice(m);
      }
    }
  }

  // ---------- The server's own messages ----------

  lemma FirstMarker(m: Text, marker: Text, p: nat)
    requires |marker| >= 2 && marker[0] == BACKSLASH && OccursAt(m, marker, p)
    requires forall j :: 0 <= j < p && m[j] == BACKSLASH ==> m[j + 1] != marker[1]
    ensures Find(m, marker, 0) == Some(p)
  {
    forall j: nat | j < p ensures !OccursAt(m, marker, j) {
      if j + |marker| <= |m| {
        assert m[j] == m[j..j + |marker|][0] && m[j + 1] == m[j..j + |marker|][1];
      }
    }
  }

  lemma FirstFinal(m: Text, p: nat)
    requires OccursAt(m, FINAL, p)
    requires forall j :: 0 <= j < p && m[j] == 0x5c ==> m[j + 1] != 0x66
    ensures Find(m, FINAL, 0) == Some(p)
  {
    FirstMarker(m, FINAL, p);
  }

  predicate AreLetters(s: Text) {
    forall i :: 0 <= i < |s| ==> 0x41 <= s[i] <= 0x5a
  }

  function ChallengeMessage(letters: Text): Text {
    CHALLENGE_HEAD + letters + CHALLENGE_TAIL + FINAL
  }

  // The byte that the key turns into a backslash, at each position of the key
  const BACKSLASHES: Text := [0x1b, 0x3d, 0x31, 0x39, 0x0f, 0x2c, 0x25, 0x6f, 0x18]

  lemma BackslashFor(i: nat, k: byte, c: byte)
    requires i < |KEY| && k == KEY[i] && c == BACKSLASHES[i] && Xor4(0x5c, k) + 16 * Xor4(0x5, k / 16) == c
    ensures TurnsToBackslash(i)
  {
    XorIs(0x5c, k, c);
  }

  predicate TurnsToBackslash(i: nat)
    requires i < |KEY|
  {
    Xor(0x5c, KEY[i]) == BACKSLASHES[i]
  }

  lemma BackslashAt012(i: nat)
    requires i < 3
    ensures TurnsToBackslash(i)
  {
    if i == 0 { BackslashFor(i, 0x47, 0x1b); }
    else if i == 1 { BackslashFor(i, 0x61, 0x3d); }
    else { BackslashFor(i, 0x6d, 0x31); }
  }

  lemma BackslashAt345(i: nat)
    requires 3 <= i < 6
    ensures TurnsToBackslash(i)
  {
    if i == 3 { BackslashFor(i, 0x65, 0x39); }
    else if i == 4 { BackslashFor(i, 0x53, 0x0f); }
    else { BackslashFor(i, 0x70, 0x2c); }
  }

  lemma BackslashAt678(i: nat)
    requires 6 <= i < |KEY|
    ensures TurnsToBackslash(i)
  {
    if i == 6 { BackslashFor(i, 0x79, 0x25); }
    else if i == 7 { BackslashFor(i, 0x33, 0x6f); }
    else { BackslashFor(i, 0x44, 0x18); }
  }

  lemma EncryptsToBackslash(b: byte, i: nat)
    ensures Xor(b, KEY[i % |KEY|]) == 0x5c ==> b == BACKSLASHES[i % |KEY|]
  {
    XorTwice(b, KEY[i % |KEY|]);
    var k := i % |KEY|;
    if k < 3 { BackslashAt012(k); } else if k < 6 { BackslashAt345(k); } else { BackslashAt678(k); }
    assert TurnsToBackslash(k);
  }

  /** No byte of `m` before `p` encrypts to a backslash. */
  predicate NeverBackslash(m: Text, p: nat)
    requires p <= |m|
  {
    forall j :: 0 <= j < p ==> m[j] != BACKSLASHES[j % |KEY|]
  }

  lemma EncryptedMessageFrames(m: Text, p: nat)
    requires |m| == p + 7 && IsMessage(m) && NeverBackslash(m, p)
    ensures IsMessage(Cipher(m)) && Cipher(Cipher(m)) == m
  {
    var c := Cipher(m);
    assert c[p..] == m[p..] == FINAL;
    assert c[p..p + 7] == FINAL;
    forall j | 0 <= j < p ensures c[j] != 0x5c {
      EncryptsToBackslash(m[j], j);
    }
    FirstFinal(c, p);
    CipherAtSameSize(m);
  }

  /** A message chosen so that its encryption starts with `w`. */
  lemma MessageEncryptingTo(w: Text)
    requires NeverBackslash(w, |w|)
    ensures var m := XorPrefix(w, |w|) + FINAL; IsMessage(m) && Cipher(m) == w + FINAL
  {
    var n := |w|;
    var m := XorPrefix(w, n) + FINAL;
    assert m[n..n + 7] == FINAL;
    forall j | 0 <= j < n ensures m[j] != 0x5c {
      EncryptsToBackslash(w[j], j);
    }
    FirstFinal(m, n);
    forall j | 0 <= j < n ensures Cipher(m)[j] == w[j] {
      XorTwice(w[j], KEY[j % |KEY|]);
    }
  }

  lemma TwoFinalsFrame()
    ensures Frame(FINAL + FINAL) == Framed([FINAL, FINAL], []) && !IsMessage(FINAL + FINAL)
  {
    assert FINAL[0..7] == FINAL && OccursAt(FINAL, FINAL, 0) && IsMessage(FINAL);
    assert (FINAL + FINAL)[0..7] == FINAL && OccursAt(FINAL + FINAL, FINAL, 0);
    var f := Framed([FINAL, FINAL], []);
    assert f.messages[1..] == [FINAL] && [FINAL][1..] == [];
    assert Flatten([FINAL]) == FINAL + [] == FINAL;
    assert Flatten(f.messages) == FINAL + FINAL;
    FramingIsUnique(FINAL + FINAL, f);
  }

  /** A message with a decoy can arrive as two: this one's encryption is `\final\` twice. */
  lemma EncryptionCanSplitAMessage()
    ensures var m := XorPrefix(FINAL, 7) + FINAL;
            IsMessage(m) && !IsMessage(Cipher(m)) && Frame(Cipher(m)) == Framed([FINAL, FINAL], [])
  {
    assert NeverBackslash(FINAL, 7);
    MessageEncryptingTo(FINAL);
    TwoFinalsFrame();
  }

  lemma KeepaliveFrames()
    ensures IsMessage(KEEPALIVE) && IsMessage(Cipher(KEEPALIVE))
    ensures Cipher(Cipher(KEEPALIVE)) == KEEPALIVE
  {
    assert KEEPALIVE[4..11] == FINAL;
    FirstFinal(KEEPALIVE, 4);
    EncryptedMessageFrames(KEEPALIVE, 4);
  }

  /** The byte after each backslash of the challenge. */
  lemma AfterBackslash(letters: Text, j: nat)
    requires |letters| == 10 && AreLetters(letters) && j < 31
    ensures var m := ChallengeMessage(letters);
            m[j] == BACKSLASH ==>
              && j in {0, 3, 5, 15, 26, 29}
              && m[j + 1] == if j == 0 then 0x6c else if j == 5 then 0x63 else if j == 15 then letters[0]
                             else if j == 26 then 0x69 else 0x31
  {
    var m := ChallengeMessage(letters);
    if j < 16 {
      assert m[j] == CHALLENGE_HEAD[j];
      assert j < 15 ==> m[j + 1] == CHALLENGE_HEAD[j + 1];
      assert j == 15 ==> m[16] == letters[0];
    } else if j < 26 {
      assert m[j] == letters[j - 16];
    } else {
      assert m[j] == CHALLENGE_TAIL[j - 26];
      assert j < 30 ==> m[j + 1] == CHALLENGE_TAIL[j - 25];
    }
  }

  lemma ChallengeFinal(letters: Text)
    requires |letters| == 10 && AreLetters(letters)
    ensures IsMessage(ChallengeMessage(letters))
  {
    var m := ChallengeMessage(letters);
    assert m[31..38] == FINAL;
    forall j | 0 <= j < 31 ensures m[j] == 0x5c ==> m[j + 1] != 0x66 {
      AfterBackslash(letters, j);
    }
    FirstFinal(m, 31);
  }

  // "\lc\", "\challenge\", "\id\"
  const LC: Text := [0x5c, 0x6c, 0x63, 0x5c]
  const CHALLENGE: Text := [0x5c, 0x63, 0x68, 0x61, 0x6c, 0x6c, 0x65, 0x6e, 0x67, 0x65, 0x5c]
  const ID: Text := [0x5c, 0x69, 0x64, 0x5c]

  /** What follows the backslashes of a challenge tells its markers apart. */
  predicate HasBackslashesOfChallenge(m: Text) {
    |m| == 38 && forall j :: 0 <= j < 31 && m[j] == BACKSLASH ==>
      m[j + 1] <= 0x5a || (j == 0 && m[1] == 0x6c) || (j == 5 && m[6] == 0x63) || (j == 26 && m[27] == 0x69)
  }

  lemma BackslashesOfChallenge(letters: Text)
    requires |letters| == 10 && AreLetters(letters)
    ensures HasBackslashesOfChallenge(ChallengeMessage(letters))
  {
    var m := ChallengeMessage(letters);
    forall j | 0 <= j < 31 && m[j] == BACKSLASH
      ensures m[j + 1] <= 0x5a || (j == 0 && m[1] == 0x6c) || (j == 5 && m[6] == 0x63) || (j == 26 && m[27] == 0x69)
    {
      AfterBackslash(letters, j);
    }
  }

  lemma MarkerAt(m: Text, p: nat, marker: Text)
    requires HasBackslashesOfChallenge(m) && p < 31 && OccursAt(m, marker, p)
    requires |marker| >= 2 && marker[0] == BACKSLASH && marker[1] in {0x6c, 0x63, 0x69}
    ensures Find(m, marker, 0) == Some(p)
  {
    assert m[p] == m[p..p + |marker|][0] && m[p + 1] == m[p..p + |marker|][1];
    FirstMarker(m, marker, p);
  }

  lemma FieldAt(m: Text, p: nat, marker: Text, value: Text)
    requires HasBackslashesOfChallenge(m) && |marker| >= 2 && marker[0] == BACKSLASH
    requires var end := p + |marker| + |value|;
             && p < 31 && end < |m| && m[p..p + |marker|] == marker && m[p + |marker|..end] == value
             && m[end] == BACKSLASH
    requires BACKSLASH !in value && marker[1] in {0x6c, 0x63, 0x69}
    ensures Field(m, marker) == Some(value)
  {
    var first := p + |marker|;
    MarkerAt(m, p, marker);
    TakeFurther(m, p, first);
    TakeFurther(m, first, first + |value|);
    SplitAt(m, first + |value|);
    FieldIsRead(m, m[..p], marker, value, m[first + |value|..]);
  }

  lemma PartsOfChallenge(letters: Text)
    requires |letters| == 10
    ensures var m := ChallengeMessage(letters);
            && |m| == 38 && m[0..4] == LC && m[4..5] == [0x31] && m[5..16] == CHALLENGE && m[16..26] == letters
            && m[26..30] == ID && m[30..31] == [0x31] && m[31] == BACKSLASH
  {
    var m := ChallengeMessage(letters);
    assert m[..16] == CHALLENGE_HEAD && m[16..26] == letters && m[26..31] == CHALLENGE_TAIL && m[31..] == FINAL;
    assert m[0..4] == m[..16][0..4] && m[4..5] == m[..16][4..5] && m[5..16] == m[..16][5..16];
    assert m[26..30] == m[26..31][0..4] && m[30..31] == m[26..31][4..5];
  }

  /** The challenge is a first-stage login challenge that gives the ten letters and request id 1. */
  lemma ChallengeIsRead(letters: Text)
    requires |letters| == 10 && AreLetters(letters)
    ensures Field(ChallengeMessage(letters), LC) == Some([0x31])
    ensures Field(ChallengeMessage(letters), CHALLENGE) == Some(letters)
    ensures Field(ChallengeMessage(letters), ID) == Some([0x31])
  {
    PartsOfChallenge(letters);
    BackslashesOfChallenge(letters);
    FieldsOfChallenge(ChallengeMessage(letters), letters);
  }

  lemma FieldsOfChallenge(m: Text, letters: Text)
    requires HasBackslashesOfChallenge(m) && |letters| == 10 && AreLetters(letters)
    requires m[0..4] == LC && m[4..5] == [0x31] && m[5..16] == CHALLENGE && m[16..26] == letters
    requires m[26..30] == ID && m[30..31] == [0x31] && m[31] == BACKSLASH
    ensures Field(m, LC) == Some([0x31]) && Field(m, CHALLENGE) == Some(letters) && Field(m, ID) == Some([0x31])
  {
    assert m[5] == m[5..16][0] && m[26] == m[26..30][0];
    FieldAt(m, 0, LC, [0x31]);
    FieldAt(m, 5, CHALLENGE, letters);
    FieldAt(m, 26, ID, [0x31]);
  }

  lemma ChallengeNeverBackslash(letters: Text)
    requires |letters| == 10 && AreLetters(letters)
    ensures NeverBackslash(ChallengeMessage(letters), 31)
  {
    var m := ChallengeMessage(letters);
    forall j | 0 <= j < 31 ensures m[j] != BACKSLASHES[j % |KEY|] {
      if j < 16 {
        assert m[j] == CHALLENGE_HEAD[j];
      } else if j < 26 {
        assert m[j] == letters[j - 16];
      } else {
        assert m[j] == CHALLENGE_TAIL[j - 26];
      }
    }
  }

  /** Whatever ten letters are drawn, the server's challenge survives encryption and framing. */
  lemma ChallengeFrames(letters: Text)
    requires |letters| == 10 && AreLetters(letters)
    ensures var m := ChallengeMessage(letters);
            IsMessage(m) && IsMessage(Cipher(m)) && Cipher(Cipher(m)) == m
  {
    ChallengeFinal(letters);
    ChallengeNeverBackslash(letters);
    EncryptedMessageFrames(ChallengeMessage(letters), 31);
  }

  // ---------- The connection ----------

  /** A framed message decrypts to the keepalive only if it is the encrypted keepalive. */
  lemma OnlyKeepaliveDecryptsToKeepalive(m: Text)
    requires IsMessage(m)
    ensures Cipher(m) == KEEPALIVE <==> m == Cipher(KEEPALIVE)
  {
    KeepaliveFrames();
    if Cipher(m) == KEEPALIVE {
      assert |m| == 11 && CryptSize(m) == 4;
      CipherAtSameSize(m);
      assert CryptSize(KEEPALIVE) == 4;
    }
  }

  function ReplyTo(m: Text): seq<Text> {
    if m == Cipher(KEEPALIVE) then [m] else []
  }

  /** The replies to framed messages: one encrypted keepalive for each encrypted keepalive. */
  function Replies(messages: seq<Text>): seq<Text> {
    if messages == [] then [] else ReplyTo(messages[0]) + Replies(messages[1..])
  }

  function Keepalives(n: nat): (r: seq<Text>)
    ensures |r| == n && forall i :: 0 <= i < n ==> r[i] == Cipher(KEEPALIVE)
  {
    if n == 0 then [] else [Cipher(KEEPALIVE)] + Keepalives(n - 1)
  }

  lemma ReplyToEncrypted(m: Text)
    requires IsMessage(m) && HasNoDecoy(m)
    ensures ReplyTo(Cipher(m)) == Keepalives(if m == KEEPALIVE then 1 else 0)
  {
    EncryptionFrames(m);
    CipherTwice(m);
    OnlyKeepaliveDecryptsToKeepalive(Cipher(m));
  }

  lemma OneMoreMessage(m: Text, rest: seq<Text>, replies: seq<Text>)
    requires replies == Keepalives(if m == KEEPALIVE then 1 else 0) + Keepalives(multiset(rest)[KEEPALIVE])
    ensures replies == Keepalives(multiset([m] + rest)[KEEPALIVE])
  {
    assert multiset([m] + rest) == multiset{m} + multiset(rest);
  }

  lemma {:induction false} RepliesToEncrypted(messages: seq<Text>)
    requires forall m :: m in messages ==> IsMessage(m) && HasNoDecoy(m)
    ensures Replies(CipherAll(messages)) == Keepalives(multiset(messages)[KEEPALIVE])
  {
    if messages == [] {
    } else {
      var m, rest := messages[0], messages[1..];
      assert messages == [m] + rest && m in messages && forall k :: k in rest ==> k in messages;
      ReplyToEncrypted(m);
      RepliesToEncrypted(rest);
      assert CipherAll(messages)[0] == Cipher(m) && CipherAll(messages)[1..] == CipherAll(rest);
      OneMoreMessage(m, rest, Replies(CipherAll(messages)));
    }
  }

  /** A client whose messages have no decoys is answered exactly once per keepalive, however its stream is cut. */
  lemma KeepalivesAnswered(messages: seq<Text>, chunks: seq<Text>)
    requires forall m :: m in messages ==> IsMessage(m) && HasNoDecoy(m)
    requires Flatten(chunks) == Flatten(CipherAll(messages))
    ensures Replies(Frame(Flatten(chunks)).messages) == Keepalives(multiset(messages)[KEEPALIVE])
  {
    forall m | m in messages ensures IsMessage(Cipher(m)) {
      EncryptionFrames(m);
    }
    FramesAsSent(messages);
    RepliesToEncrypted(messages);
  }

  method HandleMessage(encryptedMessage: Text) returns (sent: seq<Text>)
    requires IsMessage(encryptedMessage)
    ensures sent == ReplyTo(encryptedMessage)
  {
    OnlyKeepaliveDecryptsToKeepalive(encryptedMessage);
    sent := [];
    var message := GamespyMessage(encryptedMessage);
    if message == KEEPALIVE {
      var reply := GamespyMessage(KEEPALIVE);
      sent := [reply];
    }
  }

  method HandleMessages(messages: seq<Text>) returns (sent: seq<Text>)
    requires forall m :: m in messages ==> IsMessage(m)
    ensures sent == Replies(messages)
  {
    sent := [];
    Units(Replies(messages));
    for i := 0 to |messages|
      invariant sent + Replies(messages[i..]) == Replies(messages)
    {
      var replies := HandleMessage(messages[i]);
      TailOfSuffix(messages, i);
      Assoc(sent, replies, Replies(messages[i + 1..]));
      sent := sent + replies;
    }
    Units(sent);
  }

  /**
   * Everything sent on one connection whose client sends `chunks` and then closes; `delivered` is the outcome of
   * sending the challenge, without which the connection is closed unread.
   */
  method HandleConnection(letters: Text, delivered: bool, chunks: seq<Text>) returns (sent: seq<Text>)
    ensures sent == [Cipher(ChallengeMessage(letters))] +
                    if delivered then Replies(Frame(Flatten(chunks)).messages) else []
  {
    var greeting := GamespyMessage(ChallengeMessage(letters));
    if !delivered {
      return [greeting];
    }
    var requests := new RequestBuffer();
    var messages := requests.ReceiveAll(chunks);
    Units(Flatten(chunks));
    FrameIsFraming(Flatten(chunks));
    var replies := HandleMessages(messages);
    sent := [greeting] + replies;
  }
}
