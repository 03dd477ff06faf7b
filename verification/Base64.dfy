/** The two base64 encoders: QR pads with '=', NAS with '*'. Section 4 of RFC 4648 gives the decoder. */
module Base64 {
  import opened Bytes

  type sextet = x: int | 0 <= x < 64

  const QR_PAD: byte := 0x3d
  const NAS_PAD: byte := 0x2a

  // "A".."Z", "a".."z", "0".."9", "+", "/"
  function Letter(v: sextet): byte {
    if v < 26 then 0x41 + v
    else if v < 52 then 0x61 + (v - 26)
    else if v < 62 then 0x30 + (v - 52)
    else if v == 62 then 0x2b
    else 0x2f
  }

  // ---------- Encoding ----------

  // The four groups of six bits that three bytes make

  function Sextet0(b0: byte): sextet { b0 / 4 }
  function Sextet1(b0: byte, b1: byte): sextet { b0 % 4 * 16 + b1 / 16 }
  function Sextet2(b1: byte, b2: byte): sextet { b1 % 16 * 4 + b2 / 64 }
  function Sextet3(b2: byte): sextet { b2 % 64 }

  function ByteOrZero(s: Text, i: nat): byte {
    if i < |s| then s[i] else 0
  }

  /** The four characters for the group that starts `s`. */
  function EncodeGroup(s: Text, pad: byte): (e: Text)
    requires s != []
    ensures |e| == 4
  {
    var b1, b2 := ByteOrZero(s, 1), ByteOrZero(s, 2);
    [Letter(Sextet0(s[0])), Letter(Sextet1(s[0], b1)),
     if |s| > 1 then Letter(Sextet2(b1, b2)) else pad,
     if |s| > 2 then Letter(Sextet3(b2)) else pad]
  }

  function AfterGroup(s: Text): Text {
    if |s| <= 3 then [] else s[3..]
  }

  function Encode(s: Text, pad: byte): Text
    decreases |s|
  {
    if s == [] then [] else EncodeGroup(s, pad) + Encode(AfterGroup(s), pad)
  }

  // ---------- Decoding ----------

  function Value(c: byte): Option<sextet> {
    if 0x41 <= c <= 0x5a then Some(c - 0x41)
    else if 0x61 <= c <= 0x7a then Some(c - 0x61 + 26)
    else if 0x30 <= c <= 0x39 then Some(c - 0x30 + 52)
    else if c == 0x2b then Some(62)
    else if c == 0x2f then Some(63)
    else None
  }

  /** The bytes that four groups of six bits make, when the last one or two may be missing. */
  function Join(v0: Option<sextet>, v1: Option<sextet>, v2: Option<sextet>, v3: Option<sextet>): Option<Text> {
    if v0.None? || v1.None? || (v2.None? && v3.Some?) then None
    else if v2.None? then Some([Byte0(v0.value, v1.value)])
    else if v3.None? then Some([Byte0(v0.value, v1.value), Byte1(v1.value, v2.value)])
    else Some([Byte0(v0.value, v1.value), Byte1(v1.value, v2.value), Byte2(v2.value, v3.value)])
  }

  /** One group of four characters; padding may replace missing characters, in the last group only. */
  function DecodeGroup(e: Text, pad: byte): Option<Text>
    requires |e| >= 4
  {
    var v2, v3 := Value(e[2]), Value(e[3]);
    if (v2.Some? || (e[2] == pad && |e| == 4)) && (v3.Some? || (e[3] == pad && |e| == 4))
    then Join(Value(e[0]), Value(e[1]), v2, v3)
    else None
  }

  function Byte0(v0: int, v1: int): byte
    requires 0 <= v0 < 64 && 0 <= v1 < 64
  {
    v0 * 4 + v1 / 16
  }

  function Byte1(v1: int, v2: int): byte
    requires 0 <= v1 < 64 && 0 <= v2 < 64
  {
    v1 % 16 * 16 + v2 / 4
  }

  function Byte2(v2: int, v3: int): byte
    requires 0 <= v2 < 64 && 0 <= v3 < 64
  {
    v2 % 4 * 64 + v3
  }

  function Decode(e: Text, pad: byte): Option<Text> {
    if e == [] then Some([])
    else if |e| < 4 then None
    else
      match (DecodeGroup(e, pad), Decode(e[4..], pad))
      case (Some(first), Some(rest)) => Some(first + rest)
      case _ => None
  }

  lemma ValueOfLetter(v: sextet)
    ensures Value(Letter(v)) == Some(v)
  {
  }

  predicate IsPad(pad: byte) {
    pad != 0 && Value(pad).None?
  }

  lemma BytesOfSextets(b0: byte, b1: byte, b2: byte)
    ensures Byte0(Sextet0(b0), Sextet1(b0, b1)) == b0
    ensures Byte1(Sextet1(b0, b1), Sextet2(b1, b2)) == b1
    ensures Byte2(Sextet2(b1, b2), Sextet3(b2)) == b2
  {
  }

  lemma SextetsOf(b0: byte, b1: byte, b2: byte) returns (v0: sextet, v1: sextet, v2: sextet, v3: sextet)
    ensures v0 == Sextet0(b0) && v1 == Sextet1(b0, b1) && v2 == Sextet2(b1, b2) && v3 == Sextet3(b2)
    ensures Byte0(v0, v1) == b0 && Byte1(v1, v2) == b1 && Byte2(v2, v3) == b2
  {
    v0, v1, v2, v3 := Sextet0(b0), Sextet1(b0, b1), Sextet2(b1, b2), Sextet3(b2);
    BytesOfSextets(b0, b1, b2);
  }

  lemma ValuesOfSextets(s: Text, pad: byte, v0: sextet, v1: sextet, v2: sextet, v3: sextet)
    requires s != [] && IsPad(pad)
    requires v0 == Sextet0(s[0]) && v1 == Sextet1(s[0], ByteOrZero(s, 1))
    requires v2 == Sextet2(ByteOrZero(s, 1), ByteOrZero(s, 2)) && v3 == Sextet3(ByteOrZero(s, 2))
    ensures var e := EncodeGroup(s, pad);
            && Value(e[0]) == Some(v0) && Value(e[1]) == Some(v1)
            && (if |s| > 1 then Value(e[2]) == Some(v2) else e[2] == pad)
            && (if |s| > 2 then Value(e[3]) == Some(v3) else e[3] == pad)
  {
    ValueOfLetter(v0);
    ValueOfLetter(v1);
    ValueOfLetter(v2);
    ValueOfLetter(v3);
  }

  /** The values of a group's characters, and the bytes that they make again. */
  lemma ValuesOfGroup(s: Text, pad: byte) returns (v0: sextet, v1: sextet, v2: sextet, v3: sextet)
    requires s != [] && IsPad(pad)
    ensures var e := EncodeGroup(s, pad);
            && Value(e[0]) == Some(v0) && Value(e[1]) == Some(v1)
            && (if |s| > 1 then Value(e[2]) == Some(v2) else e[2] == pad)
            && (if |s| > 2 then Value(e[3]) == Some(v3) else e[3] == pad)
    ensures Byte0(v0, v1) == s[0] && Byte1(v1, v2) == ByteOrZero(s, 1) && Byte2(v2, v3) == ByteOrZero(s, 2)
  {
    v0, v1, v2, v3 := SextetsOf(s[0], ByteOrZero(s, 1), ByteOrZero(s, 2));
    ValuesOfSextets(s, pad, v0, v1, v2, v3);
  }

  lemma DecodeValues(e: Text, pad: byte, v0: sextet, v1: sextet, v2: sextet, v3: sextet, n: nat)
    requires |e| >= 4 && IsPad(pad) && 1 <= n <= 3 && (n < 3 ==> |e| == 4)
    requires Value(e[0]) == Some(v0) && Value(e[1]) == Some(v1)
    requires if n > 1 then Value(e[2]) == Some(v2) else e[2] == pad
    requires if n > 2 then Value(e[3]) == Some(v3) else e[3] == pad
    ensures DecodeGroup(e, pad) == Some([Byte0(v0, v1), Byte1(v1, v2), Byte2(v2, v3)][..n])
  {
    var b := [Byte0(v0, v1), Byte1(v1, v2), Byte2(v2, v3)];
    assert b[..n] == if n == 1 then [b[0]] else if n == 2 then [b[0], b[1]] else b;
  }

  lemma DecodeEncodedGroup(s: Text, pad: byte, e: Text, rest: Text, n: nat)
    requires s != [] && IsPad(pad) && n == (if |s| <= 3 then |s| else 3)
    requires e == EncodeGroup(s, pad) + rest && (|s| <= 3 ==> rest == [])
    ensures DecodeGroup(e, pad) == Some(s[..n])
  {
    var v0, v1, v2, v3 := ValuesOfGroup(s, pad);
    DecodeValues(e, pad, v0, v1, v2, v3, n);
    assert s[..n] == [s[0], ByteOrZero(s, 1), ByteOrZero(s, 2)][..n];
  }

  /** Decoding inverts encoding, for either padding character. */
  lemma {:induction false} DecodeEncode(s: Text, pad: byte)
    requires IsPad(pad)
    ensures Decode(Encode(s, pad), pad) == Some(s)
    decreases |s|
  {
    if s == [] {
    } else {
      var e, rest := EncodeGroup(s, pad), AfterGroup(s);
      var n := if |s| <= 3 then |s| else 3;
      DecodeEncodedGroup(s, pad, Encode(s, pad), Encode(rest, pad), n);
      DecodeEncode(rest, pad);
      EncodedLength(rest, pad);
      assert Encode(s, pad)[4..] == Encode(rest, pad);
      assert s == s[..n] + rest;
    }
  }

  lemma {:induction false} EncodedLength(s: Text, pad: byte)
    ensures |Encode(s, pad)| == (|s| + 2) / 3 * 4
    decreases |s|
  {
    if s == [] {
    } else {
      EncodedLength(AfterGroup(s), pad);
      assert |s| > 3 ==> (|s| + 2) / 3 == (|s| - 3 + 2) / 3 + 1;
    }
  }

  lemma {:induction false} EncodedHasNoZero(s: Text, pad: byte)
    requires IsPad(pad)
    ensures 0 !in Encode(s, pad)
    decreases |s|
  {
    if s == [] {
    } else {
      EncodedHasNoZero(AfterGroup(s), pad);
      InConcat(0, EncodeGroup(s, pad), Encode(AfterGroup(s), pad));
    }
  }

  function Substitute(s: Text, old_: byte, new_: byte): (r: Text)
    ensures |r| == |s|
  {
    seq(|s|, i requires 0 <= i < |s| => if s[i] == old_ then new_ else s[i])
  }

  /** The NAS text of any bytes is their QR text with '*' for '='. */
  lemma {:induction false} NasIsQrWithStars(s: Text)
    ensures Encode(s, NAS_PAD) == Substitute(Encode(s, QR_PAD), QR_PAD, NAS_PAD)
    decreases |s|
  {
    if s == [] {
    } else {
      NasIsQrWithStars(AfterGroup(s));
      assert EncodeGroup(s, NAS_PAD) == Substitute(EncodeGroup(s, QR_PAD), QR_PAD, NAS_PAD);
    }
  }

  // ---------- The loops ----------

  /** Six bits of a packed group: `value >> n & 0x3f`, where `unit` is 2 to the `n`. */
  function Bits(value: nat, unit: nat): sextet
    requires unit > 0
  {
    value / unit % 64
  }

  lemma DigitsOf(d0: sextet, d1: sextet, d2: sextet, d3: sextet, value: nat)
    requires value == d0 * 0x4_0000 + d1 * 0x1000 + d2 * 64 + d3
    ensures Bits(value, 0x4_0000) == d0 && Bits(value, 0x1000) == d1
    ensures Bits(value, 64) == d2 && Bits(value, 1) == d3
  {
    assert value / 0x4_0000 == d0;
    assert value / 0x1000 == d0 * 64 + d1;
    assert value / 64 == d0 * 0x1000 + d1 * 64 + d2;
  }

  function Packed(b0: byte, b1: byte, b2: byte): nat {
    b0 * 0x1_0000 + b1 * 0x100 + b2
  }

  /** Packing three bytes into one number and cutting it in four gives the groups of six bits. */
  lemma PackedBits(b0: byte, b1: byte, b2: byte)
    ensures var value := Packed(b0, b1, b2);
            && Bits(value, 0x4_0000) == Sextet0(b0) && Bits(value, 0x1000) == Sextet1(b0, b1)
            && Bits(value, 64) == Sextet2(b1, b2) && Bits(value, 1) == Sextet3(b2)
  {
    DigitsOf(Sextet0(b0), Sextet1(b0, b1), Sextet2(b1, b2), Sextet3(b2), Packed(b0, b1, b2));
  }

  function From(s: Text, index: nat): Text {
    if index < |s| then s[index..] else []
  }

  method QrGroup(input: Text, index: nat) returns (group: Text)
    requires index < |input|
    ensures group == EncodeGroup(From(input, index), QR_PAD)
  {
    var remaining := |input| - index;
    var b1 := if remaining > 1 then input[index + 1] else 0;
    var b2 := if remaining > 2 then input[index + 2] else 0;
    var value := Packed(input[index], b1, b2);
    PackedBits(input[index], b1, b2);
    group := [Letter(Bits(value, 0x4_0000)), Letter(Bits(value, 0x1000)),
              if remaining > 1 then Letter(Bits(value, 64)) else QR_PAD,
              if remaining > 2 then Letter(Bits(value, 1)) else QR_PAD];
  }

  method QrBase64Encode(input: Text) returns (output: Text)
    ensures output == Encode(input, QR_PAD)
  {
    output := [];
    Units(Encode(input, QR_PAD));
    var index := 0;
    while index < |input|
      invariant output + Encode(From(input, index), QR_PAD) == Encode(input, QR_PAD)
    {
      var group := QrGroup(input, index);
      assert AfterGroup(From(input, index)) == From(input, index + 3);
      Assoc(output, group, Encode(From(input, index + 3), QR_PAD));
      output := output + group;
      index := index + 3;
    }
  }

  method NasGroup(value: Text, index: nat) returns (group: Text)
    requires index < |value|
    ensures group == EncodeGroup(From(value, index), NAS_PAD)
  {
    var second := if index + 1 < |value| then value[index + 1] else 0;
    var third := if index + 2 < |value| then value[index + 2] else 0;
    var chunk := Packed(value[index], second, third);
    PackedBits(value[index], second, third);
    group := [Letter(Bits(chunk, 0x4_0000)), Letter(Bits(chunk, 0x1000)),
              if index + 1 < |value| then Letter(Bits(chunk, 64)) else NAS_PAD,
              if index + 2 < |value| then Letter(Bits(chunk, 1)) else NAS_PAD];
  }

  method NasBase64Encode(value: Text) returns (encoded: Text)
    ensures encoded == Encode(value, NAS_PAD)
  {
    encoded := [];
    Units(Encode(value, NAS_PAD));
    var index := 0;
    while index < |value|
      invariant encoded + Encode(From(value, index), NAS_PAD) == Encode(value, NAS_PAD)
    {
      var group := NasGroup(value, index);
      assert AfterGroup(From(value, index)) == From(value, index + 3);
      Assoc(encoded, group, Encode(From(value, index + 3), NAS_PAD));
      encoded := encoded + group;
      index := index + 3;
    }
  }
}
