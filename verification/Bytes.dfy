/**
 * Octets, fixed-width integers and searching, as the protocol code uses them.
 * Fixed-width integers are bounded integers; a shift is a division or a product, a mask a remainder.
 */
module Bytes {

  type byte = x: int | 0 <= x < 0x100
  type u16 = x: int | 0 <= x < 0x1_0000
  type u32 = x: int | 0 <= x < 0x1_0000_0000
  type Text = seq<byte>

  // The bar, which joins account keys and lists of profile ids
  const BAR: byte := 0x7c

  // Four octets of an IPv4 address
  type Address = a: Text | |a| == 4 witness [0, 0, 0, 0]

  datatype Option<+T> = None | Some(value: T)

  // ---------- Little-endian and big-endian integers ----------

  function Word(b0: int, b1: int, b2: int, b3: int): int {
    b0 + 0x100 * b1 + 0x1_0000 * b2 + 0x100_0000 * b3
  }

  function ReadU32Le(p: Text, offset: nat): u32
    requires offset + 4 <= |p|
  {
    Word(p[offset], p[offset + 1], p[offset + 2], p[offset + 3])
  }

  /** The `n` lowest octets of `v`, lowest first. */
  function LowOctets(v: nat, n: nat): (b: Text)
    ensures |b| == n
    decreases n, v
  {
    if n == 0 then [] else [v % 0x100] + LowOctets(v / 0x100, n - 1)
  }

  function U32Le(v: u32): (b: Text)
    ensures |b| == 4
  {
    LowOctets(v, 4)
  }

  lemma Quotients(v: nat)
    ensures v / 0x100 / 0x100 == v / 0x1_0000 && v / 0x1_0000 / 0x100 == v / 0x100_0000
  {
  }

  lemma OctetsOf(v: u32)
    ensures U32Le(v) == [v % 0x100, v / 0x100 % 0x100, v / 0x1_0000 % 0x100, v / 0x100_0000]
  {
    Quotients(v);
    assert LowOctets(v / 0x100_0000, 1) == [v / 0x100_0000];
    assert LowOctets(v / 0x1_0000, 2) == [v / 0x1_0000 % 0x100] + LowOctets(v / 0x100_0000, 1);
    assert LowOctets(v / 0x100, 3) == [v / 0x100 % 0x100] + LowOctets(v / 0x1_0000, 2);
  }

  function ReadU16Be(p: Text, offset: nat): u16
    requires offset + 2 <= |p|
  {
    0x100 * (p[offset] as int) + p[offset + 1]
  }

  function U16Be(v: u16): (b: Text)
    ensures |b| == 2
  {
    [v / 0x100, v % 0x100]
  }

  lemma WordBytes(b0: byte, b1: byte, b2: byte, b3: byte, v: int)
    requires v == Word(b0, b1, b2, b3)
    ensures v % 0x100 == b0 && v / 0x100 % 0x100 == b1
    ensures v / 0x1_0000 % 0x100 == b2 && v / 0x100_0000 == b3
  {
    assert v / 0x100 == b1 + 0x100 * b2 + 0x1_0000 * b3;
    assert v / 0x1_0000 == b2 + 0x100 * b3;
    assert v / 0x100_0000 == b3;
  }

  lemma BytesWord(v: u32)
    ensures Word(v % 0x100, v / 0x100 % 0x100, v / 0x1_0000 % 0x100, v / 0x100_0000) == v
  {
    Quotients(v);
    var q, r := v / 0x100, v / 0x1_0000;
    assert v == 0x100 * q + v % 0x100;
    assert q == 0x100 * r + q % 0x100;
    assert r == 0x100 * (r / 0x100) + r % 0x100;
  }

  /** The four bytes at `offset` are those of `v` exactly when they read as `v`. */
  lemma U32LeReads(v: u32, p: Text, offset: nat)
    requires offset + 4 <= |p|
    ensures p[offset..offset + 4] == U32Le(v) <==> ReadU32Le(p, offset) == v
  {
    var four := p[offset..offset + 4];
    assert four == [p[offset], p[offset + 1], p[offset + 2], p[offset + 3]];
    OctetsOf(v);
    WordBytes(p[offset], p[offset + 1], p[offset + 2], p[offset + 3], ReadU32Le(p, offset));
    BytesWord(v);
  }

  /** A number written after `head` reads back there. */
  lemma ReadsBack(p: Text, head: Text, v: u32, rest: Text)
    requires p == head + U32Le(v) + rest
    ensures |p| == |head| + 4 + |rest| && ReadU32Le(p, |head|) == v
  {
    var octets := U32Le(v);
    assert p[|head|..|head| + 4] == octets;
    U32LeReads(v, p, |head|);
  }

  /** The two bytes at `offset` are those of `v` exactly when they read as `v`. */
  lemma U16BeReads(v: u16, p: Text, offset: nat)
    requires offset + 2 <= |p|
    ensures p[offset..offset + 2] == U16Be(v) <==> ReadU16Be(p, offset) == v
  {
    var two := p[offset..offset + 2];
    assert two == [p[offset], p[offset + 1]];
  }

  // ---------- Exclusive or ----------

  function Pow2(n: nat): nat {
    if n == 0 then 1 else 2 * Pow2(n - 1)
  }

  function Differ(a: nat, b: nat): nat {
    if a % 2 == b % 2 then 0 else 1
  }

  /** Exclusive or of the lowest `n` bits. */
  function XorBits(n: nat, a: nat, b: nat): (r: nat)
    ensures r < Pow2(n)
  {
    if n == 0 then 0 else Differ(a, b) + 2 * XorBits(n - 1, a / 2, b / 2)
  }

  lemma {:induction false} XorBitsTwice(n: nat, a: nat, b: nat)
    requires a < Pow2(n) && b < Pow2(n)
    ensures XorBits(n, XorBits(n, a, b), b) == a
    ensures XorBits(n, a, b) == a ==> b == 0
  {
    if n == 0 {
    } else {
      XorBitsTwice(n - 1, a / 2, b / 2);
      var c := XorBits(n, a, b);
      assert c / 2 == XorBits(n - 1, a / 2, b / 2);
      assert c % 2 == b % 2 <==> a % 2 == 0;
    }
  }

  function Bit(v: nat, k: nat): nat {
    if k == 0 then v % 2 else Bit(v / 2, k - 1)
  }

  /** Each of the lowest `n` bits of the exclusive or is one exactly where the two numbers differ. */
  lemma {:induction false} XorBitByBit(n: nat, a: nat, b: nat, k: nat)
    requires k < n
    ensures Bit(XorBits(n, a, b), k) == if Bit(a, k) == Bit(b, k) then 0 else 1
    decreases k
  {
    var rest := XorBits(n - 1, a / 2, b / 2);
    assert XorBits(n, a, b) % 2 == Differ(a, b) && XorBits(n, a, b) / 2 == rest;
    if k == 0 {
    } else {
      XorBitByBit(n - 1, a / 2, b / 2, k - 1);
    }
  }

  lemma ByteWidth()
    ensures Pow2(8) == 0x100
  {
  }

  function Xor(a: byte, b: byte): byte {
    ByteWidth();
    XorBits(8, a, b)
  }

  lemma XorTwice(a: byte, b: byte)
    ensures Xor(Xor(a, b), b) == a
    ensures Xor(a, b) == a ==> b == 0
  {
    ByteWidth();
    XorBitsTwice(8, a, b);
  }

  /** Every bit of the exclusive or of two bytes is one exactly where they differ. */
  lemma XorIsBitwise(a: byte, b: byte, k: nat)
    requires k < 8
    ensures Bit(Xor(a, b), k) == if Bit(a, k) == Bit(b, k) then 0 else 1
  {
    XorBitByBit(8, a, b, k);
  }

  // Four bits at a time, to evaluate exclusive or on constants

  function Xor4(a: nat, b: nat): nat {
    Differ(a, b) + 2 * Differ(a / 2, b / 2) + 4 * Differ(a / 4, b / 4) + 8 * Differ(a / 8, b / 8)
  }

  lemma XorNibble(n: nat, a: nat, b: nat)
    ensures XorBits(n + 4, a, b) == Xor4(a, b) + 16 * XorBits(n, a / 16, b / 16)
  {
    assert a / 2 / 2 == a / 4 && a / 4 / 2 == a / 8 && a / 8 / 2 == a / 16;
    assert b / 2 / 2 == b / 4 && b / 4 / 2 == b / 8 && b / 8 / 2 == b / 16;
    assert XorBits(n + 1, a / 8, b / 8) == Differ(a / 8, b / 8) + 2 * XorBits(n, a / 16, b / 16);
    assert XorBits(n + 2, a / 4, b / 4) == Differ(a / 4, b / 4) + 2 * XorBits(n + 1, a / 8, b / 8);
    assert XorBits(n + 3, a / 2, b / 2) == Differ(a / 2, b / 2) + 2 * XorBits(n + 2, a / 4, b / 4);
  }

  lemma HighNibble(a: nat, b: nat)
    ensures XorBits(4, a, b) == Xor4(a, b)
  {
    XorNibble(0, a, b);
  }

  lemma XorHalves(a: byte, b: byte)
    ensures Xor(a, b) == Xor4(a, b) + 16 * XorBits(4, a / 16, b / 16)
  {
    XorNibble(4, a, b);
  }

  lemma XorIs(a: byte, b: byte, c: byte)
    requires Xor4(a, b) + 16 * Xor4(a / 16, b / 16) == c
    ensures Xor(a, b) == c
  {
    XorHalves(a, b);
    HighNibble(a / 16, b / 16);
  }

  // ---------- Searching ----------

  predicate OccursAt(s: Text, pattern: Text, i: nat) {
    i + |pattern| <= |s| && s[i..i + |pattern|] == pattern
  }

  /** The first occurrence of `pattern` at or after `from` (`std::string::find`). */
  function Find(s: Text, pattern: Text, from: nat): (r: Option<nat>)
    requires pattern != []
    ensures r.Some? ==> from <= r.value && OccursAt(s, pattern, r.value)
    ensures r.Some? ==> forall j: nat :: from <= j < r.value ==> !OccursAt(s, pattern, j)
    ensures r.None? ==> forall j: nat :: from <= j ==> !OccursAt(s, pattern, j)
    decreases |s| - from
  {
    if from + |pattern| > |s| then None
    else if OccursAt(s, pattern, from) then Some(from)
    else Find(s, pattern, from + 1)
  }

  /** The first position of byte `c` at or after `from` (`std::find`, and `find` of one character). */
  function IndexOf(s: Text, c: byte, from: nat): (r: Option<nat>)
    ensures r.Some? ==> from <= r.value < |s| && s[r.value] == c
    ensures r.Some? ==> forall j :: from <= j < r.value ==> s[j] != c
    ensures r.None? ==> forall j :: from <= j < |s| ==> s[j] != c
    decreases |s| - from
  {
    if from >= |s| then None
    else if s[from] == c then Some(from)
    else IndexOf(s, c, from + 1)
  }

  // ---------- Concatenation ----------

  lemma Assoc<T>(a: seq<T>, b: seq<T>, c: seq<T>)
    ensures a + (b + c) == (a + b) + c
  {
  }

  lemma Assoc4<T>(a: seq<T>, b: seq<T>, c: seq<T>, d: seq<T>)
    ensures a + b + c + d == a + (b + c + d)
  {
  }

  lemma PartsOfConcat<T>(a: seq<T>, b: seq<T>)
    ensures (a + b)[..|a|] == a && (a + b)[|a|..] == b
  {
  }

  lemma Units<T>(s: seq<T>)
    ensures [] + s == s && s + [] == s
  {
  }

  lemma SplitAt<T>(s: seq<T>, i: nat)
    requires i <= |s|
    ensures s[..i] + s[i..] == s
  {
  }

  lemma TakeFurther<T>(s: seq<T>, a: nat, b: nat)
    requires a <= b <= |s|
    ensures s[..b] == s[..a] + s[a..b]
  {
  }

  /** What a suffix starts with, and what is left after that. */
  lemma CutAt<T>(s: seq<T>, from: nat, head: seq<T>, rest: seq<T>)
    requires from <= |s| && s[from..] == head + rest
    ensures from + |head| <= |s| && s[from..from + |head|] == head && s[from + |head|..] == rest
  {
    assert s[from..][..|head|] == head && s[from..][|head|..] == rest;
  }

  lemma TailOfSuffix<T>(s: seq<T>, i: nat)
    requires i < |s|
    ensures s[i..][0] == s[i] && s[i..][1..] == s[i + 1..]
  {
  }

  lemma InConcat<T>(x: T, a: seq<T>, b: seq<T>)
    ensures x in a + b <==> x in a || x in b
  {
  }

  lemma TakeNext<T>(s: seq<T>, i: nat)
    requires i < |s|
    ensures s[..i + 1] == s[..i] + [s[i]]
  {
  }

  lemma TakeAll<T>(s: seq<T>)
    ensures s[..|s|] == s
  {
  }

  lemma InitOfSnoc<T>(s: seq<T>, x: T)
    ensures (s + [x])[..|s|] == s && (s + [x])[|s|] == x
  {
  }

  lemma TailOfCons<T>(x: T, s: seq<T>)
    ensures ([x] + s)[0] == x && ([x] + s)[1..] == s
  {
  }

  lemma TailOfAppend<T>(a: seq<T>, b: seq<T>)
    requires a != []
    ensures (a + b)[0] == a[0] && (a + b)[1..] == a[1..] + b
  {
  }

  function Flatten(parts: seq<Text>): Text {
    if parts == [] then [] else parts[0] + Flatten(parts[1..])
  }

  lemma {:induction false} FlattenAppend(a: seq<Text>, b: seq<Text>)
    ensures Flatten(a + b) == Flatten(a) + Flatten(b)
  {
    if a == [] {
      Units(b);
      Units(Flatten(b));
    } else {
      FlattenAppend(a[1..], b);
      TailOfAppend(a, b);
      Assoc(a[0], Flatten(a[1..]), Flatten(b));
    }
  }

  /** What stands before the first separator, and after it. */
  lemma SeparatorAfter(s: Text, sep: byte, start: nat, piece: Text, rest: Text)
    requires start <= |s| && s[start..] == piece + [sep] + rest && sep !in piece
    ensures var end := start + |piece|;
            end < |s| && IndexOf(s, sep, start) == Some(end) && s[start..end] == piece && s[end + 1..] == rest
  {
    var end := start + |piece|;
    Assoc(piece, [sep], rest);
    CutAt(s, start, piece, [sep] + rest);
    CutAt(s, end, [sep], rest);
    assert s[end] == s[end..][0] == sep;
    forall k | start <= k < end ensures s[k] != sep {
      assert s[k] == s[start..end][k - start];
    }
  }

  lemma FourParts<T>(s: seq<T>, a: nat, b: nat, c: nat)
    requires a <= b <= c <= |s|
    ensures s == s[..a] + (s[a..b] + s[b..c] + s[c..])
  {
  }

  // ---------- Decimal text (`std::to_string`) ----------

  function Decimal(n: nat): (t: Text)
    ensures t != []
  {
    if n < 10 then [0x30 + n] else Decimal(n / 10) + [0x30 + n % 10]
  }

  function ReadDecimal(t: Text): int {
    if t == [] then 0 else 10 * ReadDecimal(t[..|t| - 1]) + (t[|t| - 1] as int - 0x30)
  }

  lemma {:induction false} ReadDecimalOfDecimal(n: nat)
    ensures ReadDecimal(Decimal(n)) == n
  {
    var t := Decimal(n);
    if n < 10 {
      assert t[..0] == [];
    } else {
      ReadDecimalOfDecimal(n / 10);
      assert t[..|t| - 1] == Decimal(n / 10);
    }
  }

  lemma DecimalInjective(a: nat, b: nat)
    requires Decimal(a) == Decimal(b)
    ensures a == b
  {
    ReadDecimalOfDecimal(a);
    ReadDecimalOfDecimal(b);
  }
}
