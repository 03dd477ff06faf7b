/** Splitting text at a separator and dropping empty pieces, as player search and the browser both do. */
module Splitting {
  import opened Bytes

  function NonEmpty(piece: Text): seq<Text> {
    if piece == [] then [] else [piece]
  }

  /** The non-empty pieces of `s` between separators, from position `start` on. */
  function PiecesFrom(s: Text, sep: byte, start: nat): seq<Text>
    requires start <= |s|
    decreases |s| - start
  {
    match IndexOf(s, sep, start)
    case None => NonEmpty(s[start..])
    case Some(i) => NonEmpty(s[start..i]) + PiecesFrom(s, sep, i + 1)
  }

  function Pieces(s: Text, sep: byte): seq<Text> {
    PiecesFrom(s, sep, 0)
  }

  function Join(parts: seq<Text>, sep: byte): Text {
    if parts == [] then []
    else if |parts| == 1 then parts[0]
    else parts[0] + [sep] + Join(parts[1..], sep)
  }

  predicate IsPiece(p: Text, sep: byte) {
    p != [] && sep !in p
  }

  lemma PiecesAtSeparator(s: Text, sep: byte, start: nat, i: nat)
    requires start <= |s| && IndexOf(s, sep, start) == Some(i)
    ensures PiecesFrom(s, sep, start) == NonEmpty(s[start..i]) + PiecesFrom(s, sep, i + 1)
  {
  }

  /** One turn of a splitting loop: the next piece joins those `found` before it. */
  lemma NextPiece(s: Text, sep: byte, start: nat, found: seq<Text>)
    requires start <= |s|
    ensures found + PiecesFrom(s, sep, start) ==
            match IndexOf(s, sep, start)
            case None => found + NonEmpty(s[start..])
            case Some(i) => found + NonEmpty(s[start..i]) + PiecesFrom(s, sep, i + 1)
  {
    if IndexOf(s, sep, start).Some? {
      var i := IndexOf(s, sep, start).value;
      PiecesAtSeparator(s, sep, start, i);
      Assoc(found, NonEmpty(s[start..i]), PiecesFrom(s, sep, i + 1));
    }
  }

  method AddPiece(found: seq<Text>, piece: Text) returns (pieces: seq<Text>)
    ensures pieces == found + NonEmpty(piece)
  {
    pieces := found;
    if piece != [] {
      pieces := pieces + [piece];
    }
  }

  lemma NoSeparatorAfter(s: Text, sep: byte, start: nat)
    requires start <= |s| && sep !in s[start..]
    ensures PiecesFrom(s, sep, start) == NonEmpty(s[start..])
  {
    forall k | start <= k < |s| ensures s[k] != sep {
      assert s[k] == s[start..][k - start];
    }
  }

  function NonEmptyOnes(parts: seq<Text>): seq<Text> {
    if parts == [] then [] else NonEmpty(parts[0]) + NonEmptyOnes(parts[1..])
  }

  lemma {:induction false} AllNonEmpty(parts: seq<Text>)
    requires [] !in parts
    ensures NonEmptyOnes(parts) == parts
  {
    if parts == [] {
    } else {
      AllNonEmpty(parts[1..]);
      SplitAt(parts, 1);
      assert parts[..1] == [parts[0]];
    }
  }

  lemma OnlyPiece(s: Text, sep: byte, start: nat, piece: Text)
    requires start <= |s| && s[start..] == piece && sep !in piece
    ensures PiecesFrom(s, sep, start) == NonEmptyOnes([piece])
  {
    NoSeparatorAfter(s, sep, start);
    assert [piece][1..] == [];
    Units(NonEmpty(piece));
  }

  lemma {:induction false} PiecesOfJoinFrom(s: Text, sep: byte, start: nat, parts: seq<Text>)
    requires start <= |s| && s[start..] == Join(parts, sep)
    requires forall p :: p in parts ==> sep !in p
    ensures PiecesFrom(s, sep, start) == NonEmptyOnes(parts)
    decreases |parts|
  {
    if parts == [] {
      NoSeparatorAfter(s, sep, start);
    } else if |parts| == 1 {
      assert parts[0] in parts && parts == [parts[0]];
      OnlyPiece(s, sep, start, parts[0]);
    } else {
      var first, rest := parts[0], parts[1..];
      assert first in parts;
      var end := start + |first|;
      SeparatorAfter(s, sep, start, first, Join(rest, sep));
      PiecesAtSeparator(s, sep, start, end);
      PiecesOfJoinFrom(s, sep, end + 1, rest);
    }
  }

  /** Splitting a text made of any parts free of the separator gives those that are not empty, in order. */
  lemma PiecesOfAnyJoin(parts: seq<Text>, sep: byte)
    requires forall p :: p in parts ==> sep !in p
    ensures Pieces(Join(parts, sep), sep) == NonEmptyOnes(parts)
  {
    var s := Join(parts, sep);
    assert s[0..] == s;
    PiecesOfJoinFrom(s, sep, 0, parts);
  }

  /** Splitting inverts joining, for non-empty parts free of the separator. */
  lemma PiecesOfJoin(parts: seq<Text>, sep: byte)
    requires forall p :: p in parts ==> IsPiece(p, sep)
    ensures Pieces(Join(parts, sep), sep) == parts
  {
    PiecesOfAnyJoin(parts, sep);
    AllNonEmpty(parts);
  }

  function Without(s: Text, sep: byte): Text {
    if s == [] then [] else (if s[0] == sep then [] else [s[0]]) + Without(s[1..], sep)
  }

  lemma {:induction false} WithoutAppend(a: Text, b: Text, sep: byte)
    ensures Without(a + b, sep) == Without(a, sep) + Without(b, sep)
  {
    if a == [] {
      Units(b);
      Units(Without(b, sep));
    } else {
      TailOfAppend(a, b);
      WithoutAppend(a[1..], b, sep);
      Assoc(if a[0] == sep then [] else [a[0]], Without(a[1..], sep), Without(b, sep));
    }
  }

  lemma {:induction false} WithoutNone(s: Text, sep: byte)
    requires sep !in s
    ensures Without(s, sep) == s
  {
    if s == [] {
    } else {
      WithoutNone(s[1..], sep);
      SplitAt(s, 1);
    }
  }

  lemma FlattenNonEmpty(piece: Text)
    ensures Flatten(NonEmpty(piece)) == piece
  {
    Units(piece);
  }

  lemma WithoutAround(piece: Text, sep: byte, rest: Text)
    requires sep !in piece
    ensures Without(piece + [sep] + rest, sep) == Flatten(NonEmpty(piece)) + Without(rest, sep)
  {
    FlattenNonEmpty(piece);
    WithoutNone(piece, sep);
    WithoutAppend(piece, [sep], sep);
    Units(piece);
    WithoutAppend(piece + [sep], rest, sep);
  }

  lemma AroundSeparator(s: Text, start: nat, i: nat)
    requires start <= i < |s|
    ensures s[start..] == s[start..i] + [s[i]] + s[i + 1..]
  {
  }

  lemma KeepsPieceAndRest(s: Text, sep: byte, start: nat, i: nat)
    requires start <= |s| && IndexOf(s, sep, start) == Some(i)
    requires Flatten(PiecesFrom(s, sep, i + 1)) == Without(s[i + 1..], sep)
    ensures Flatten(PiecesFrom(s, sep, start)) == Without(s[start..], sep)
  {
    PiecesAtSeparator(s, sep, start, i);
    FlattenAppend(NonEmpty(s[start..i]), PiecesFrom(s, sep, i + 1));
    AroundSeparator(s, start, i);
    WithoutAround(s[start..i], sep, s[i + 1..]);
  }

  lemma {:induction false} PiecesKeepTheRestFrom(s: Text, sep: byte, start: nat)
    requires start <= |s|
    ensures Flatten(PiecesFrom(s, sep, start)) == Without(s[start..], sep)
    decreases |s| - start
  {
    match IndexOf(s, sep, start)
    case None =>
      WithoutNone(s[start..], sep);
      FlattenNonEmpty(s[start..]);
    case Some(i) =>
      PiecesKeepTheRestFrom(s, sep, i + 1);
      KeepsPieceAndRest(s, sep, start, i);
  }

  /** Nothing but separators is lost, in any text. */
  lemma PiecesKeepTheRest(s: Text, sep: byte)
    ensures Flatten(Pieces(s, sep)) == Without(s, sep)
  {
    assert s[0..] == s;
    PiecesKeepTheRestFrom(s, sep, 0);
  }

  /** Every one of `pieces` is a piece, and free of `c` if `s` is. */
  predicate ArePiecesOf(pieces: seq<Text>, s: Text, sep: byte, c: byte) {
    forall p :: p in pieces ==> IsPiece(p, sep) && (c !in s ==> c !in p)
  }

  lemma PieceOf(s: Text, sep: byte, start: nat, end: nat, c: byte)
    requires start <= end <= |s| && forall k :: start <= k < end ==> s[k] != sep
    ensures ArePiecesOf(NonEmpty(s[start..end]), s, sep, c)
  {
    var piece := s[start..end];
    forall k | 0 <= k < |piece| ensures piece[k] != sep && piece[k] in s {
      assert piece[k] == s[start + k];
    }
  }

  /** Every piece is non-empty and free of the separator and of any byte `c` that the text is free of. */
  lemma {:induction false} PiecesArePieces(s: Text, sep: byte, start: nat, c: byte)
    requires start <= |s|
    ensures ArePiecesOf(PiecesFrom(s, sep, start), s, sep, c)
    decreases |s| - start
  {
    match IndexOf(s, sep, start)
    case None =>
      PieceOf(s, sep, start, |s|, c);
      assert s[start..|s|] == s[start..];
    case Some(i) =>
      PieceOf(s, sep, start, i, c);
      PiecesArePieces(s, sep, i + 1, c);
      PiecesAtSeparator(s, sep, start, i);
  }

  lemma {:induction false} PiecesAreFew(s: Text, sep: byte, start: nat)
    requires start <= |s|
    ensures |PiecesFrom(s, sep, start)| <= |s| - start
    decreases |s| - start
  {
    match IndexOf(s, sep, start)
    case None =>
    case Some(i) =>
      PiecesAreFew(s, sep, i + 1);
      PiecesAtSeparator(s, sep, start, i);
  }
}
