/** Fields of `\key\value\` messages: the value after the first occurrence of a marker, up to the next backslash. */
module Fields {
  import opened Bytes

  const BACKSLASH: byte := 0x5c

  function Field(message: Text, marker: Text): Option<Text>
    requires marker != []
  {
    match Find(message, marker, 0)
    case None => None
    case Some(start) =>
      var first := start + |marker|;
      match IndexOf(message, BACKSLASH, first)
      case None => Some(message[first..])
      case Some(end) => Some(message[first..end])
  }

  /** A value free of backslashes, after the first occurrence of its marker, is read back. */
  lemma FieldIsRead(message: Text, before: Text, marker: Text, value: Text, after: Text)
    requires marker != [] && message == before + marker + value + after
    requires Find(message, marker, 0) == Some(|before|)
    requires BACKSLASH !in value && (after == [] || after[0] == BACKSLASH)
    ensures Field(message, marker) == Some(value)
  {
    var first := |before| + |marker|;
    var end := first + |value|;
    assert message[first..end] == value;
    forall k | first <= k < end ensures message[k] != BACKSLASH {
      assert message[k] == value[k - first];
    }
    if after == [] {
      assert message[first..] == value;
      assert IndexOf(message, BACKSLASH, first) == None;
    } else {
      assert message[end] == after[0];
      assert IndexOf(message, BACKSLASH, first) == Some(end);
    }
  }

  /** A message has a field exactly if its marker occurs in it. */
  lemma FieldIsPresent(message: Text, marker: Text)
    requires marker != []
    ensures Field(message, marker).Some? <==> exists j: nat :: OccursAt(message, marker, j)
  {
    match Find(message, marker, 0)
    case None =>
    case Some(start) => assert OccursAt(message, marker, start);
  }
}
