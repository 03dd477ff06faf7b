/** The Sake FriendInfo records: created once, numbered, and listed by owner. */
module Sake {
  import opened Bytes
  import opened Nas

  datatype Record = Record(recordId: nat, owner: Text, gameId: Text, tableId: Text, info: Text)

  /** The records of one owner, in the order they were created. */
  function RecordsOf(records: seq<Record>, owner: Text): seq<Record> {
    if records == [] then []
    else (if records[0].owner == owner then [records[0]] else []) + RecordsOf(records[1..], owner)
  }

  lemma {:induction false} RecordsOfAppend(a: seq<Record>, b: seq<Record>, owner: Text)
    ensures RecordsOf(a + b, owner) == RecordsOf(a, owner) + RecordsOf(b, owner)
  {
    if a == [] {
      Units(b);
      Units(RecordsOf(b, owner));
    } else {
      TailOfAppend(a, b);
      RecordsOfAppend(a[1..], b, owner);
      Assoc(if a[0].owner == owner then [a[0]] else [], RecordsOf(a[1..], owner), RecordsOf(b, owner));
    }
  }

  /** Listing misses none of the owner's records, repeats none, and shows no other owner's. */
  lemma {:induction false} RecordsOfExactly(records: seq<Record>, owner: Text, r: Record)
    ensures multiset(RecordsOf(records, owner))[r] == if r.owner == owner then multiset(records)[r] else 0
  {
    if records == [] {
    } else {
      RecordsOfExactly(records[1..], owner, r);
      assert records == [records[0]] + records[1..];
    }
  }

  lemma NextNumber(n: nat)
    ensures (n % U64 + 1) % U64 == (n + 1) % U64
  {
  }

  lemma RemaindersAgree(a: int, b: int)
    ensures a % U64 == b % U64 <==> (a - b) % U64 == 0
  {
    var q, r := a / U64, b / U64;
    assert a == U64 * q + a % U64 && b == U64 * r + b % U64;
    assert a - b == U64 * (q - r) + (a % U64 - b % U64);
  }

  class Store {
    var records: seq<Record>
    var nextRecordId: nat

    /** Record ids are the positions in order of creation, in 64-bit arithmetic. */
    ghost predicate Valid()
      reads this
    {
      nextRecordId == (|records| + 1) % U64 && forall i :: 0 <= i < |records| ==> records[i].recordId == (i + 1) % U64
    }

    /** Two records have the same id exactly if a multiple of 2^64 records lies between them. */
    lemma IdsRepeatAfterWrap(i: nat, j: nat)
      requires Valid() && i < |records| && j < |records|
      ensures records[i].recordId == records[j].recordId <==> (i - j) % U64 == 0
    {
      RemaindersAgree(i + 1, j + 1);
    }

    constructor ()
      ensures Valid() && records == []
    {
      records := [];
      nextRecordId := 1;
    }

    /** A record's id is no other record's for the first 2^64 - 1 records. */
    method CreateRecord(owner: Text, gameId: Text, tableId: Text, info: Text) returns (recordId: nat)
      requires Valid()
      modifies this
      ensures Valid() && records == old(records) + [Record(recordId, owner, gameId, tableId, info)]
      ensures recordId == |records| % U64
      ensures |records| < U64 ==> forall r :: r in old(records) ==> r.recordId < recordId
      ensures RecordsOf(records, owner) ==
              RecordsOf(old(records), owner) + [Record(recordId, owner, gameId, tableId, info)]
    {
      recordId := nextRecordId;
      nextRecordId := (nextRecordId + 1) % U64;
      NextNumber(|records| + 1);
      var record := Record(recordId, owner, gameId, tableId, info);
      RecordsOfAppend(records, [record], owner);
      records := records + [record];
    }

    method GetMyRecords(owner: Text) returns (mine: seq<Record>)
      ensures mine == RecordsOf(records, owner)
    {
      mine := [];
      for i := 0 to |records|
        invariant mine == RecordsOf(records[..i], owner)
      {
        assert records[..i + 1] == records[..i] + [records[i]];
        RecordsOfAppend(records[..i], [records[i]], owner);
        if records[i].owner != owner {
          continue;
        }
        mine := mine + [records[i]];
      }
      assert records[..|records|] == records;
    }
  }
}
