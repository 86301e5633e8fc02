/** Extensions.GetArgumentListAsStringArray: a dictionary flattened into key, value, key, value, ... */
module RedisExtensions {

  /** A dictionary as its enumeration: the entries in the order a foreach visits them. */
  type Entries = seq<(string, string)>

  /** Dictionary keys are unique. */
  predicate DistinctKeys(entries: Entries) {
    forall i, j :: 0 <= i < j < |entries| ==> entries[i].0 != entries[j].0
  }

  /** The dictionary an enumeration with unique keys comes from. */
  function AsMap(entries: Entries): map<string, string> {
    if |entries| == 0 then map[]
    else AsMap(entries[..|entries| - 1])[entries[|entries| - 1].0 := entries[|entries| - 1].1]
  }

  /** The keys of a flattened argument list: its even positions. */
  function EvenPositions(args: seq<string>): seq<string>
    decreases |args|
  {
    if |args| < 2 then args else [args[0]] + EvenPositions(args[2..])
  }

  /** Reads a flattened argument list back as (key, value) pairs; a trailing key without value is dropped. */
  function Pairs(args: seq<string>): Entries
    decreases |args|
  {
    if |args| < 2 then [] else [(args[0], args[1])] + Pairs(args[2..])
  }

  /** GetArgumentListAsStringArray: a foreach that adds each key and then its value. */
  method GetArgumentListAsStringArray(argumentList: Entries) returns (r: seq<string>)
    ensures |r| == 2 * |argumentList|
    ensures forall i :: 0 <= i < |argumentList| ==> r[2 * i] == argumentList[i].0 && r[2 * i + 1] == argumentList[i].1
  {
    var paramList: seq<string> := [];
    for i := 0 to |argumentList|
      invariant |paramList| == 2 * i
      invariant forall k :: 0 <= k < i ==> paramList[2 * k] == argumentList[k].0 && paramList[2 * k + 1] == argumentList[k].1
    {
      paramList := paramList + [argumentList[i].0];
      paramList := paramList + [argumentList[i].1];
    }
    return paramList;
  }

  /** The interleaving is lossless: reading the output back in pairs gives the dictionary's entries. */
  lemma {:induction false} PairsRoundTrip(entries: Entries, r: seq<string>)
    requires |r| == 2 * |entries|
    requires forall i :: 0 <= i < |entries| ==> r[2 * i] == entries[i].0 && r[2 * i + 1] == entries[i].1
    ensures Pairs(r) == entries
    decreases |entries|
  {
    if |entries| > 0 {
      var rest, tail := entries[1..], r[2..];
      forall i | 0 <= i < |rest|
        ensures tail[2 * i] == rest[i].0 && tail[2 * i + 1] == rest[i].1
      {
        assert tail[2 * i] == r[2 * (i + 1)] && tail[2 * i + 1] == r[2 * (i + 1) + 1];
        assert rest[i] == entries[i + 1];
      }
      PairsRoundTrip(rest, tail);
      assert entries == [(r[0], r[1])] + rest;
    }
  }

  /** The even positions of the output are the keys, in enumeration order. */
  lemma {:induction false} EvenPositionsAreKeys(entries: Entries, r: seq<string>)
    requires |r| == 2 * |entries|
    requires forall i :: 0 <= i < |entries| ==> r[2 * i] == entries[i].0 && r[2 * i + 1] == entries[i].1
    ensures |EvenPositions(r)| == |entries|
    ensures forall i :: 0 <= i < |entries| ==> EvenPositions(r)[i] == entries[i].0
    decreases |entries|
  {
    if |entries| > 0 {
      var rest, tail := entries[1..], r[2..];
      forall i | 0 <= i < |rest|
        ensures tail[2 * i] == rest[i].0 && tail[2 * i + 1] == rest[i].1
      {
        assert tail[2 * i] == r[2 * (i + 1)] && tail[2 * i + 1] == r[2 * (i + 1) + 1];
        assert rest[i] == entries[i + 1];
      }
      EvenPositionsAreKeys(rest, tail);
      forall i | 0 <= i < |entries|
        ensures EvenPositions(r)[i] == entries[i].0
      {
        if i > 0 {
          assert EvenPositions(r)[i] == EvenPositions(tail)[i - 1];
          assert rest[i - 1] == entries[i];
        }
      }
    }
  }

  /** Because dictionary keys are unique, the even positions of the output are pairwise distinct. */
  lemma EvenPositionsDistinct(entries: Entries, r: seq<string>)
    requires DistinctKeys(entries)
    requires |r| == 2 * |entries|
    requires forall i :: 0 <= i < |entries| ==> r[2 * i] == entries[i].0 && r[2 * i + 1] == entries[i].1
    ensures forall i, j :: 0 <= i < j < |EvenPositions(r)| ==> EvenPositions(r)[i] != EvenPositions(r)[j]
  {
    EvenPositionsAreKeys(entries, r);
  }

  /** Every key of the dictionary is followed in the output by its own value. */
  lemma KeyFollowedByItsValue(entries: Entries, r: seq<string>, i: nat)
    requires DistinctKeys(entries)
    requires |r| == 2 * |entries| && i < |entries|
    requires forall k :: 0 <= k < |entries| ==> r[2 * k] == entries[k].0 && r[2 * k + 1] == entries[k].1
    ensures r[2 * i] in AsMap(entries) && AsMap(entries)[r[2 * i]] == r[2 * i + 1]
  {
    KeyInPrefix(entries, i);
  }

  /** Within an enumeration with unique keys, each entry's key maps to its value. */
  lemma {:induction false} KeyInPrefix(entries: Entries, i: nat)
    requires DistinctKeys(entries) && i < |entries|
    ensures entries[i].0 in AsMap(entries) && AsMap(entries)[entries[i].0] == entries[i].1
    decreases |entries|
  {
    var n := |entries| - 1;
    if i < n {
      var p := entries[..n];
      assert p[i] == entries[i];
      KeyInPrefix(p, i);
      assert entries[n].0 != entries[i].0;
    }
  }

  /** The source's test: {KEY_ONE: VALUE_ONE, KEY_TWO: VALUE_TWO} flattens to four strings in order. */
  method ArgumentsTestCase() returns (r: seq<string>)
    ensures r == ["KEY_ONE", "VALUE_ONE", "KEY_TWO", "VALUE_TWO"]
  {
    r := GetArgumentListAsStringArray([("KEY_ONE", "VALUE_ONE"), ("KEY_TWO", "VALUE_TWO")]);
    assert r[2 * 0] == "KEY_ONE" && r[2 * 0 + 1] == "VALUE_ONE";
    assert r[2 * 1] == "KEY_TWO" && r[2 * 1 + 1] == "VALUE_TWO";
  }
}
