/** ListExtensions, the Hans.Extensions.Standard copy: IsSameCycle and GetRandomEntry. */
module ListExtensions {
  import opened Wrappers

  /** `other`, read from offset `k` and wrapping around, equals `list` element by element. */
  ghost predicate RotationAt<T>(list: seq<T>, other: seq<T>, k: int) {
    |list| == |other| && 0 <= k < |other| &&
    forall i :: 0 <= i < |list| ==> list[i] == other[(k + i) % |other|]
  }

  /** `list` and `other` are the same cycle: some rotation of `other` is `list`. */
  ghost predicate SameCycle<T>(list: seq<T>, other: seq<T>) {
    exists k :: RotationAt(list, other, k)
  }

  /** List.IndexOf: the first position of `x` in `s`, or -1. */
  function IndexOf<T(==)>(s: seq<T>, x: T): (r: int)
    ensures -1 <= r < |s|
    ensures r == -1 <==> x !in s
    ensures 0 <= r ==> s[r] == x && x !in s[..r]
  {
    if |s| == 0 then -1
    else if s[0] == x then 0
    else var r := IndexOf(s[1..], x); if r == -1 then -1 else r + 1
  }

  /**
   * What IsSameCycle computes: only the offset of the FIRST element of `other` equal to
   * `list[0]` is ever tried.
   */
  ghost predicate FirstOffsetMatches<T>(list: seq<T>, other: seq<T>) {
    |list| == |other| && |list| > 0 && list[0] in other && RotationAt(list, other, IndexOf(other, list[0]))
  }

  /**
   * IsSameCycle as written: for every element of `other` equal to `list[0]` it compares the
   * rotation starting at `other.IndexOf(element)`, i.e. always at the first occurrence.
   */
  method IsSameCycle<T(==)>(list: seq<T>, other: seq<T>) returns (cycleMatches: bool)
    ensures cycleMatches == FirstOffsetMatches(list, other)
    ensures cycleMatches ==> SameCycle(list, other)
    ensures |list| != |other| ==> !cycleMatches
    ensures |list| == 0 ==> !cycleMatches
  {
    if |list| != |other| {
      return false;
    }
    cycleMatches := false;
    var j := 0;
    while j < |other|
      invariant 0 <= j <= |other|
      invariant cycleMatches ==> FirstOffsetMatches(list, other)
      invariant !cycleMatches && (exists j' :: 0 <= j' < j && other[j'] == list[0]) ==> !FirstOffsetMatches(list, other)
    {
      var matchingItem := other[j];
      if matchingItem != list[0] {
        j := j + 1;
        continue;
      }
      var itemIndex := IndexOf(other, matchingItem);
      cycleMatches := TryOffset(list, other, itemIndex);
      if cycleMatches {
        break;
      }
      j := j + 1;
    }
    if !cycleMatches && list != [] && list[0] in other {
      var j' := IndexOf(other, list[0]);
      assert other[j'] == list[0];
    }
  }

  /** The inner loop of IsSameCycle: compares `list` with `other` read from `itemIndex`. */
  method TryOffset<T(==)>(list: seq<T>, other: seq<T>, itemIndex: int) returns (cycleMatches: bool)
    requires |list| == |other| && 0 <= itemIndex < |other|
    ensures cycleMatches == RotationAt(list, other, itemIndex)
  {
    cycleMatches := false;
    for i := 0 to |list|
      invariant forall i' :: 0 <= i' < i ==> list[i'] == other[(itemIndex + i') % |other|]
      invariant cycleMatches <==> i == |list| && i > 0
    {
      if list[i] != other[(itemIndex + i) % |other|] {
        return false;
      }
      if i == |list| - 1 {
        cycleMatches := true;
      }
    }
  }

  /**
   * IsSameCycle with the offset taken from the loop position instead of IndexOf, so every
   * occurrence of `list[0]` in `other` is tried.
   */
  method IsSameCycleCorrected<T(==)>(list: seq<T>, other: seq<T>) returns (cycleMatches: bool)
    ensures cycleMatches <==> |list| > 0 && SameCycle(list, other)
  {
    if |list| != |other| {
      return false;
    }
    cycleMatches := false;
    var j := 0;
    while j < |other|
      invariant 0 <= j <= |other|
      invariant cycleMatches ==> RotationAt(list, other, j)
      invariant !cycleMatches ==> forall k :: 0 <= k < j ==> !RotationAt(list, other, k)
    {
      if other[j] == list[0] {
        cycleMatches := TryOffset(list, other, j);
        if cycleMatches {
          break;
        }
      } else {
        HeadMismatch(list, other, j);
      }
      j := j + 1;
    }
    if !cycleMatches {
      NoOffsetNoCycle(list, other);
    }
  }

  /** An offset whose element differs from `list[0]` is not a rotation. */
  lemma HeadMismatch<T>(list: seq<T>, other: seq<T>, j: int)
    requires |list| == |other| && 0 <= j < |other| && other[j] != list[0]
    ensures !RotationAt(list, other, j)
  {
    assert (j + 0) % |other| == j;
  }

  /** When no offset is a rotation, the two lists are not the same cycle. */
  lemma NoOffsetNoCycle<T>(list: seq<T>, other: seq<T>)
    requires forall k :: 0 <= k < |other| ==> !RotationAt(list, other, k)
    ensures !SameCycle(list, other)
  {
  }

  /** Any non-empty list is the same cycle as itself, and IsSameCycle finds it (offset 0). */
  lemma SelfIsSameCycle<T>(list: seq<T>)
    requires |list| > 0
    ensures FirstOffsetMatches(list, list)
  {
    assert IndexOf(list, list[0]) == 0;
  }

  /**
   * [1, 2, 1, 3] is [1, 3, 1, 2] rotated by two, but IsSameCycle only tries the offset of the
   * first 1 and answers false.
   */
  lemma IndexOfMissesLaterRotation()
    ensures SameCycle([1, 2, 1, 3], [1, 3, 1, 2])
    ensures !FirstOffsetMatches([1, 2, 1, 3], [1, 3, 1, 2])
  {
    var list, other := [1, 2, 1, 3], [1, 3, 1, 2];
    assert RotationAt(list, other, 2) by {
      assert list[0] == other[2 % 4] && list[1] == other[3 % 4];
      assert list[2] == other[4 % 4] && list[3] == other[5 % 4];
    }
    assert IndexOf(other, 1) == 0;
    assert list[1] != other[(0 + 1) % 4];
  }

  /**
   * GetRandomEntry: the default value (here None) for an empty list, otherwise the element at
   * a position drawn by the random source, modelled as an arbitrary choice.
   */
  method GetRandomEntry<T>(list: seq<T>) returns (r: Option<T>)
    ensures r.None? <==> |list| == 0
    ensures r.Some? ==> r.value in list
  {
    if |list| == 0 {
      return None;
    }
    var index :| 0 <= index < |list|;
    return Some(list[index]);
  }
}
