/** ArrayExtensions.Concatenate<T>(params object[]): flattens items and arrays of T into one array. */
module ArrayExtensions {
  import opened Wrappers

  /** One argument of Concatenate<T>, classified by its runtime type. */
  datatype Arg<T> =
    | Single(item: T)          // an object whose type is exactly T
    | Many(items: seq<T>)      // a T[]
    | ForeignArray             // an array of some other element type: `obj as T[]` is null
    | Foreign(text: string)    // any other object, carrying its ToString()

  datatype ConcatError =
    | ArgumentNull             // AddRange(null), raised for an array that is not a T[]
    | TypeLoad                 // TypeLoadException, a foreign object when T is not string

  /**
   * `asT` is the conversion (T)(object)s, present exactly when T is string; a foreign object
   * then contributes its string form.
   */
  function Contribution<T>(arg: Arg<T>, asT: Option<string -> T>): Result<seq<T>, ConcatError> {
    match arg
    case Many(items) => Success(items)
    case Single(item) => Success([item])
    case ForeignArray => Failure(ArgumentNull)
    case Foreign(text) => if asT.Some? then Success([asT.value(text)]) else Failure(TypeLoad)
  }

  /** The result of concatenating `args` in order; the first argument that fails decides the error. */
  function ConcatAll<T>(args: seq<Arg<T>>, asT: Option<string -> T>): Result<seq<T>, ConcatError> {
    if |args| == 0 then Success([])
    else match ConcatAll(args[..|args| - 1], asT)
      case Failure(e) => Failure(e)
      case Success(prefix) =>
        match Contribution(args[|args| - 1], asT)
        case Failure(e) => Failure(e)
        case Success(items) => Success(prefix + items)
  }

  /** Concatenate: a foreach that AddRange's arrays, Add's items and converts or rejects the rest. */
  method Concatenate<T>(concatObj: seq<Arg<T>>, asT: Option<string -> T>) returns (r: Result<seq<T>, ConcatError>)
    ensures r == ConcatAll(concatObj, asT)
  {
    var concatList: seq<T> := [];
    for i := 0 to |concatObj|
      invariant ConcatAll(concatObj[..i], asT) == Success(concatList)
    {
      assert concatObj[..i + 1][..i] == concatObj[..i];
      match concatObj[i]
      case Many(items) =>
        concatList := concatList + items;
      case Single(item) =>
        concatList := concatList + [item];
      case Foreign(text) =>
        if asT.Some? {
          concatList := concatList + [asT.value(text)];
        } else {
          ConcatStopsAtFailure(concatObj, asT, i);
          return Failure(TypeLoad);
        }
      case ForeignArray =>
        ConcatStopsAtFailure(concatObj, asT, i);
        return Failure(ArgumentNull);
    }
    assert concatObj[..|concatObj|] == concatObj;
    return Success(concatList);
  }

  /** Once all arguments before `i` succeed, a failing argument `i` is the error of the whole call. */
  lemma {:induction false} ConcatStopsAtFailure<T>(args: seq<Arg<T>>, asT: Option<string -> T>, i: nat)
    requires i < |args| && ConcatAll(args[..i], asT).Success? && Contribution(args[i], asT).Failure?
    ensures ConcatAll(args, asT) == Failure(Contribution(args[i], asT).error)
    decreases |args|
  {
    if i < |args| - 1 {
      var p := args[..|args| - 1];
      assert p[..i] == args[..i];
      ConcatStopsAtFailure(p, asT, i);
    } else {
      assert args[..|args| - 1] == args[..i];
    }
  }

  predicate Accepted<T>(arg: Arg<T>, asT: Option<string -> T>) {
    Contribution(arg, asT).Success?
  }

  /** How many elements an accepted argument contributes. */
  function Width<T>(arg: Arg<T>): nat {
    match arg
    case Many(items) => |items|
    case _ => 1
  }

  function TotalWidth<T>(args: seq<Arg<T>>): nat {
    if |args| == 0 then 0 else TotalWidth(args[..|args| - 1]) + Width(args[|args| - 1])
  }

  /** Concatenation succeeds exactly when no argument is rejected. */
  lemma {:induction false} ConcatSucceedsIffAllAccepted<T>(args: seq<Arg<T>>, asT: Option<string -> T>)
    ensures ConcatAll(args, asT).Success? <==> forall i :: 0 <= i < |args| ==> Accepted(args[i], asT)
    decreases |args|
  {
    if |args| > 0 {
      var p := args[..|args| - 1];
      ConcatSucceedsIffAllAccepted(p, asT);
      assert forall i :: 0 <= i < |p| ==> p[i] == args[i];
    }
  }

  /** The result length is the number of single items plus the sum of the array lengths. */
  lemma {:induction false} ConcatLength<T>(args: seq<Arg<T>>, asT: Option<string -> T>)
    requires ConcatAll(args, asT).Success?
    ensures |ConcatAll(args, asT).value| == TotalWidth(args)
    decreases |args|
  {
    if |args| > 0 {
      ConcatLength(args[..|args| - 1], asT);
    }
  }

  /** Concatenating two argument lists one after the other is concatenating their results. */
  lemma {:induction false} ConcatAppend<T>(a: seq<Arg<T>>, b: seq<Arg<T>>, asT: Option<string -> T>)
    requires ConcatAll(a, asT).Success? && ConcatAll(b, asT).Success?
    ensures ConcatAll(a + b, asT) == Success(ConcatAll(a, asT).value + ConcatAll(b, asT).value)
    decreases |b|
  {
    if |b| == 0 {
      assert a + b == a;
      assert ConcatAll(a, asT).value + [] == ConcatAll(a, asT).value;
    } else {
      var q, last := b[..|b| - 1], b[|b| - 1];
      assert (a + b)[..|a + b| - 1] == a + q && (a + b)[|a + b| - 1] == last;
      assert ConcatAll(q, asT).Success?;
      ConcatAppend(a, q, asT);
      var av, qv, items := ConcatAll(a, asT).value, ConcatAll(q, asT).value, Contribution(last, asT).value;
      assert ConcatAll(b, asT).value == qv + items;
      assert (av + qv) + items == av + (qv + items);
    }
  }

  /** No arguments give an empty array. */
  lemma ConcatNothing<T>(asT: Option<string -> T>)
    ensures ConcatAll([], asT) == Success([])
  {
  }

  /** When T is string, a foreign object contributes its converted string form. */
  lemma ForeignBecomesString<T>(text: string, asT: string -> T)
    ensures ConcatAll([Foreign(text)], Some(asT)) == Success([asT(text)])
  {
    var args: seq<Arg<T>> := [Foreign(text)];
    assert args[..0] == [];
    assert [] + [asT(text)] == [asT(text)];
  }

  /** When T is not string, a foreign object fails the call whatever follows it. */
  lemma ForeignRejected<T>(text: string, rest: seq<Arg<T>>)
    ensures ConcatAll([Foreign(text)] + rest, None) == Failure(TypeLoad)
  {
    var args: seq<Arg<T>> := [Foreign(text)] + rest;
    assert args[..0] == [];
    ConcatStopsAtFailure(args, None, 0);
  }

  /** The source's test: {3, 4, 5, 6}, 7 and {-1, 0, 1, 2} give {3, 4, 5, 6, 7, -1, 0, 1, 2}. */
  lemma ConcatTestCase()
    ensures ConcatAll([Many([3, 4, 5, 6]), Single(7), Many([-1, 0, 1, 2])], None)
         == Success([3, 4, 5, 6, 7, -1, 0, 1, 2])
  {
    var args := [Many([3, 4, 5, 6]), Single(7), Many([-1, 0, 1, 2])];
    var one: seq<Arg<int>> := [Many([3, 4, 5, 6])];
    var two := one + [Single(7)];
    assert one[..0] == [];
    assert ConcatAll(one[..0], None) == Success([]);
    assert [] + [3, 4, 5, 6] == [3, 4, 5, 6];
    assert ConcatAll(one, None) == Success([3, 4, 5, 6]);
    assert two[..1] == one && two[1] == Single(7);
    assert [3, 4, 5, 6] + [7] == [3, 4, 5, 6, 7];
    assert ConcatAll(two, None) == Success([3, 4, 5, 6, 7]);
    assert args[..2] == two && args[2] == Many([-1, 0, 1, 2]);
    assert [3, 4, 5, 6, 7] + [-1, 0, 1, 2] == [3, 4, 5, 6, 7, -1, 0, 1, 2];
  }
}
