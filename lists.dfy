/** The flattening every evaluator ends with: `files.map(...)` collected into one list
    with `res.forEach(val => ret.push(...val))`. */
module Lists {
  import opened Wrappers

  /** The per-item lists of `f`, concatenated in item order. */
  function FlatMap<T, U>(f: T -> seq<U>, xs: seq<T>): (r: seq<U>)
    ensures xs == [] ==> r == []
    ensures (forall i :: 0 <= i < |xs| ==> f(xs[i]) == []) ==> r == []
    ensures (forall i :: 0 <= i < |xs| ==> |f(xs[i])| <= 1) ==> |r| <= |xs|
  {
    if xs == [] then [] else f(xs[0]) + FlatMap(f, xs[1..])
  }

  /** Flattening is taken piece by piece: the block of `xs` comes before the block of `ys`. */
  lemma {:induction false} FlatMapAppend<T, U>(f: T -> seq<U>, xs: seq<T>, ys: seq<T>)
    ensures FlatMap(f, xs + ys) == FlatMap(f, xs) + FlatMap(f, ys)
  {
    if xs == [] {
      assert xs + ys == ys;
    } else {
      assert (xs + ys)[0] == xs[0] && (xs + ys)[1..] == xs[1..] + ys;
      FlatMapAppend(f, xs[1..], ys);
      assert FlatMap(f, xs + ys) == f(xs[0]) + (FlatMap(f, xs[1..]) + FlatMap(f, ys));
    }
  }

  /** Every element of the flattening comes from the list of some item. */
  lemma {:induction false} FlatMapMembers<T, U>(f: T -> seq<U>, xs: seq<T>)
    ensures forall u :: u in FlatMap(f, xs) ==> exists i :: 0 <= i < |xs| && u in f(xs[i])
  {
    if xs != [] {
      FlatMapMembers(f, xs[1..]);
      forall u | u in FlatMap(f, xs) ensures exists i :: 0 <= i < |xs| && u in f(xs[i]) {
        assert FlatMap(f, xs) == f(xs[0]) + FlatMap(f, xs[1..]);
        if u !in f(xs[0]) {
          assert u in FlatMap(f, xs[1..]);
          var i :| 0 <= i < |xs[1..]| && u in f(xs[1..][i]);
          assert xs[1..][i] == xs[i + 1];
        }
      }
    }
  }

  /** The list of a single item is that item's own list. */
  lemma FlatMapSingle<T, U>(f: T -> seq<U>, x: T)
    ensures FlatMap(f, [x]) == f(x)
  {
    assert [x][1..] == [];
  }

  /** `Promise.all` over per-item results that may throw: the first item that throws
      decides the error; otherwise the lists are concatenated in item order. */
  function FlatMapResult<T, U, E>(f: T -> Result<seq<U>, E>, xs: seq<T>): (r: Result<seq<U>, E>)
    ensures r.Success? <==> forall i :: 0 <= i < |xs| ==> f(xs[i]).Success?
    ensures r.Failure? ==> exists i :: (0 <= i < |xs| && f(xs[i]) == Failure(r.error)
      && forall j :: 0 <= j < i ==> f(xs[j]).Success?)
  {
    if xs == [] then Success([])
    else
      match f(xs[0])
      case Failure(e) => Failure(e)
      case Success(v) =>
        match FlatMapResult(f, xs[1..])
        case Failure(e) =>
          assert forall i :: 1 <= i < |xs| ==> xs[i] == xs[1..][i - 1];
          Failure(e)
        case Success(w) =>
          assert forall i :: 1 <= i < |xs| ==> xs[i] == xs[1..][i - 1];
          Success(v + w)
  }

  /** When no item throws, the result is the plain flattening of the per-item lists. */
  lemma {:induction false} FlatMapResultSuccess<T, U, E>(f: T -> Result<seq<U>, E>, g: T -> seq<U>, xs: seq<T>)
    requires forall i :: 0 <= i < |xs| ==> f(xs[i]) == Success(g(xs[i]))
    ensures FlatMapResult(f, xs) == Success(FlatMap(g, xs))
  {
    if xs != [] {
      assert forall i :: 0 <= i < |xs[1..]| ==> xs[1..][i] == xs[i + 1];
      FlatMapResultSuccess(f, g, xs[1..]);
    }
  }
}
