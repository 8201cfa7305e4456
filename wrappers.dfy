/** Optional values and results that can fail, as used across the model. */
module Wrappers {

  datatype Option<+T> = None | Some(value: T)

  /** The exceptions the model represents. */
  datatype Error =
    | KeyError(key: string)            // a record or table lacks a column it reads
    | NegativeSampleSize(k: int)       // random.sample called with a negative k

  datatype Result<+T> = Success(value: T) | Failure(error: Error)

  function Min(a: int, b: int): (m: int)
    ensures m <= a && m <= b && (m == a || m == b)
  {
    if a <= b then a else b
  }

  /** The number of iterations of Python's `range(n)`. */
  function Max0(n: int): (m: nat)
    ensures n >= 0 ==> m == n
    ensures n < 0 ==> m == 0
  {
    if n < 0 then 0 else n
  }

  /** The values of `f` at `0`, ..., `n - 1`, in order: what a `for _ in range(n)` loop appends. */
  function Tabulate<T>(f: nat -> T, n: nat): (r: seq<T>)
    ensures |r| == n
    decreases n
  {
    if n == 0 then [] else Tabulate(f, n - 1) + [f(n - 1)]
  }

  /** Entry `t` of the tabulation is `f(t)`. */
  lemma {:induction false} TabulateAt<T>(f: nat -> T, n: nat, t: nat)
    requires t < n
    ensures Tabulate(f, n)[t] == f(t)
    decreases n
  {
    if t < n - 1 {
      TabulateAt(f, n - 1, t);
    }
  }

  /**
    A sequence of steps that can each fail, run in order: all their values,
    or the error of the first step that fails.
   */
  function Collect<T>(rs: seq<Result<T>>): (r: Result<seq<T>>)
    ensures r.Success? ==> |r.value| == |rs|
    decreases |rs|
  {
    if rs == [] then Success([])
    else
      var earlier := Collect(rs[..|rs| - 1]);
      if earlier.Failure? then earlier
      else if rs[|rs| - 1].Failure? then Failure(rs[|rs| - 1].error)
      else Success(earlier.value + [rs[|rs| - 1].value])
  }

  /** One more step after a successful prefix: its value is appended, or its error ends the run. */
  lemma CollectStep<T>(rs: seq<Result<T>>, j: nat, done: seq<T>)
    requires j < |rs| && Collect(rs[..j]) == Success(done)
    ensures rs[j].Success? ==> Collect(rs[..j + 1]) == Success(done + [rs[j].value])
    ensures rs[j].Failure? ==> Collect(rs[..j + 1]) == Failure(rs[j].error)
  {
    assert rs[..j + 1][..j] == rs[..j];
  }

  /** A failed prefix decides the whole run. */
  lemma {:induction false} CollectFailureSticks<T>(rs: seq<Result<T>>, j: nat)
    requires j <= |rs| && Collect(rs[..j]).Failure?
    ensures Collect(rs) == Collect(rs[..j])
    decreases |rs|
  {
    if j < |rs| {
      var front := rs[..|rs| - 1];
      assert front[..j] == rs[..j];
      CollectFailureSticks(front, j);
    } else {
      assert rs[..j] == rs;
    }
  }

  /**
    The run succeeds exactly when every step does, and then yields the
    steps' values in order.
   */
  lemma {:induction false} CollectSuccess<T>(rs: seq<Result<T>>)
    ensures Collect(rs).Success? <==> forall i :: 0 <= i < |rs| ==> rs[i].Success?
    ensures Collect(rs).Success? ==> forall i :: 0 <= i < |rs| ==> Collect(rs).value[i] == rs[i].value
    decreases |rs|
  {
    if rs != [] {
      var front := rs[..|rs| - 1];
      CollectSuccess(front);
      assert forall i :: 0 <= i < |front| ==> front[i] == rs[i];
    }
  }

  /** A failing run reports the error of its first failing step. */
  lemma {:induction false} CollectFirstFailure<T>(rs: seq<Result<T>>, k: nat)
    requires k < |rs| && rs[k].Failure?
    requires forall i :: 0 <= i < k ==> rs[i].Success?
    ensures Collect(rs) == Failure(rs[k].error)
    decreases |rs|
  {
    var front := rs[..|rs| - 1];
    if k < |rs| - 1 {
      assert forall i :: 0 <= i < k ==> front[i] == rs[i];
      CollectFirstFailure(front, k);
    } else {
      CollectSuccess(front);
      assert forall i :: 0 <= i < |front| ==> front[i] == rs[i];
    }
  }
}
