/** Failure-compatible result types shared by every solver.

    `Result` stands for Rust's `anyhow::Result`: the error text is kept for
    readability, but no contract depends on its wording. */
module Wrappers {

  datatype Option<+T> = None | Some(value: T) {
    predicate IsFailure() {
      None?
    }

    function PropagateFailure<U>(): Option<U>
      requires None?
    {
      None
    }

    function Extract(): T
      requires Some?
    {
      value
    }

    function GetOr(default: T): T {
      match this
      case Some(v) => v
      case None => default
    }
  }

  datatype Result<+T> = Ok(value: T) | Err(msg: string) {
    predicate IsFailure() {
      Err?
    }

    function PropagateFailure<U>(): Result<U>
      requires Err?
    {
      Err(msg)
    }

    function Extract(): T
      requires Ok?
    {
      value
    }

    function ToOption(): Option<T> {
      match this
      case Ok(v) => Some(v)
      case Err(_) => None
    }
  }

  /** What a computation that may hit a Rust panic gives back. */
  datatype Outcome<+T> = Finishes(value: T) | Panics

  /** Turns a missing value into an error, like `ok_or_else(|| anyhow!(..))`. */
  function OkOr<T>(o: Option<T>, msg: string): (r: Result<T>)
    ensures r.Ok? <==> o.Some?
    ensures r.Ok? ==> r.value == o.value
  {
    match o
    case Some(v) => Ok(v)
    case None => Err(msg)
  }

  /** `iter().map(f).collect::<Result<Vec<_>>>()`: every element mapped, or
      the error of the first element that fails. */
  function CollectAll<T, U>(xs: seq<T>, f: T --> Result<U>): (r: Result<seq<U>>)
    requires forall i | 0 <= i < |xs| :: f.requires(xs[i])
    ensures r.Ok? <==> forall i | 0 <= i < |xs| :: f(xs[i]).Ok?
    ensures r.Ok? ==> |r.value| == |xs|
    ensures r.Ok? ==> forall i | 0 <= i < |xs| :: f(xs[i]) == Ok(r.value[i])
    ensures r.Err? ==> exists i | 0 <= i < |xs| :: f(xs[i]) == Err(r.msg)
    decreases |xs|
  {
    if xs == [] then Ok([])
    else
      var first :- f(xs[0]);
      var rest :- CollectAll(xs[1..], f);
      assert forall i | 1 <= i < |xs| :: xs[i] == xs[1..][i - 1];
      Ok([first] + rest)
  }
  /** A call that returned normally with a value. */
  predicate Succeeds<U>(o: Outcome<Result<U>>) {
    o.Finishes? && o.value.Ok?
  }

  /** `iter().map(f).collect::<Result<Vec<_>>>()` where `f` may also panic:
      elements are mapped in order, and the first error or panic ends the
      walk. */
  function CollectOutcomes<T, U>(xs: seq<T>, f: T -> Outcome<Result<U>>): (r: Outcome<Result<seq<U>>>)
    ensures Succeeds(r) <==> forall i | 0 <= i < |xs| :: Succeeds(f(xs[i]))
    ensures Succeeds(r) ==> |r.value.value| == |xs|
    ensures Succeeds(r) ==> forall i | 0 <= i < |xs| :: f(xs[i]) == Finishes(Ok(r.value.value[i]))
    ensures r.Panics? <==>
      exists i | 0 <= i < |xs| :: f(xs[i]).Panics? && forall j | 0 <= j < i :: Succeeds(f(xs[j]))
    decreases |xs|
  {
    if xs == [] then Finishes(Ok([]))
    else match f(xs[0])
      case Panics => Panics
      case Finishes(Err(msg)) => Finishes(Err(msg))
      case Finishes(Ok(first)) =>
        var rest := CollectOutcomes(xs[1..], f);
        assert forall i | 1 <= i < |xs| :: xs[i] == xs[1..][i - 1];
        match rest
        case Panics =>
          var k :| 0 <= k < |xs[1..]| && f(xs[1..][k]).Panics? && forall j | 0 <= j < k :: Succeeds(f(xs[1..][j]));
          assert f(xs[k + 1]).Panics? && forall j | 0 <= j < k + 1 :: Succeeds(f(xs[j]));
          Panics
        case Finishes(Err(msg)) =>
          Finishes(Err(msg))
        case Finishes(Ok(tail)) => Finishes(Ok([first] + tail))
  }
}
