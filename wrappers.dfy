/** Optional values, results with an error message, and the collection of
    a sequence of results the way a loop that raises on its first failure
    would collect them. */
module Wrappers {

  datatype Option<+T> = None | Some(value: T)

  datatype Result<+T> = Success(value: T) | Failure(error: string)

  /** All the values when every item succeeds, else the first failure. */
  function Collect<T>(rs: seq<Result<T>>): Result<seq<T>> {
    if rs == [] then Success([])
    else match rs[0]
      case Failure(e) => Failure(e)
      case Success(v) =>
        match Collect(rs[1..])
        case Failure(e) => Failure(e)
        case Success(vs) => Success([v] + vs)
  }

  /** Collect succeeds exactly when every item does, keeping every value in
      order; otherwise its error is that of the first failing item. */
  lemma {:induction false} CollectSpec<T>(rs: seq<Result<T>>)
    ensures Collect(rs).Success? <==> forall i :: 0 <= i < |rs| ==> rs[i].Success?
    ensures Collect(rs).Success? ==>
      |Collect(rs).value| == |rs| &&
      forall i :: 0 <= i < |rs| ==> Collect(rs).value[i] == rs[i].value
    ensures Collect(rs).Failure? ==>
      exists i :: (0 <= i < |rs| && rs[i].Failure? && Collect(rs).error == rs[i].error &&
                   forall j :: 0 <= j < i ==> rs[j].Success?)
  {
    if rs != [] && rs[0].Success? {
      var tail := rs[1..];
      CollectSpec(tail);
      if Collect(tail).Failure? {
        var i :| 0 <= i < |tail| && tail[i].Failure? && Collect(tail).error == tail[i].error &&
                 forall j :: 0 <= j < i ==> tail[j].Success?;
        assert rs[i + 1] == tail[i];
        forall j | 0 <= j < i + 1 ensures rs[j].Success? {
          if j > 0 { assert rs[j] == tail[j - 1]; }
        }
      } else {
        forall i | 0 <= i < |rs| ensures rs[i].Success? {
          if i > 0 { assert rs[i] == tail[i - 1]; }
        }
      }
    }
  }
}
