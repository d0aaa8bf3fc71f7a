/** Failure values for the operations of the k-medoids engine that raise in the program. */
module Results {

  /** The ways a phase of the engine can raise. */
  datatype Error =
    | EmptyArgMin   // argmin of an empty array (an empty cluster or an empty piece of one)
    | NoSections    // a cluster split into zero pieces
    | NoWorkers     // a worker pool asked for zero processes

  datatype Result<T> = Ok(value: T) | Err(error: Error)

  /** Collecting the results of dispatched tasks in dispatch order: the first task
      that failed aborts the whole collection with its error. */
  function Collect<T>(rs: seq<Result<T>>): (r: Result<seq<T>>)
    ensures r.Ok? <==> forall i :: 0 <= i < |rs| ==> rs[i].Ok?
    ensures r.Ok? ==> |r.value| == |rs| && forall i :: 0 <= i < |rs| ==> r.value[i] == rs[i].value
    ensures r.Err? ==> exists i :: 0 <= i < |rs| && rs[i] == Err(r.error)
                                  && forall j :: 0 <= j < i ==> rs[j].Ok?
  {
    if rs == [] then Ok([])
    else if rs[0].Err? then Err(rs[0].error)
    else
      match Collect(rs[1..])
      case Err(e) => Err(e)
      case Ok(vs) => Ok([rs[0].value] + vs)
  }

  /** A single successful task collects to its value. */
  lemma CollectOne<T>(x: T)
    ensures Collect([Ok(x)]) == Ok([x])
  {
    var rs := [Ok(x)];
    assert rs[1..] == [];
    assert Collect(rs[1..]) == Ok([]);
    assert [rs[0].value] + [] == [x];
  }

  /** The collection fails with the error of the first failed task. */
  lemma CollectFirstError<T>(rs: seq<Result<T>>, i: nat)
    requires i < |rs| && rs[i].Err? && forall j :: 0 <= j < i ==> rs[j].Ok?
    ensures Collect(rs) == Err(rs[i].error)
  {
    var e := Collect(rs).error;
    var t :| 0 <= t < |rs| && rs[t] == Err(e) && forall j :: 0 <= j < t ==> rs[j].Ok?;
    assert t == i;
  }
}
