/**
 * Go's `error` values as the library produces and combines them.
 */
module Errors {

  datatype Option<+T> = None | Some(value: T)

  /** The errors of the logging core. A writer's own failure is whatever the
      writer reports; the library only passes it on or joins it. */
  datatype Error =
    | Failure(reason: string)                   // reported by an output writer or the file system
    | LoggerNotSet                              // "logger is not set" (record without a logger)
    | LoggerNil                                 // "logger is nil" (HTTP payload handler)
    | Joined(errs: seq<Error>)                  // errors.Join of the non-nil errors, in order

  /** The non-nil errors of `errs`, in order. */
  function Present(errs: seq<Option<Error>>): (r: seq<Error>)
    ensures |r| <= |errs|
    ensures forall e :: e in r <==> Some(e) in errs
    ensures r == [] <==> forall i :: 0 <= i < |errs| ==> errs[i].None?
  {
    if errs == [] then []
    else (match errs[0] case Some(e) => [e] case None => []) + Present(errs[1..])
  }

  /** errors.Join over errors already known to be non-nil: nil when there are
      none, otherwise one error wrapping all of them in their order. */
  function JoinAll(errs: seq<Error>): (r: Option<Error>)
    ensures r.None? <==> errs == []
    ensures r.Some? ==> r.value == Joined(errs)
  {
    if errs == [] then None else Some(Joined(errs))
  }

  /** Go's errors.Join: nil when every argument is nil, otherwise one error
      that wraps all the non-nil arguments in their order. */
  function Join(errs: seq<Option<Error>>): (r: Option<Error>)
    ensures r.None? <==> forall i :: 0 <= i < |errs| ==> errs[i].None?
    ensures r.Some? ==> r.value == Joined(Present(errs))
  {
    JoinAll(Present(errs))
  }

  /** The Go idiom `err = errors.Join(err, e)` applied to each e in turn,
      starting from `acc`. */
  function JoinEach(acc: Option<Error>, errs: seq<Option<Error>>): Option<Error>
  {
    if errs == [] then acc else Join([JoinEach(acc, errs[..|errs| - 1]), errs[|errs| - 1]])
  }

  lemma JoinEachSnoc(acc: Option<Error>, errs: seq<Option<Error>>, e: Option<Error>)
    ensures JoinEach(acc, errs + [e]) == Join([JoinEach(acc, errs), e])
  {
    assert (errs + [e])[..|errs|] == errs;
  }

  /** Accumulating errors ends in nil exactly when it started from nil and
      every step contributed nil. */
  lemma {:induction false} JoinEachNilIff(acc: Option<Error>, errs: seq<Option<Error>>)
    ensures JoinEach(acc, errs).None? <==> acc.None? && forall i :: 0 <= i < |errs| ==> errs[i].None?
  {
    if errs != [] {
      var init := errs[..|errs| - 1];
      JoinEachNilIff(acc, init);
      var pair := [JoinEach(acc, init), errs[|errs| - 1]];
      assert Join(pair).None? <==> pair[0].None? && pair[1].None?;
      assert forall i :: 0 <= i < |init| ==> init[i] == errs[i];
    }
  }
}
