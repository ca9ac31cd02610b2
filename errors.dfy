/**
 * The sequential error aggregator `Errors` and the adapter `GetSecond` that
 * turns a two-result callback into one of its inputs.
 *
 * A callback is a zero-argument function; calling it yields its error (None is
 * nil). Which callbacks the aggregator actually invoked is reported as a trace
 * of their indices, so that the short-circuit can be stated.
 */
module Sequential {
  import opened Wrappers

  /** Go's `func() error`. */
  type ErrorResultFunction = () -> Option<Error>

  /** Go's `func() (any, error)`: the first component is discarded by GetSecond. */
  type ErrorResultSecondFunction<T> = () -> (T, Option<Error>)

  /** The adapted callback returns exactly the error component of `cb`. */
  function GetSecond<T>(cb: ErrorResultSecondFunction<T>): (f: ErrorResultFunction)
    ensures f() == cb().1
  {
    () => cb().1
  }

  /** Whatever the discarded first value is, the adapted callbacks agree when the errors do. */
  lemma GetSecondIgnoresValue<T>(cb1: ErrorResultSecondFunction<T>, cb2: ErrorResultSecondFunction<T>)
    requires cb1().1 == cb2().1
    ensures GetSecond(cb1)() == GetSecond(cb2)()
    ensures GetSecond(cb1)() == None <==> cb1().1 == None
  {
  }

  /** What each callback would return if it were invoked. */
  function Outcomes(cbs: seq<ErrorResultFunction>): (outcomes: seq<Option<Error>>)
    ensures |outcomes| == |cbs|
    ensures forall i :: 0 <= i < |cbs| ==> outcomes[i] == cbs[i]()
  {
    seq(|cbs|, i requires 0 <= i < |cbs| => cbs[i]())
  }

  /** The error the aggregator reports for the given callback results. */
  function FirstError(outcomes: seq<Option<Error>>): (r: Option<Error>)
    ensures r.Some? ==> r in outcomes
  {
    if outcomes == [] then None
    else if outcomes[0].Some? then outcomes[0]
    else FirstError(outcomes[1..])
  }

  /** How many callbacks the aggregator invokes for the given callback results. */
  function CallsMade(outcomes: seq<Option<Error>>): (n: nat)
    ensures n <= |outcomes|
    ensures outcomes != [] ==> 0 < n
  {
    if outcomes == [] then 0
    else if outcomes[0].Some? then 1
    else 1 + CallsMade(outcomes[1..])
  }

  /** When outcome i is the first error, it is returned unchanged after exactly i + 1 calls. */
  lemma {:induction false} FirstErrorAt(outcomes: seq<Option<Error>>, i: nat)
    requires i < |outcomes| && outcomes[i].Some?
    requires forall j :: 0 <= j < i ==> outcomes[j].None?
    ensures FirstError(outcomes) == outcomes[i]
    ensures CallsMade(outcomes) == i + 1
  {
    if i > 0 {
      assert outcomes[0].None?;
      FirstErrorAt(outcomes[1..], i - 1);
    }
  }

  /** No error is reported exactly when every callback succeeds, and then all of them ran. */
  lemma {:induction false} FirstErrorNone(outcomes: seq<Option<Error>>)
    ensures FirstError(outcomes).None? <==> forall j :: 0 <= j < |outcomes| ==> outcomes[j].None?
    ensures FirstError(outcomes).None? ==> CallsMade(outcomes) == |outcomes|
  {
    if outcomes != [] {
      FirstErrorNone(outcomes[1..]);
      assert forall j :: 0 < j < |outcomes| ==> outcomes[j] == outcomes[1..][j - 1];
    }
  }

  /**
   * Running the callbacks of `a` and then those of `b` is the same as running
   * `a` and `b` as two nested aggregations: `b` runs only if `a` reported nil.
   */
  lemma {:induction false} FirstErrorAppend(a: seq<Option<Error>>, b: seq<Option<Error>>)
    ensures FirstError(a + b) == FirstError([FirstError(a), FirstError(b)])
    ensures CallsMade(a + b) == if FirstError(a).Some? then CallsMade(a) else |a| + CallsMade(b)
  {
    if a != [] {
      assert (a + b)[1..] == a[1..] + b;
      FirstErrorAppend(a[1..], b);
    } else {
      assert a + b == b;
    }
  }

  /**
   * Errors(cbs...): invokes the callbacks one by one in list order and stops at
   * the first that returns a non-nil error. `calls` lists the indices invoked.
   */
  method Errors(cbs: seq<ErrorResultFunction>) returns (err: Option<Error>, calls: seq<nat>)
    ensures |calls| <= |cbs|
    ensures forall k :: 0 <= k < |calls| ==> calls[k] == k
    ensures err.None? ==> |calls| == |cbs| && forall j :: 0 <= j < |cbs| ==> cbs[j]().None?
    ensures err.Some? ==> 0 < |calls| && err == cbs[|calls| - 1]()
                          && forall j :: 0 <= j < |calls| - 1 ==> cbs[j]().None?
    ensures err == FirstError(Outcomes(cbs)) && |calls| == CallsMade(Outcomes(cbs))
  {
    err, calls := None, [];
    var i := 0;
    while i < |cbs|
      invariant 0 <= i <= |cbs| && |calls| == i
      invariant forall k :: 0 <= k < i ==> calls[k] == k
      invariant forall j :: 0 <= j < i ==> cbs[j]().None?
      invariant err.None?
    {
      err := cbs[i]();
      calls := calls + [i];
      if err.Some? {
        FirstErrorAt(Outcomes(cbs), i);
        return;
      }
      i := i + 1;
    }
    FirstErrorNone(Outcomes(cbs));
  }

  /** The three cases of the aggregator's table-driven test, on the specification. */
  lemma ErrorsTableCases()
    ensures FirstError([]) == None && CallsMade([]) == 0
    ensures FirstError([None, None]) == None && CallsMade([None, None]) == 2
    ensures var e := Some(Error("error two"));
            FirstError([None, e, None]) == e && CallsMade([None, e, None]) == 2
  {
    FirstErrorAt([None, Some(Error("error two")), None], 1);
  }

  /**
   * The documented example: four adapted callbacks, the third of which fails
   * with "KABOOM"; the fourth is never invoked.
   */
  lemma {:induction false} GetSecondFeedsErrors(printed: int, failed: int)
    ensures var cbs := [GetSecond(() => (printed, None)), GetSecond(() => (printed, None)),
                        GetSecond(() => (failed, Some(Error("KABOOM")))), GetSecond(() => (printed, None))];
            FirstError(Outcomes(cbs)) == Some(Error("KABOOM")) && CallsMade(Outcomes(cbs)) == 3
  {
    var cbs := [GetSecond(() => (printed, None)), GetSecond(() => (printed, None)),
                GetSecond(() => (failed, Some(Error("KABOOM")))), GetSecond(() => (printed, None))];
    FirstErrorAt(Outcomes(cbs), 2);
  }
}
