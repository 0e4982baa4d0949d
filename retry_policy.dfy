/** The outer retry loop of get_ukg_report: re-run the whole
    execute-and-fetch up to `retries` times, waiting five seconds after every
    attempt that raises, and stop at the first that does not. */
module RetryPolicy {
  import opened Outcomes
  import opened ReportJob

  /** Seconds slept after an attempt that raises. */
  const RetryDelaySeconds: nat := 5

  /** Index of the first successful outcome, or `|outcomes|` when none is. */
  function FirstOk(outcomes: seq<Result<string>>): (k: nat)
    ensures k <= |outcomes|
    ensures forall i :: 0 <= i < k ==> outcomes[i].Err?
    ensures k < |outcomes| ==> outcomes[k].Ok?
  {
    if outcomes == [] then 0
    else if outcomes[0].Ok? then 0
    else 1 + FirstOk(outcomes[1..])
  }

  /** Every attempt's script answers every poll of an inner loop whose budget
      is `retries` too. */
  predicate Scripted(attempts: seq<Attempt>, retries: nat) {
    retries <= |attempts| && forall i :: 0 <= i < retries ==> Covers(attempts[i], retries)
  }

  /** What each attempt in the budget would return; the inner poll budget is
      the same `retries`. */
  function AttemptResults(attempts: seq<Attempt>, retries: nat): (outcomes: seq<Result<string>>)
    requires Scripted(attempts, retries)
  {
    seq(retries, i requires 0 <= i < retries => FetchResult(attempts[i], retries))
  }

  /** The value of `data` after the loop: the first successful attempt's
      payload, or unbound when every attempt raised. */
  function RetryOutcome(attempts: seq<Attempt>, retries: nat): Result<string>
    requires Scripted(attempts, retries)
  {
    var outcomes := AttemptResults(attempts, retries);
    var k := FirstOk(outcomes);
    if k < retries then outcomes[k] else Err(DataUnbound)
  }

  /** The retry loop: `tries` counts the execute_and_fetch calls, `waits` the
      five-second sleeps. */
  method FetchWithRetries(attempts: seq<Attempt>, retries: nat)
    returns (tries: nat, waits: nat, data: Result<string>)
    requires Scripted(attempts, retries)
    ensures var k := FirstOk(AttemptResults(attempts, retries));
      && tries == (if k < retries then k + 1 else retries)
      && waits == k
      && data == RetryOutcome(attempts, retries)
  {
    ghost var outcomes := AttemptResults(attempts, retries);
    data := Err(DataUnbound);
    tries, waits := 0, 0;
    for i := 0 to retries
      invariant tries == i && waits == i
      invariant data == Err(DataUnbound)
      invariant forall j :: 0 <= j < i ==> outcomes[j].Err?
    {
      tries := tries + 1;
      var pauses, result := ExecuteAndFetch(attempts[i], retries);
      assert result == outcomes[i];
      if result.Ok? {
        data := result;
        assert FirstOk(outcomes) == i;
        break;
      }
      waits := waits + 1;
    }
    assert data.Err? ==> FirstOk(outcomes) == retries;
  }

  /** `data` is bound exactly when some attempt in the budget succeeds, and
      then it is the first success. */
  lemma RetrySucceedsIff(attempts: seq<Attempt>, retries: nat)
    requires Scripted(attempts, retries)
    ensures RetryOutcome(attempts, retries).Ok?
        <==> exists i :: 0 <= i < retries && FetchResult(attempts[i], retries).Ok?
    ensures forall i :: (0 <= i < retries && FetchResult(attempts[i], retries).Ok?
      ==> exists j :: 0 <= j <= i && RetryOutcome(attempts, retries) == FetchResult(attempts[j], retries))
  {
    var outcomes := AttemptResults(attempts, retries);
    var k := FirstOk(outcomes);
    assert forall i :: 0 <= i < retries ==> outcomes[i] == FetchResult(attempts[i], retries);
    if k < retries {
      assert outcomes[k].Ok?;
    }
  }

  /** Two attempts that raise, then one that succeeds: three tries, two
      waits, and the result of the third attempt as if it had been the only
      one. */
  lemma RetryScenarioThird(attempts: seq<Attempt>)
    requires Scripted(attempts, 3)
    requires FetchResult(attempts[0], 3).Err? && FetchResult(attempts[1], 3).Err?
    requires FetchResult(attempts[2], 3).Ok?
    ensures FirstOk(AttemptResults(attempts, 3)) == 2
    ensures RetryOutcome(attempts, 3) == FetchResult(attempts[2], 3)
  {
    var outcomes := AttemptResults(attempts, 3);
    assert outcomes[0].Err? && outcomes[1].Err? && outcomes[2].Ok?;
  }
}
