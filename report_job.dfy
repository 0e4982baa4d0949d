/** One execute-and-fetch attempt: submit the report, then poll its status
    a bounded number of times (execute_and_fetch). The remote service is a
    script of the replies it gives, in order. */
module ReportJob {
  import opened Outcomes

  /** The `Status` field of a RetrieveReport response header; `Other` is any
      string besides the three the loop compares against. */
  datatype Status = Failed | Working | Completed | Other

  /** What one RetrieveReport call gives: it raises, or it answers with a
      status and a report stream that may be absent. */
  datatype Reply = Raised | Answer(status: Status, stream: Option<string>)

  /** One outer attempt as the service plays it: LogOnWithToken or
      ExecuteReport raises, or the report is submitted and the service
      answers the status polls with `replies`. */
  datatype Attempt = SubmitRaises | Submitted(replies: seq<Reply>)

  /** The loop leaves after this reply: on Failed, on Completed, or because
      the call raised. */
  predicate Stops(r: Reply) {
    r.Raised? || r.status == Failed || r.status == Completed
  }

  /** This reply makes the loop sleep before the next attempt. */
  predicate IsWorking(r: Reply) {
    r.Answer? && r.status == Working
  }

  /** Number of Working answers in `rs`. */
  function WorkingCount(rs: seq<Reply>): nat {
    if rs == [] then 0
    else WorkingCount(rs[..|rs| - 1]) + (if IsWorking(rs[|rs| - 1]) then 1 else 0)
  }

  /** How many RetrieveReport calls the loop makes with a budget of `budget`:
      up to and including the first reply that stops it, or the whole budget
      when none does. */
  function CallsMade(replies: seq<Reply>, budget: nat): (calls: nat)
    requires budget <= |replies|
    ensures calls <= budget
    ensures calls == 0 <==> budget == 0
    ensures forall i :: 0 <= i < calls - 1 ==> !Stops(replies[i])
    ensures 0 < calls < budget ==> Stops(replies[calls - 1])
    decreases budget
  {
    if budget == 0 then 0
    else if Stops(replies[0]) then 1
    else 1 + CallsMade(replies[1..], budget - 1)
  }

  /** What `r['body']['ReportStream']` yields for the last reply fetched. */
  function Payload(r: Reply): Result<string> {
    match r
    case Raised => Err(RetrieveFailed)
    case Answer(_, None) => Err(MissingReportStream)
    case Answer(_, Some(body)) => Ok(body)
  }

  /** The value execute_and_fetch returns once the report is submitted: the
      payload of the last reply fetched, whatever its status. */
  function PollResult(replies: seq<Reply>, budget: nat): Result<string>
    requires budget <= |replies|
  {
    if budget == 0 then Err(ResponseUnbound)
    else Payload(replies[CallsMade(replies, budget) - 1])
  }

  /** The script holds a reply for every poll the budget allows. */
  predicate Covers(a: Attempt, budget: nat) {
    a.Submitted? ==> budget <= |a.replies|
  }

  /** What one execute_and_fetch call returns (or raises). */
  function FetchResult(a: Attempt, budget: nat): Result<string>
    requires Covers(a, budget)
  {
    match a
    case SubmitRaises => Err(SubmissionFailed)
    case Submitted(replies) => PollResult(replies, budget)
  }

  /** The poll loop: fetch the status up to `retries` times, leave on Failed
      or Completed, sleep after every Working. `calls` counts the
      RetrieveReport calls and `pauses` the sleeps. */
  method PollReport(replies: seq<Reply>, retries: nat)
    returns (calls: nat, pauses: nat, response: Result<string>)
    requires retries <= |replies|
    ensures calls == CallsMade(replies, retries)
    ensures pauses == WorkingCount(replies[..calls])
    ensures response == PollResult(replies, retries)
  {
    var r: Option<Reply> := None;
    calls, pauses := 0, 0;
    for retry := 0 to retries
      invariant calls == retry
      invariant forall i :: 0 <= i < retry ==> !Stops(replies[i])
      invariant pauses == WorkingCount(replies[..retry])
      invariant r == if retry == 0 then None else Some(replies[retry - 1])
    {
      r := Some(replies[retry]);
      calls := calls + 1;
      assert replies[..retry + 1][..retry] == replies[..retry];
      if replies[retry].Raised? {
        break;
      }
      match replies[retry].status
      case Failed =>
        break;
      case Working =>
        pauses := pauses + 1;
      case Completed =>
        break;
      case Other =>
    }
    response := if r.None? then Err(ResponseUnbound) else Payload(r.value);
  }

  /** One execute_and_fetch call: log on and submit, then poll with the same
      budget. */
  method ExecuteAndFetch(a: Attempt, retries: nat) returns (pauses: nat, result: Result<string>)
    requires Covers(a, retries)
    ensures result == FetchResult(a, retries)
    ensures pauses == if a.SubmitRaises? then 0
                      else WorkingCount(a.replies[..CallsMade(a.replies, retries)])
  {
    match a
    case SubmitRaises =>
      pauses, result := 0, Err(SubmissionFailed);
    case Submitted(replies) =>
      var calls;
      calls, pauses, result := PollReport(replies, retries);
  }

  /** A reply that stops the loop at index `j` is the last one fetched: the
      loop made `j + 1` calls, slept once per Working reply before it, and
      returns its payload. */
  lemma {:induction false} PollStopsAt(replies: seq<Reply>, budget: nat, j: nat)
    requires budget <= |replies| && j < budget
    requires Stops(replies[j])
    requires forall i :: 0 <= i < j ==> !Stops(replies[i])
    ensures CallsMade(replies, budget) == j + 1
    ensures WorkingCount(replies[..j + 1]) == WorkingCount(replies[..j])
    ensures PollResult(replies, budget) == Payload(replies[j])
  {
    assert replies[..j + 1][..j] == replies[..j];
  }

  /** When every reply in the budget is Working the loop makes every call,
      sleeps after each of them, the last one included, and returns the last
      body even though the report is not complete. */
  lemma {:induction false} PollAllWorking(replies: seq<Reply>, budget: nat)
    requires 0 < budget <= |replies|
    requires forall i :: 0 <= i < budget ==> IsWorking(replies[i])
    ensures CallsMade(replies, budget) == budget
    ensures WorkingCount(replies[..budget]) == budget
    ensures PollResult(replies, budget) == Payload(replies[budget - 1])
  {
    AllWorkingCount(replies[..budget]);
  }

  lemma {:induction false} AllWorkingCount(rs: seq<Reply>)
    requires forall i :: 0 <= i < |rs| ==> IsWorking(rs[i])
    ensures WorkingCount(rs) == |rs|
    decreases |rs|
  {
    if rs != [] {
      AllWorkingCount(rs[..|rs| - 1]);
    }
  }

  /** The loop never sleeps more often than it calls. */
  lemma {:induction false} PausesAtMostCalls(rs: seq<Reply>)
    ensures WorkingCount(rs) <= |rs|
    decreases |rs|
  {
    if rs != [] {
      PausesAtMostCalls(rs[..|rs| - 1]);
    }
  }

  /** Working, Working, Completed with a budget of three: three calls, two
      sleeps, and the third body. */
  lemma PollScenarioCompleted(b1: Option<string>, b2: Option<string>, body: string)
    ensures var replies := [Answer(Working, b1), Answer(Working, b2), Answer(Completed, Some(body))];
      && CallsMade(replies, 3) == 3
      && WorkingCount(replies[..3]) == 2
      && PollResult(replies, 3) == Ok(body)
  {
    var replies := [Answer(Working, b1), Answer(Working, b2), Answer(Completed, Some(body))];
    PollStopsAt(replies, 3, 2);
    AllWorkingCount(replies[..2]);
  }

  /** Failed on the first call: one call, no sleep. */
  lemma PollScenarioFailed(replies: seq<Reply>, budget: nat)
    requires 0 < budget <= |replies|
    requires replies[0] == Answer(Failed, None)
    ensures CallsMade(replies, budget) == 1
    ensures WorkingCount(replies[..CallsMade(replies, budget)]) == 0
    ensures PollResult(replies, budget) == Err(MissingReportStream)
  {
  }
}
