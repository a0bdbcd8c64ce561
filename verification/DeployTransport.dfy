/**
 Dispatching one deployment and waiting for the receiver's run
 (tools/app_deploy_transport.py), as a sequence of calls to a remote that
 answers, or fails to answer, as it pleases.
 */
module DeployTransport {
  import opened Wrappers
  import opened Text
  import opened Sorting
  import opened Json
  import opened DeployRequest

  /** The calls of one dispatch, in order. */
  datatype Call = GetRuns | PostDispatch(payload: Fields) | FetchLogs(id: nat) | Sleep

  /** What `api` gives for one call: a value, or an exception. */
  datatype Reply = Answer(body: Json) | Fault

  datatype LogReply = Logs(bytes: string) | LogFault

  /** All the remote ever does, indexed by the number of calls made before. */
  datatype Remote = Remote(api: nat -> Reply, logs: (nat, nat) -> LogReply)

  datatype Error =
    | InvalidRequest(e: RequestError) | ApiFault | MalformedRuns | BadRunId
    | Ambiguous(watermark: nat, ids: seq<nat>) | Concluded(id: nat, conclusion: Json)
    | LogsLackRequest(id: nat) | NoCanonicalUrl(id: nat) | TimedOut(watermark: nat)

  /** A `ReceiverRun`, or the exception raised. */
  datatype Outcome = Returned(id: nat, url: string) | Raised(e: Error)

  // ---- reading a run list ----

  /** `_workflow_runs` */
  function WorkflowRuns(payload: Json): Option<seq<Fields>> {
    if !payload.Obj? then None
    else match Get(payload.fields, "workflow_runs")
      case Arr(items) => if forall i :: 0 <= i < |items| ==> items[i].Obj?
                         then Some(seq(|items|, i requires 0 <= i < |items| => items[i].fields)) else None
      case _ => None
  }

  /** `_run_id`; no result where it raises. */
  function RunId(run: Fields): Option<nat> {
    match Get(run, "id")
    case Int(n) => if n > 0 then Some(n) else None
    case _ => None
  }

  predicate IdsAreGood(runs: seq<Fields>) {
    forall i :: 0 <= i < |runs| ==> RunId(runs[i]).Some?
  }

  function Max(a: nat, b: nat): nat {
    if a >= b then a else b
  }

  /** `max((_run_id(run) for run in runs), default=0)` */
  function Watermark(runs: seq<Fields>): nat
    requires IdsAreGood(runs)
  {
    if |runs| == 0 then 0 else Max(RunId(runs[0]).value, Watermark(runs[1..]))
  }

  /** The runs above the watermark, in list order. */
  function Candidates(runs: seq<Fields>, watermark: nat): seq<Fields>
    requires IdsAreGood(runs)
  {
    if |runs| == 0 then []
    else (if RunId(runs[0]).value > watermark then [runs[0]] else []) + Candidates(runs[1..], watermark)
  }

  function Ids(runs: seq<Fields>): seq<nat> {
    if |runs| == 0 then [] else (if RunId(runs[0]).Some? then [RunId(runs[0]).value] else []) + Ids(runs[1..])
  }

  predicate NatLe(a: nat, b: nat) { a <= b }

  // ---- one poll ----

  /** What a poll makes of the reply: go on, give up, or look at a finished run. */
  datatype Verdict = Pending | Stop(e: Error) | Ready(run: Fields)

  function JudgeRuns(runs: seq<Fields>, watermark: nat): Verdict
    requires IdsAreGood(runs)
  {
    var candidates := Candidates(runs, watermark);
    if |candidates| > 1 then Stop(Ambiguous(watermark, Sort(Ids(candidates), NatLe)))
    else if |candidates| == 0 then Pending
    else if Get(candidates[0], "status") != Str("completed") then Pending
    else Ready(candidates[0])
  }

  function Judge(reply: Reply, watermark: nat): Verdict {
    match reply
    case Fault => Stop(ApiFault)
    case Answer(body) =>
      match WorkflowRuns(body)
      case None => Stop(MalformedRuns)
      case Some(runs) => if IdsAreGood(runs) then JudgeRuns(runs, watermark) else Stop(BadRunId)
  }

  const INFRA_REPOSITORY := "wangzitian0/infra2"
  const URL_PREFIX := "https://github.com/" + INFRA_REPOSITORY + "/actions/runs/"

  predicate IsRunUrl(url: Json) {
    url.Str? && URL_PREFIX <= url.s
  }

  /** What a finished run leads to, and whether its logs are fetched. */
  function Conclude(run: Fields, id: nat, requestId: string, logs: LogReply): (Outcome, seq<Call>) {
    if Get(run, "conclusion") != Str("success") then (Raised(Concluded(id, Get(run, "conclusion"))), [])
    else match logs
      case LogFault => (Raised(ApiFault), [FetchLogs(id)])
      case Logs(bytes) =>
        if !Contains(requestId, bytes) then (Raised(LogsLackRequest(id)), [FetchLogs(id)])
        else if !IsRunUrl(Get(run, "html_url")) then (Raised(NoCanonicalUrl(id)), [FetchLogs(id)])
        else (Returned(id, Get(run, "html_url").s), [FetchLogs(id)])
  }

  /** The GET of attempt `k` is call number 2 + 2k: two calls, and a GET and a sleep per earlier attempt. */
  function PollTime(k: nat): nat {
    2 + 2 * k
  }

  function VerdictAt(remote: Remote, watermark: nat, k: nat): Verdict {
    Judge(remote.api(PollTime(k)), watermark)
  }

  /** What attempt `k` leads to when it does not go on. */
  function ConclusionAt(remote: Remote, watermark: nat, requestId: string, k: nat): (Outcome, seq<Call>)
    requires !VerdictAt(remote, watermark, k).Pending?
  {
    match VerdictAt(remote, watermark, k)
    case Stop(e) => (Raised(e), [])
    case Ready(run) =>
      var id := match RunId(run) case Some(n) => n case None => 0;
      Conclude(run, id, requestId, remote.logs(PollTime(k) + 1, id))
  }

  /** The polls from attempt `k` on. */
  function PollFrom(remote: Remote, watermark: nat, requestId: string, k: nat, maxAttempts: int): (Outcome, seq<Call>)
    decreases maxAttempts - k
  {
    if k >= maxAttempts then (Raised(TimedOut(watermark)), [])
    else if VerdictAt(remote, watermark, k).Pending? then
      var rest := PollFrom(remote, watermark, requestId, k + 1, maxAttempts);
      (rest.0, [GetRuns] + (if k + 1 < maxAttempts then [Sleep] else []) + rest.1)
    else
      var end := ConclusionAt(remote, watermark, requestId, k);
      (end.0, [GetRuns] + end.1)
  }

  /** The watermark the first GET gives, or the exception it leads to. */
  function Baseline(reply: Reply): Result<nat, Error> {
    match reply
    case Fault => Err(ApiFault)
    case Answer(body) =>
      match WorkflowRuns(body)
      case None => Err(MalformedRuns)
      case Some(runs) => if IdsAreGood(runs) then Ok(Watermark(runs)) else Err(BadRunId)
  }

  /** The POST and the polls. */
  function Send(payload: Fields, watermark: nat, requestId: string, remote: Remote, maxAttempts: int): (Outcome, seq<Call>) {
    if remote.api(1).Fault? then (Raised(ApiFault), [PostDispatch(payload)])
    else
      var polls := PollFrom(remote, watermark, requestId, 0, maxAttempts);
      (polls.0, [PostDispatch(payload)] + polls.1)
  }

  /** One whole dispatch: its outcome and its calls. */
  function Dispatch<R>(raw: Fields, sdk: Sdk<R>, parse: UrlParser, remote: Remote, maxAttempts: int): (Outcome, seq<Call>) {
    match RequestFromMapping(raw, sdk, parse)
    case Err(e) => (Raised(InvalidRequest(e)), [])
    case Ok(request) =>
      match Baseline(remote.api(0))
      case Err(e) => (Raised(e), [GetRuns])
      case Ok(watermark) =>
        var sent := Send(sdk.toDict(request), watermark, sdk.requestId(request), remote, maxAttempts);
        (sent.0, [GetRuns] + sent.1)
  }

  lemma PollGoesOn(remote: Remote, watermark: nat, requestId: string, k: nat, maxAttempts: int)
    requires k < maxAttempts && VerdictAt(remote, watermark, k).Pending?
    ensures var here, next := PollFrom(remote, watermark, requestId, k, maxAttempts),
                              PollFrom(remote, watermark, requestId, k + 1, maxAttempts);
            here.0 == next.0 && here.1 == [GetRuns] + ((if k + 1 < maxAttempts then [Sleep] else []) + next.1)
  {
    hide VerdictAt, ConclusionAt;
  }

  lemma PollEnds(remote: Remote, watermark: nat, requestId: string, k: nat, maxAttempts: int)
    requires k < maxAttempts && !VerdictAt(remote, watermark, k).Pending?
    ensures var here, end := PollFrom(remote, watermark, requestId, k, maxAttempts),
                             ConclusionAt(remote, watermark, requestId, k);
            here.0 == end.0 && here.1 == [GetRuns] + end.1
  {
    hide VerdictAt, ConclusionAt;
  }

  lemma PollStops(remote: Remote, watermark: nat, requestId: string, k: nat, maxAttempts: int)
    requires k >= maxAttempts
    ensures PollFrom(remote, watermark, requestId, k, maxAttempts).0 == Raised(TimedOut(watermark))
    ensures PollFrom(remote, watermark, requestId, k, maxAttempts).1 == []
  {
  }

  /** The caller's side of the connection. */
  class Session {
    const remote: Remote
    var calls: seq<Call>

    constructor (remote: Remote)
      ensures this.remote == remote && calls == []
    {
      this.remote, calls := remote, [];
    }

    method Api(call: Call) returns (reply: Reply)
      modifies this
      ensures calls == old(calls) + [call] && reply == remote.api(|old(calls)|)
    {
      reply := remote.api(|calls|);
      calls := calls + [call];
    }

    method Fetch(id: nat) returns (reply: LogReply)
      modifies this
      ensures calls == old(calls) + [FetchLogs(id)] && reply == remote.logs(|old(calls)|, id)
    {
      reply := remote.logs(|calls|, id);
      calls := calls + [FetchLogs(id)];
    }

    method Wait()
      modifies this
      ensures calls == old(calls) + [Sleep]
    {
      calls := calls + [Sleep];
    }

    /** What is done with the lone candidate once it has completed. */
    method Finish(run: Fields, id: nat, requestId: string) returns (o: Outcome)
      modifies this
      ensures o == Conclude(run, id, requestId, remote.logs(|old(calls)|, id)).0
      ensures calls == old(calls) + Conclude(run, id, requestId, remote.logs(|old(calls)|, id)).1
    {
      if Get(run, "conclusion") != Str("success") {
        return Raised(Concluded(id, Get(run, "conclusion")));
      }
      var logs := Fetch(id);
      if logs.LogFault? {
        return Raised(ApiFault);
      }
      if !Contains(requestId, logs.bytes) {
        return Raised(LogsLackRequest(id));
      }
      var url := Get(run, "html_url");
      if !IsRunUrl(url) {
        return Raised(NoCanonicalUrl(id));
      }
      return Returned(id, url.s);
    }

    /** The poll loop of `dispatch_and_wait`. */
    method Poll(watermark: nat, requestId: string, maxAttempts: int) returns (o: Outcome)
      requires |calls| == PollTime(0)
      modifies this
      ensures o == PollFrom(remote, watermark, requestId, 0, maxAttempts).0
      ensures calls == old(calls) + PollFrom(remote, watermark, requestId, 0, maxAttempts).1
    {
      hide Judge, Conclude, PollFrom;
      var attempt := 0;
      ghost var all := PollFrom(remote, watermark, requestId, 0, maxAttempts);
      while attempt < maxAttempts
        invariant attempt >= 0 && (attempt < maxAttempts ==> |calls| == PollTime(attempt))
        invariant PollFrom(remote, watermark, requestId, attempt, maxAttempts).0 == all.0
        invariant calls + PollFrom(remote, watermark, requestId, attempt, maxAttempts).1 == old(calls) + all.1
      {
        ghost var rest := PollFrom(remote, watermark, requestId, attempt, maxAttempts).1;
        ghost var before := calls;
        var reply := Api(GetRuns);
        match Judge(reply, watermark) {
          case Stop(e) =>
            PollEnds(remote, watermark, requestId, attempt, maxAttempts);
            assert calls == before + rest;
            return Raised(e);
          case Pending =>
            PollGoesOn(remote, watermark, requestId, attempt, maxAttempts);
            if attempt + 1 < maxAttempts {
              Wait();
            }
            assert calls + PollFrom(remote, watermark, requestId, attempt + 1, maxAttempts).1 == before + rest;
          case Ready(run) =>
            PollEnds(remote, watermark, requestId, attempt, maxAttempts);
            var id := match RunId(run) case Some(n) => n case None => 0;
            o := Finish(run, id, requestId);
            assert calls == before + rest;
            return;
        }
        attempt := attempt + 1;
      }
      PollStops(remote, watermark, requestId, attempt, maxAttempts);
      return Raised(TimedOut(watermark));
    }

    /** The POST and the polls of `dispatch_and_wait`. */
    method PostAndPoll(payload: Fields, watermark: nat, requestId: string, maxAttempts: int) returns (o: Outcome)
      requires |calls| == 1
      modifies this
      ensures o == Send(payload, watermark, requestId, remote, maxAttempts).0
      ensures calls == old(calls) + Send(payload, watermark, requestId, remote, maxAttempts).1
    {
      var accepted := Api(PostDispatch(payload));
      if accepted.Fault? {
        return Raised(ApiFault);
      }
      o := Poll(watermark, requestId, maxAttempts);
    }

    /** `dispatch_and_wait` */
    method DispatchAndWait<R>(raw: Fields, sdk: Sdk<R>, parse: UrlParser, maxAttempts: int) returns (o: Outcome)
      requires calls == []
      modifies this
      ensures o == Dispatch(raw, sdk, parse, remote, maxAttempts).0
      ensures calls == Dispatch(raw, sdk, parse, remote, maxAttempts).1
    {
      hide RequestFromMapping, Baseline, Send;
      var request := RequestFromMapping(raw, sdk, parse);
      if request.Err? {
        return Raised(InvalidRequest(request.error));
      }
      var canonical := sdk.toDict(request.value);
      var reply := Api(GetRuns);
      var watermark := Baseline(reply);
      if watermark.Err? {
        return Raised(watermark.error);
      }
      o := PostAndPoll(canonical, watermark.value, sdk.requestId(request.value), maxAttempts);
    }
  }
}
