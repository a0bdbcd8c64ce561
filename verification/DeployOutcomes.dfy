/**
 Exactly how a dispatch ends (tools/app_deploy_transport.py): for each outcome,
 what the remote must have answered, in terms of the JSON it sent.
 */
module DeployOutcomes {
  import opened Wrappers
  import opened Text
  import opened Sorting
  import opened Json
  import opened DeployRequest
  import opened DeployTransport
  import opened DeployProtocol

  // ---- what a body must look like ----

  /** A response body that lists exactly these runs. */
  ghost predicate Lists(body: Json, runs: seq<Fields>) {
    body.Obj? && Get(body.fields, "workflow_runs") == Arr(seq(|runs|, i requires 0 <= i < |runs| => Obj(runs[i])))
  }

  /** A run with this positive integer for an id. */
  ghost predicate HasId(run: Fields, id: int) {
    id > 0 && Get(run, "id") == Int(id)
  }

  ghost predicate HasAnId(run: Fields) {
    exists id :: HasId(run, id)
  }

  ghost predicate AllHaveIds(runs: seq<Fields>) {
    forall i: nat :: i < |runs| ==> HasAnId(runs[i])
  }

  lemma RunIdIsId(run: Fields, id: nat)
    ensures RunId(run) == Some(id) <==> HasId(run, id)
  {
  }

  /** A run list is read exactly when the body is an object with an array of objects. */
  lemma RunsAreListed(body: Json, runs: seq<Fields>)
    ensures WorkflowRuns(body) == Some(runs) <==> Lists(body, runs)
  {
    var objects := seq(|runs|, i requires 0 <= i < |runs| => Obj(runs[i]));
    if WorkflowRuns(body) == Some(runs) {
      var items := Get(body.fields, "workflow_runs").items;
      assert items == objects;
    }
    if Lists(body, runs) {
      assert forall i :: 0 <= i < |objects| ==> objects[i].Obj? && objects[i].fields == runs[i];
      assert WorkflowRuns(body).value == runs;
    }
  }

  lemma RunIdIsThere(run: Fields)
    ensures RunId(run).Some? <==> HasAnId(run)
  {
    if RunId(run).Some? { RunIdIsId(run, RunId(run).value); }
  }

  lemma IdsAreGoodIfAllHave(runs: seq<Fields>)
    ensures IdsAreGood(runs) <==> AllHaveIds(runs)
  {
    forall i: nat | i < |runs| ensures RunId(runs[i]).Some? <==> HasAnId(runs[i]) {
      RunIdIsThere(runs[i]);
    }
    assert forall i :: 0 <= i < |runs| ==> (RunId(runs[i]).Some? <==> HasAnId(runs[i]));
  }

  // ---- the watermark ----

  /** The largest id listed, or 0 for an empty list. */
  ghost predicate IsNewest(runs: seq<Fields>, watermark: nat) {
    && (forall i: nat, id :: i < |runs| && HasId(runs[i], id) ==> id <= watermark)
    && (if |runs| == 0 then watermark == 0 else exists i: nat :: i < |runs| && HasId(runs[i], watermark))
  }

  lemma {:induction false} WatermarkIsNewest(runs: seq<Fields>)
    requires IdsAreGood(runs)
    ensures IsNewest(runs, Watermark(runs))
  {
    if |runs| > 0 {
      WatermarkIsNewest(runs[1..]);
      RunIdIsId(runs[0], RunId(runs[0]).value);
      forall i: nat, id | i < |runs| && HasId(runs[i], id) ensures id <= Watermark(runs) {
        if i > 0 { assert runs[1..][i - 1] == runs[i]; } else { RunIdIsId(runs[0], id); }
      }
      if Watermark(runs) == RunId(runs[0]).value {
        assert HasId(runs[0], Watermark(runs));
      } else if |runs| > 1 {
        var i: nat :| i < |runs[1..]| && HasId(runs[1..][i], Watermark(runs[1..]));
        assert HasId(runs[i + 1], Watermark(runs));
      }
    }
  }

  lemma NewestIsOne(runs: seq<Fields>, a: nat, b: nat)
    requires IsNewest(runs, a) && IsNewest(runs, b)
    ensures a == b
  {
  }

  /** The first GET gives a watermark exactly when it lists runs with ids, and then the largest of them. */
  lemma BaselineIsNewest(reply: Reply, watermark: nat)
    ensures Baseline(reply) == Ok(watermark)
            <==> reply.Answer? && exists runs :: Lists(reply.body, runs) && AllHaveIds(runs) && IsNewest(runs, watermark)
  {
    if reply.Answer? {
      forall runs ensures WorkflowRuns(reply.body) == Some(runs) <==> Lists(reply.body, runs) {
        RunsAreListed(reply.body, runs);
      }
      hide WorkflowRuns, Lists, Watermark, IsNewest, IdsAreGood, AllHaveIds;
      forall runs ensures IdsAreGood(runs) <==> AllHaveIds(runs) {
        IdsAreGoodIfAllHave(runs);
      }
      if WorkflowRuns(reply.body).Some? && IdsAreGood(WorkflowRuns(reply.body).value) {
        WatermarkIsNewest(WorkflowRuns(reply.body).value);
      }
      if runs :| Lists(reply.body, runs) && AllHaveIds(runs) && IsNewest(runs, watermark) {
        NewestIsOne(runs, Watermark(runs), watermark);
      }
    }
  }

  /** The list a reply shows is the one its body holds, if all its runs have ids. */
  lemma ShownIsListed(reply: Reply, runs: seq<Fields>)
    ensures Shown(reply) == Some(runs) <==> reply.Answer? && Lists(reply.body, runs) && AllHaveIds(runs)
  {
    if reply.Answer? { RunsAreListed(reply.body, runs); }
    IdsAreGoodIfAllHave(runs);
    hide WorkflowRuns, Lists, IdsAreGood, AllHaveIds;
  }

  // ---- replies that cannot be read, and ambiguous ones ----

  /** A GET fails, or its body holds no run list, or a run without an id. */
  ghost predicate ReadFails(reply: Reply, e: Error) {
    match e
    case ApiFault => reply.Fault?
    case MalformedRuns => reply.Answer? && forall runs :: !Lists(reply.body, runs)
    case BadRunId => reply.Answer? && exists runs :: Lists(reply.body, runs) && !AllHaveIds(runs)
    case _ => false
  }

  ghost function CountId(runs: seq<Fields>, id: nat): nat {
    if |runs| == 0 then 0 else (if HasId(runs[0], id) then 1 else 0) + CountId(runs[1..], id)
  }

  ghost predicate Increasing(ids: seq<nat>) {
    forall i, j :: 0 <= i < j < |ids| ==> ids[i] <= ids[j]
  }

  /** The ids above the watermark, each as often as it is listed, in increasing order. */
  ghost predicate IdsAbove(runs: seq<Fields>, watermark: nat, ids: seq<nat>) {
    && Increasing(ids)
    && forall id: nat :: multiset(ids)[id] == if id > watermark then CountId(runs, id) else 0
  }

  /** Two or more runs above the watermark. */
  ghost predicate ShowsMany(reply: Reply, watermark: nat, ids: seq<nat>) {
    reply.Answer? && |ids| > 1 && exists runs :: Lists(reply.body, runs) && AllHaveIds(runs) && IdsAbove(runs, watermark, ids)
  }

  lemma {:induction false} SortedIsUnique(a: seq<nat>, b: seq<nat>)
    requires Increasing(a) && Increasing(b) && multiset(a) == multiset(b)
    ensures a == b
  {
    if a != [] && b != [] {
      LeastIsFirst(a, b);
      LeastIsFirst(b, a);
      TailContents(a);
      TailContents(b);
      assert Increasing(a[1..]) && Increasing(b[1..]);
      SortedIsUnique(a[1..], b[1..]);
      assert a == [a[0]] + a[1..] && b == [b[0]] + b[1..];
    } else {
      assert |multiset(a)| == |a| && |multiset(b)| == |b|;
    }
  }

  lemma LeastIsFirst(a: seq<nat>, b: seq<nat>)
    requires a != [] && b != [] && Increasing(a) && multiset(a) == multiset(b)
    ensures a[0] <= b[0]
  {
    assert b[0] in multiset(b);
    assert b[0] in a;
  }

  lemma TailContents(a: seq<nat>)
    requires a != []
    ensures multiset(a[1..]) == multiset(a) - multiset{a[0]}
  {
    assert a == [a[0]] + a[1..];
  }

  lemma IdsAboveUnique(runs: seq<Fields>, watermark: nat, a: seq<nat>, b: seq<nat>)
    requires IdsAbove(runs, watermark, a) && IdsAbove(runs, watermark, b)
    ensures a == b
  {
    assert multiset(a) == multiset(b) by {
      forall id: nat ensures multiset(a)[id] == multiset(b)[id] {
      }
    }
    SortedIsUnique(a, b);
  }

  lemma {:induction false} CandidateIds(runs: seq<Fields>, watermark: nat, id: nat)
    requires IdsAreGood(runs)
    ensures var ids := Ids(Candidates(runs, watermark));
            && |ids| == |Candidates(runs, watermark)|
            && multiset(ids)[id] == if id > watermark then CountId(runs, id) else 0
  {
    if |runs| > 0 {
      CandidateIds(runs[1..], watermark, id);
      RunIdIsId(runs[0], id);
      var rest := Candidates(runs[1..], watermark);
      if RunId(runs[0]).value > watermark {
        assert Candidates(runs, watermark) == [runs[0]] + rest;
        assert ([runs[0]] + rest)[1..] == rest;
        assert Ids([runs[0]] + rest) == [RunId(runs[0]).value] + Ids(rest);
      } else {
        assert Candidates(runs, watermark) == rest;
      }
    }
  }

  lemma SortedCandidates(runs: seq<Fields>, watermark: nat)
    requires IdsAreGood(runs)
    ensures var ids := Sort(Ids(Candidates(runs, watermark)), NatLe);
            |ids| == |Candidates(runs, watermark)| && IdsAbove(runs, watermark, ids)
  {
    var ids: seq<nat> := Ids(Candidates(runs, watermark));
    SortIsStable(ids, NatLe);
    assert |multiset(Sort(ids, NatLe))| == |multiset(ids)|;
    forall id: nat ensures multiset(ids)[id] == (if id > watermark then CountId(runs, id) else 0) {
      CandidateIds(runs, watermark, id);
    }
    CandidateIds(runs, watermark, 0);
  }

  /** The verdict of a poll that ends the run at once, for each of its errors. */
  lemma StopsExactly(reply: Reply, watermark: nat, e: Error)
    ensures Judge(reply, watermark) == Stop(e)
            <==> ReadFails(reply, e) || (e.Ambiguous? && e.watermark == watermark && ShowsMany(reply, watermark, e.ids))
  {
    if reply.Answer? {
      BodyIsRead(reply.body);
      var listed := WorkflowRuns(reply.body);
      if listed.Some? && IdsAreGood(listed.value) {
        ManyExactly(listed.value, watermark, e);
        hide WorkflowRuns, Lists, IdsAreGood, AllHaveIds, IdsAbove, JudgeRuns;
      } else {
        hide WorkflowRuns, Lists, IdsAreGood, AllHaveIds, IdsAbove;
      }
    }
  }

  /** The one list a body holds, and whether its runs have ids. */
  lemma BodyIsRead(body: Json)
    ensures forall runs :: WorkflowRuns(body) == Some(runs) <==> Lists(body, runs)
    ensures forall runs :: Lists(body, runs) ==> (IdsAreGood(runs) <==> AllHaveIds(runs))
  {
    forall runs ensures WorkflowRuns(body) == Some(runs) <==> Lists(body, runs)
                ensures IdsAreGood(runs) <==> AllHaveIds(runs)
    {
      RunsAreListed(body, runs);
      IdsAreGoodIfAllHave(runs);
    }
  }

  lemma ManyExactly(runs: seq<Fields>, watermark: nat, e: Error)
    requires IdsAreGood(runs)
    ensures JudgeRuns(runs, watermark) == Stop(e)
            <==> e.Ambiguous? && e.watermark == watermark && |e.ids| > 1 && IdsAbove(runs, watermark, e.ids)
  {
    var ids := Sort(Ids(Candidates(runs, watermark)), NatLe);
    SortedCandidates(runs, watermark);
    hide IdsAbove, Candidates, Sort, Ids, IdsAreGood;
    if e.Ambiguous? && IdsAbove(runs, watermark, e.ids) {
      IdsAboveUnique(runs, watermark, e.ids, ids);
    }
  }

  // ---- what a finished run leads to ----

  /** Poll `k` shows this run alone above the watermark, and completed. */
  ghost predicate ShowsFinished(remote: Remote, watermark: nat, k: nat, id: int, run: Fields) {
    ShowsLone(remote.api(PollTime(k)), watermark, run) && HasId(run, id) && Get(run, "status") == Str("completed")
  }

  /** The run has failed, been cancelled, or ended in any way but a success. */
  ghost predicate Fails(remote: Remote, watermark: nat, k: nat, id: nat, conclusion: Json, run: Fields) {
    ShowsFinished(remote, watermark, k, id, run) && Get(run, "conclusion") == conclusion && conclusion != Str("success")
  }

  ghost predicate Succeeds(remote: Remote, watermark: nat, k: nat, id: nat, run: Fields) {
    ShowsFinished(remote, watermark, k, id, run) && Get(run, "conclusion") == Str("success")
  }

  /** The run has succeeded, but its logs cannot be fetched. */
  ghost predicate LogsFail(remote: Remote, watermark: nat, k: nat, id: nat, run: Fields) {
    Succeeds(remote, watermark, k, id, run) && remote.logs(PollTime(k) + 1, id).LogFault?
  }

  /** The run has succeeded, but its logs do not name the request. */
  ghost predicate LogsLack(remote: Remote, watermark: nat, requestId: string, k: nat, id: nat, run: Fields) {
    && Succeeds(remote, watermark, k, id, run)
    && var logs := remote.logs(PollTime(k) + 1, id); logs.Logs? && forall i :: !OccursAt(requestId, logs.bytes, i)
  }

  /** The run has succeeded and its logs name the request. */
  ghost predicate LogsName(remote: Remote, watermark: nat, requestId: string, k: nat, id: nat, run: Fields) {
    && Succeeds(remote, watermark, k, id, run)
    && var logs := remote.logs(PollTime(k) + 1, id); logs.Logs? && exists i :: OccursAt(requestId, logs.bytes, i)
  }

  ghost predicate HasUrl(run: Fields, url: string) {
    Get(run, "html_url") == Str(url) && "https://github.com/" + "wangzitian0/infra2" + "/actions/runs/" <= url
  }

  /** What poll `k` ends the dispatch with, if it does. */
  ghost predicate LeadsTo(remote: Remote, watermark: nat, requestId: string, k: nat, o: Outcome) {
    match o
    case Returned(id, url) => exists run :: LogsName(remote, watermark, requestId, k, id, run) && HasUrl(run, url)
    case Raised(e) =>
      match e
      case Concluded(id, conclusion) => exists run :: Fails(remote, watermark, k, id, conclusion, run)
      case LogsLackRequest(id) => exists run :: LogsLack(remote, watermark, requestId, k, id, run)
      case NoCanonicalUrl(id) =>
        exists run :: LogsName(remote, watermark, requestId, k, id, run) && forall url :: !HasUrl(run, url)
      case Ambiguous(w, ids) => w == watermark && ShowsMany(remote.api(PollTime(k)), watermark, ids)
      case ApiFault => remote.api(PollTime(k)).Fault? || exists id, run :: LogsFail(remote, watermark, k, id, run)
      case MalformedRuns => ReadFails(remote.api(PollTime(k)), e)
      case BadRunId => ReadFails(remote.api(PollTime(k)), e)
      case _ => false
  }

  lemma UrlIsThere(run: Fields)
    ensures IsRunUrl(Get(run, "html_url")) <==> exists url :: HasUrl(run, url)
  {
    if IsRunUrl(Get(run, "html_url")) { assert HasUrl(run, Get(run, "html_url").s); }
  }

  lemma NameIsThere(requestId: string, bytes: string)
    ensures Contains(requestId, bytes) <==> exists i :: OccursAt(requestId, bytes, i)
  {
  }

  lemma FinishedIsReady(remote: Remote, watermark: nat, k: nat, id: int, run: Fields)
    ensures ShowsFinished(remote, watermark, k, id, run)
            <==> VerdictAt(remote, watermark, k) == Ready(run) && id > 0 && RunId(run) == Some(id)
  {
    ReadyIsLoneAndFinished(remote.api(PollTime(k)), watermark, run);
    hide ShowsLone, Judge;
  }

  /** The checks on a finished run, in order, each with what it reports. */
  lemma ConcludeExactly(remote: Remote, watermark: nat, requestId: string, k: nat, id: nat, run: Fields, o: Outcome)
    requires forall n, r :: ShowsFinished(remote, watermark, k, n, r) <==> n == id && r == run
    requires forall e :: !ReadFails(remote.api(PollTime(k)), e)
    requires forall ids :: !ShowsMany(remote.api(PollTime(k)), watermark, ids)
    ensures Conclude(run, id, requestId, remote.logs(PollTime(k) + 1, id)).0 == o <==> LeadsTo(remote, watermark, requestId, k, o)
  {
    UrlIsThere(run);
    var logs := remote.logs(PollTime(k) + 1, id);
    if logs.Logs? { NameIsThere(requestId, logs.bytes); }
    assert !ReadFails(remote.api(PollTime(k)), ApiFault);
    hide Contains, ShowsFinished, ShowsMany, OccursAt, HasUrl, IsRunUrl;
    assert ShowsFinished(remote, watermark, k, id, run);
    if Get(run, "conclusion") != Str("success") {
      assert Fails(remote, watermark, k, id, Get(run, "conclusion"), run);
    } else if logs.LogFault? {
      assert LogsFail(remote, watermark, k, id, run);
    } else if !Contains(requestId, logs.bytes) {
      assert LogsLack(remote, watermark, requestId, k, id, run);
    } else {
      assert LogsName(remote, watermark, requestId, k, id, run);
    }
  }

  /** A poll that decides anything leads to just one outcome, the one it should. */
  lemma DecisionLeadsTo(remote: Remote, watermark: nat, requestId: string, k: nat, o: Outcome)
    requires !VerdictAt(remote, watermark, k).Pending?
    ensures ConclusionAt(remote, watermark, requestId, k).0 == o <==> LeadsTo(remote, watermark, requestId, k, o)
  {
    var verdict := VerdictAt(remote, watermark, k);
    forall n, r ensures ShowsFinished(remote, watermark, k, n, r) <==> verdict == Ready(r) && n > 0 && RunId(r) == Some(n) {
      FinishedIsReady(remote, watermark, k, n, r);
    }
    forall e ensures verdict == Stop(e)
                     <==> ReadFails(remote.api(PollTime(k)), e)
                          || (e.Ambiguous? && e.watermark == watermark && ShowsMany(remote.api(PollTime(k)), watermark, e.ids)) {
      StopsExactly(remote.api(PollTime(k)), watermark, e);
    }
    match verdict {
      case Stop(e) =>
        hide VerdictAt, ShowsFinished, ShowsMany;
        StopLeadsTo(remote, watermark, requestId, k, e, o);
      case Ready(run) =>
        ReadyHasId(remote.api(PollTime(k)), watermark, run);
        assert forall ids :: !ShowsMany(remote.api(PollTime(k)), watermark, ids) by {
          forall ids ensures !ShowsMany(remote.api(PollTime(k)), watermark, ids) {
            assert verdict != Stop(Ambiguous(watermark, ids));
          }
        }
        hide VerdictAt, ShowsFinished, ShowsMany, Conclude, LeadsTo;
        ConcludeExactly(remote, watermark, requestId, k, RunId(run).value, run, o);
    }
  }

  lemma ReadyHasId(reply: Reply, watermark: nat, run: Fields)
    requires Judge(reply, watermark) == Ready(run)
    ensures RunId(run).Some? && RunId(run).value > 0
  {
    ReadyIsLoneAndFinished(reply, watermark, run);
    LoneHasId(reply, watermark, run);
  }

  lemma StopLeadsTo(remote: Remote, watermark: nat, requestId: string, k: nat, e: Error, o: Outcome)
    requires forall n, r :: !ShowsFinished(remote, watermark, k, n, r)
    requires forall f :: f == e
                    <==> ReadFails(remote.api(PollTime(k)), f)
                         || (f.Ambiguous? && f.watermark == watermark && ShowsMany(remote.api(PollTime(k)), watermark, f.ids))
    ensures Raised(e) == o <==> LeadsTo(remote, watermark, requestId, k, o)
  {
    hide ShowsFinished, ShowsMany, ReadFails, LeadsTo;
    LeadsWithoutRun(remote, watermark, requestId, k, o);
  }

  /** Where no finished run is shown, only the reply itself can lead to anything. */
  lemma LeadsWithoutRun(remote: Remote, watermark: nat, requestId: string, k: nat, o: Outcome)
    requires forall n, r :: !ShowsFinished(remote, watermark, k, n, r)
    ensures LeadsTo(remote, watermark, requestId, k, o)
            <==> o.Raised?
                 && (ReadFails(remote.api(PollTime(k)), o.e)
                     || (o.e.Ambiguous? && o.e.watermark == watermark && ShowsMany(remote.api(PollTime(k)), watermark, o.e.ids)))
  {
    hide ShowsFinished, ShowsMany, OccursAt, HasUrl, Lists, AllHaveIds, Contains;
  }

  /** No poll in time decides anything. */
  ghost predicate NeverDecided(remote: Remote, watermark: nat, maxAttempts: int) {
    maxAttempts > 0 ==> Undecided(remote, watermark, maxAttempts)
  }

  /** The first poll in time that decides anything leads to this outcome; without one the dispatch times out. */
  ghost predicate PollsLeadTo(remote: Remote, watermark: nat, requestId: string, maxAttempts: int, o: Outcome) {
    || (o == Raised(TimedOut(watermark)) && NeverDecided(remote, watermark, maxAttempts))
    || exists k: nat :: k < maxAttempts && Undecided(remote, watermark, k) && LeadsTo(remote, watermark, requestId, k, o)
  }

  /** An undecided poll leads to nothing. */
  lemma PendingLeadsNowhere(remote: Remote, watermark: nat, requestId: string, k: nat, o: Outcome)
    requires VerdictAt(remote, watermark, k).Pending?
    ensures !LeadsTo(remote, watermark, requestId, k, o)
  {
    forall n, r ensures !ShowsFinished(remote, watermark, k, n, r) {
      FinishedIsReady(remote, watermark, k, n, r);
    }
    forall e ensures !ReadFails(remote.api(PollTime(k)), e) {
      StopsExactly(remote.api(PollTime(k)), watermark, e);
    }
    forall ids ensures !ShowsMany(remote.api(PollTime(k)), watermark, ids) {
      StopsExactly(remote.api(PollTime(k)), watermark, Ambiguous(watermark, ids));
    }
    hide VerdictAt, ShowsFinished, ShowsMany, ReadFails, LeadsTo;
    LeadsWithoutRun(remote, watermark, requestId, k, o);
  }

  lemma PollsEndExactly(remote: Remote, watermark: nat, requestId: string, maxAttempts: int, o: Outcome)
    ensures PollFrom(remote, watermark, requestId, 0, maxAttempts).0 == o
            <==> PollsLeadTo(remote, watermark, requestId, maxAttempts, o)
  {
    forall k: nat ensures PendingBefore(remote, watermark, k) <==> Undecided(remote, watermark, k) {
      PendingIsUndecided(remote, watermark, k);
    }
    hide PollFrom, ConclusionAt, VerdictAt, Undecided, LeadsTo;
    match FirstDecision(remote, watermark, 0, maxAttempts) {
      case Some(first) =>
        EndsAtFirstDecision(remote, watermark, requestId, first, maxAttempts);
        DecisionLeadsTo(remote, watermark, requestId, first, o);
        assert !Undecided(remote, watermark, first + 1);
        if k: nat :| k < maxAttempts && Undecided(remote, watermark, k) && LeadsTo(remote, watermark, requestId, k, o) {
          if k < first { PendingLeadsNowhere(remote, watermark, requestId, k, o); }
        }
      case None =>
        EndsByTimeout(remote, watermark, requestId, maxAttempts);
        if k: nat :| k < maxAttempts && Undecided(remote, watermark, k) && LeadsTo(remote, watermark, requestId, k, o) {
          PendingLeadsNowhere(remote, watermark, requestId, k, o);
        }
    }
  }

  // ---- whole dispatches ----

  /** The request is accepted, the baseline read with this watermark, and the POST taken. */
  ghost predicate Sent<R>(raw: Fields, sdk: Sdk<R>, parse: UrlParser, remote: Remote, watermark: nat, requestId: string) {
    var request := RequestFromMapping(raw, sdk, parse);
    && request.Ok? && requestId == sdk.requestId(request.value)
    && Baseline(remote.api(0)) == Ok(watermark) && remote.api(1).Answer?
  }

  lemma BaselineFailsExactly(reply: Reply, e: Error)
    ensures Baseline(reply) == Err(e) <==> ReadFails(reply, e)
  {
    if reply.Answer? {
      forall runs ensures WorkflowRuns(reply.body) == Some(runs) <==> Lists(reply.body, runs) {
        RunsAreListed(reply.body, runs);
      }
      forall runs ensures IdsAreGood(runs) <==> AllHaveIds(runs) {
        IdsAreGoodIfAllHave(runs);
      }
      hide WorkflowRuns, Lists, IdsAreGood, AllHaveIds, Watermark;
    }
  }

  /**
   Every way a dispatch can end, and exactly when: the request is refused, the
   baseline cannot be read, the POST fails, or the polls lead to it.
   */
  lemma DispatchEndsExactly<R>(raw: Fields, sdk: Sdk<R>, parse: UrlParser, remote: Remote, maxAttempts: int, o: Outcome)
    ensures var request := RequestFromMapping(raw, sdk, parse);
            Dispatch(raw, sdk, parse, remote, maxAttempts).0 == o
            <==> (request.Err? && o == Raised(InvalidRequest(request.error)))
                 || (request.Ok? && o.Raised? && ReadFails(remote.api(0), o.e))
                 || (request.Ok? && Baseline(remote.api(0)).Ok? && remote.api(1).Fault? && o == Raised(ApiFault))
                 || exists watermark, requestId ::
                      Sent(raw, sdk, parse, remote, watermark, requestId)
                      && PollsLeadTo(remote, watermark, requestId, maxAttempts, o)
  {
    var request := RequestFromMapping(raw, sdk, parse);
    if o.Raised? { BaselineFailsExactly(remote.api(0), o.e); }
    hide RequestFromMapping, Baseline, PollFrom, PollsLeadTo, ReadFails;
    if request.Ok? && Baseline(remote.api(0)).Ok? && remote.api(1).Answer? {
      var watermark, requestId := Baseline(remote.api(0)).value, sdk.requestId(request.value);
      PollsEndExactly(remote, watermark, requestId, maxAttempts, o);
      assert Sent(raw, sdk, parse, remote, watermark, requestId);
    }
  }

  /** Poll `k` is the first in time to decide anything, of a request that was sent. */
  ghost predicate Reaches<R>(raw: Fields, sdk: Sdk<R>, parse: UrlParser, remote: Remote, maxAttempts: int,
                             watermark: nat, requestId: string, k: nat) {
    Sent(raw, sdk, parse, remote, watermark, requestId) && k < maxAttempts && Undecided(remote, watermark, k)
  }

  /** The errors that only a finished run can lead to. */
  predicate IsOfARun(e: Error) {
    e.Concluded? || e.LogsLackRequest? || e.NoCanonicalUrl?
  }

  lemma DispatchOfARun<R>(raw: Fields, sdk: Sdk<R>, parse: UrlParser, remote: Remote, maxAttempts: int, e: Error)
    requires IsOfARun(e)
    ensures Dispatch(raw, sdk, parse, remote, maxAttempts).0 == Raised(e)
            <==> exists watermark, requestId, k ::
                   Reaches(raw, sdk, parse, remote, maxAttempts, watermark, requestId, k)
                   && LeadsTo(remote, watermark, requestId, k, Raised(e))
  {
    DispatchEndsExactly(raw, sdk, parse, remote, maxAttempts, Raised(e));
    assert !ReadFails(remote.api(0), e);
    hide Dispatch, LeadsTo, Undecided, Sent;
    if watermark, requestId :| Sent(raw, sdk, parse, remote, watermark, requestId)
                               && PollsLeadTo(remote, watermark, requestId, maxAttempts, Raised(e)) {
      var k: nat :| k < maxAttempts && Undecided(remote, watermark, k) && LeadsTo(remote, watermark, requestId, k, Raised(e));
      assert Reaches(raw, sdk, parse, remote, maxAttempts, watermark, requestId, k);
    }
    if watermark, requestId, k :| Reaches(raw, sdk, parse, remote, maxAttempts, watermark, requestId, k)
                                  && LeadsTo(remote, watermark, requestId, k, Raised(e)) {
      assert PollsLeadTo(remote, watermark, requestId, maxAttempts, Raised(e));
    }
  }

  /** A run that did not succeed is reported with its conclusion, whatever its logs and its URL. */
  lemma FailureIsReported<R>(raw: Fields, sdk: Sdk<R>, parse: UrlParser, remote: Remote, maxAttempts: int, id: nat, c: Json)
    ensures Dispatch(raw, sdk, parse, remote, maxAttempts).0 == Raised(Concluded(id, c))
            <==> exists watermark, requestId, k, run ::
                   Reaches(raw, sdk, parse, remote, maxAttempts, watermark, requestId, k)
                   && Fails(remote, watermark, k, id, c, run)
  {
    DispatchOfARun(raw, sdk, parse, remote, maxAttempts, Concluded(id, c));
    hide Dispatch, Reaches, Fails;
  }

  /** A success whose logs do not name the request is reported as such, whatever its URL. */
  lemma MissingNameIsReported<R>(raw: Fields, sdk: Sdk<R>, parse: UrlParser, remote: Remote, maxAttempts: int, id: nat)
    ensures Dispatch(raw, sdk, parse, remote, maxAttempts).0 == Raised(LogsLackRequest(id))
            <==> exists watermark, requestId, k, run ::
                   Reaches(raw, sdk, parse, remote, maxAttempts, watermark, requestId, k)
                   && LogsLack(remote, watermark, requestId, k, id, run)
  {
    DispatchOfARun(raw, sdk, parse, remote, maxAttempts, LogsLackRequest(id));
    hide Dispatch, Reaches, LogsLack;
  }

  /** A success that is named but has no canonical URL is reported last. */
  lemma MissingUrlIsReported<R>(raw: Fields, sdk: Sdk<R>, parse: UrlParser, remote: Remote, maxAttempts: int, id: nat)
    ensures Dispatch(raw, sdk, parse, remote, maxAttempts).0 == Raised(NoCanonicalUrl(id))
            <==> exists watermark, requestId, k, run ::
                   Reaches(raw, sdk, parse, remote, maxAttempts, watermark, requestId, k)
                   && LogsName(remote, watermark, requestId, k, id, run) && forall url :: !HasUrl(run, url)
  {
    DispatchOfARun(raw, sdk, parse, remote, maxAttempts, NoCanonicalUrl(id));
    hide Dispatch, Reaches, LogsName, HasUrl;
  }

  // ---- when logs are fetched ----

  lemma LogsOfDecision(remote: Remote, watermark: nat, requestId: string, k: nat, id: nat)
    requires !VerdictAt(remote, watermark, k).Pending?
    ensures ConclusionAt(remote, watermark, requestId, k).1 == [FetchLogs(id)]
            <==> exists run :: Succeeds(remote, watermark, k, id, run)
    ensures var end := ConclusionAt(remote, watermark, requestId, k).1; end == [] || exists n :: end == [FetchLogs(n)]
  {
    forall n, r ensures ShowsFinished(remote, watermark, k, n, r)
                        <==> VerdictAt(remote, watermark, k) == Ready(r) && n > 0 && RunId(r) == Some(n) {
      FinishedIsReady(remote, watermark, k, n, r);
    }
    if VerdictAt(remote, watermark, k).Ready? {
      ReadyHasId(remote.api(PollTime(k)), watermark, VerdictAt(remote, watermark, k).run);
    }
    hide VerdictAt, ShowsFinished, Contains;
    if VerdictAt(remote, watermark, k).Ready? {
      var run := VerdictAt(remote, watermark, k).run;
      assert ShowsFinished(remote, watermark, k, RunId(run).value, run);
      var end := ConclusionAt(remote, watermark, requestId, k).1;
      assert end == [] || end == [FetchLogs(RunId(run).value)];
      if end == [FetchLogs(id)] { assert end[0] == FetchLogs(id) && Succeeds(remote, watermark, k, id, run); }
    }
  }

  lemma {:induction false} RoundsFetchNothing(k: nat, id: nat)
    ensures FetchLogs(id) !in Rounds(k)
  {
    if k > 0 { RoundsFetchNothing(k - 1, id); }
  }

  lemma PollsFetchExactly(remote: Remote, watermark: nat, requestId: string, maxAttempts: int, id: nat)
    ensures FetchLogs(id) in PollFrom(remote, watermark, requestId, 0, maxAttempts).1
            <==> exists k: nat, run ::
                   k < maxAttempts && Undecided(remote, watermark, k) && Succeeds(remote, watermark, k, id, run)
  {
    forall k: nat ensures PendingBefore(remote, watermark, k) <==> Undecided(remote, watermark, k) {
      PendingIsUndecided(remote, watermark, k);
    }
    forall k: nat, run | Succeeds(remote, watermark, k, id, run) ensures !VerdictAt(remote, watermark, k).Pending? {
      FinishedIsReady(remote, watermark, k, id, run);
    }
    hide PollFrom, ConclusionAt, VerdictAt, Undecided, Succeeds;
    match FirstDecision(remote, watermark, 0, maxAttempts) {
      case Some(first) =>
        EndsAtFirstDecision(remote, watermark, requestId, first, maxAttempts);
        LogsOfDecision(remote, watermark, requestId, first, id);
        RoundsFetchNothing(first, id);
        assert !Undecided(remote, watermark, first + 1);
      case None =>
        EndsByTimeout(remote, watermark, requestId, maxAttempts);
        if maxAttempts > 0 { RoundsFetchNothing(maxAttempts - 1, id); }
    }
  }

  /** Logs are fetched of a run exactly when the first decisive poll shows it alone, completed and successful. */
  lemma LogsAreFetchedExactly<R>(raw: Fields, sdk: Sdk<R>, parse: UrlParser, remote: Remote, maxAttempts: int, id: nat)
    ensures FetchLogs(id) in Dispatch(raw, sdk, parse, remote, maxAttempts).1
            <==> exists watermark, requestId, k, run ::
                   Reaches(raw, sdk, parse, remote, maxAttempts, watermark, requestId, k)
                   && Succeeds(remote, watermark, k, id, run)
  {
    hide RequestFromMapping, Baseline, PollFrom, Undecided, Succeeds;
    var request := RequestFromMapping(raw, sdk, parse);
    if request.Ok? && Baseline(remote.api(0)).Ok? && remote.api(1).Answer? {
      var watermark, requestId := Baseline(remote.api(0)).value, sdk.requestId(request.value);
      PollsFetchExactly(remote, watermark, requestId, maxAttempts, id);
      assert Sent(raw, sdk, parse, remote, watermark, requestId);
      if k: nat, run :| k < maxAttempts && Undecided(remote, watermark, k) && Succeeds(remote, watermark, k, id, run) {
        assert Reaches(raw, sdk, parse, remote, maxAttempts, watermark, requestId, k);
      }
    }
  }

  /** A failing call ends the dispatch, wherever it stands: the baseline, the POST, a poll, or the logs. */
  lemma FaultIsReported<R>(raw: Fields, sdk: Sdk<R>, parse: UrlParser, remote: Remote, maxAttempts: int)
    ensures var accepted, o := RequestFromMapping(raw, sdk, parse).Ok?, Dispatch(raw, sdk, parse, remote, maxAttempts).0;
            o == Raised(ApiFault)
            <==> (accepted && remote.api(0).Fault?)
                 || (accepted && Baseline(remote.api(0)).Ok? && remote.api(1).Fault?)
                 || (exists watermark, requestId, k ::
                       Reaches(raw, sdk, parse, remote, maxAttempts, watermark, requestId, k) && remote.api(PollTime(k)).Fault?)
                 || exists watermark, requestId, k, id, run ::
                      Reaches(raw, sdk, parse, remote, maxAttempts, watermark, requestId, k)
                      && LogsFail(remote, watermark, k, id, run)
  {
    DispatchEndsExactly(raw, sdk, parse, remote, maxAttempts, Raised(ApiFault));
    hide Dispatch, LogsFail, Undecided, Sent, RequestFromMapping;
    if watermark, requestId :| Sent(raw, sdk, parse, remote, watermark, requestId)
                               && PollsLeadTo(remote, watermark, requestId, maxAttempts, Raised(ApiFault)) {
      var k: nat :| k < maxAttempts && Undecided(remote, watermark, k) && LeadsTo(remote, watermark, requestId, k, Raised(ApiFault));
      assert Reaches(raw, sdk, parse, remote, maxAttempts, watermark, requestId, k);
    }
    if watermark, requestId, k :| Reaches(raw, sdk, parse, remote, maxAttempts, watermark, requestId, k)
                                  && LeadsTo(remote, watermark, requestId, k, Raised(ApiFault)) {
      assert PollsLeadTo(remote, watermark, requestId, maxAttempts, Raised(ApiFault));
    }
  }
}
