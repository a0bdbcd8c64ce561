/**
 What every run of the dispatch protocol keeps, whatever the remote answers
 (tools/app_deploy_transport.py).
 */
module DeployProtocol {
  import opened Wrappers
  import opened Text
  import opened Json
  import opened DeployRequest
  import opened DeployTransport

  // ---- the polls of a run, laid end to end ----

  /** `k` polls that decide nothing, each followed by a sleep. */
  function Rounds(k: nat): seq<Call> {
    if k == 0 then [] else [GetRuns, Sleep] + Rounds(k - 1)
  }

  ghost predicate PendingBefore(remote: Remote, watermark: nat, k: nat) {
    forall j: nat :: j < k ==> VerdictAt(remote, watermark, j).Pending?
  }

  lemma {:induction false} SkipRounds(remote: Remote, watermark: nat, requestId: string, i: nat, k: nat, maxAttempts: int)
    requires i <= k < maxAttempts && PendingBefore(remote, watermark, k)
    ensures var here, there := PollFrom(remote, watermark, requestId, i, maxAttempts),
                               PollFrom(remote, watermark, requestId, k, maxAttempts);
            here.0 == there.0 && here.1 == Rounds(k - i) + there.1
    decreases k - i
  {
    hide PollFrom, VerdictAt;
    if i < k {
      PollGoesOn(remote, watermark, requestId, i, maxAttempts);
      SkipRounds(remote, watermark, requestId, i + 1, k, maxAttempts);
      var tail := PollFrom(remote, watermark, requestId, k, maxAttempts).1;
      assert Rounds(k - i) == [GetRuns, Sleep] + Rounds(k - (i + 1));
      assert [GetRuns] + ([Sleep] + (Rounds(k - (i + 1)) + tail)) == Rounds(k - i) + tail;
    }
  }

  /** The first poll that decides anything ends the run, and nothing after it matters. */
  lemma EndsAtFirstDecision(remote: Remote, watermark: nat, requestId: string, k: nat, maxAttempts: int)
    requires k < maxAttempts && PendingBefore(remote, watermark, k) && !VerdictAt(remote, watermark, k).Pending?
    ensures var (o, calls) := PollFrom(remote, watermark, requestId, 0, maxAttempts);
            o == ConclusionAt(remote, watermark, requestId, k).0
            && calls == Rounds(k) + ([GetRuns] + ConclusionAt(remote, watermark, requestId, k).1)
  {
    hide PollFrom, VerdictAt, ConclusionAt;
    SkipRounds(remote, watermark, requestId, 0, k, maxAttempts);
    PollEnds(remote, watermark, requestId, k, maxAttempts);
  }

  /** Without a decision the last poll is not slept after. */
  lemma EndsByTimeout(remote: Remote, watermark: nat, requestId: string, maxAttempts: int)
    requires maxAttempts > 0 ==> PendingBefore(remote, watermark, maxAttempts)
    ensures var (o, calls) := PollFrom(remote, watermark, requestId, 0, maxAttempts);
            o == Raised(TimedOut(watermark))
            && calls == if maxAttempts > 0 then Rounds(maxAttempts - 1) + [GetRuns] else []
  {
    hide PollFrom, VerdictAt;
    if maxAttempts > 0 {
      var last := maxAttempts - 1;
      SkipRounds(remote, watermark, requestId, 0, last, maxAttempts);
      PollGoesOn(remote, watermark, requestId, last, maxAttempts);
      PollStops(remote, watermark, requestId, maxAttempts, maxAttempts);
    } else {
      PollStops(remote, watermark, requestId, 0, maxAttempts);
    }
  }

  /** The first decisive poll, if there is one in time. */
  function FirstDecision(remote: Remote, watermark: nat, k: nat, maxAttempts: int): (d: Option<nat>)
    requires PendingBefore(remote, watermark, k)
    ensures match d
            case Some(n) => k <= n < maxAttempts && PendingBefore(remote, watermark, n)
                            && !VerdictAt(remote, watermark, n).Pending?
            case None => maxAttempts > 0 ==> PendingBefore(remote, watermark, maxAttempts)
    decreases maxAttempts - k
  {
    if k >= maxAttempts then None
    else if VerdictAt(remote, watermark, k).Pending? then FirstDecision(remote, watermark, k + 1, maxAttempts)
    else Some(k)
  }

  // ---- one dispatch, whatever happens ----

  /** Where in a dispatch each kind of call may stand. */
  ghost predicate CallIsInPlace(calls: seq<Call>, i: nat, payload: Fields)
    requires i < |calls|
  {
    match calls[i]
    case GetRuns => i % 2 == 0
    case PostDispatch(p) => i == 1 && p == payload
    case Sleep => i >= 3 && i % 2 == 1 && i + 1 < |calls| && calls[i + 1] == GetRuns
    case FetchLogs(_) => i >= 3 && i % 2 == 1 && i + 1 == |calls|
  }

  lemma {:induction false} RoundsAt(k: nat, i: nat)
    requires i < 2 * k
    ensures |Rounds(k)| == 2 * k && Rounds(k)[i] == if i % 2 == 0 then GetRuns else Sleep
  {
    if k > 1 {
      RoundsAt(k - 1, if i < 2 then 0 else i - 2);
    }
  }

  /** Two calls, `k` rounds, a GET, and the end. */
  function Laid(payload: Fields, k: nat, end: seq<Call>): seq<Call> {
    [GetRuns, PostDispatch(payload)] + (Rounds(k) + ([GetRuns] + end))
  }

  /** Every call of such a run. */
  lemma LaidAt(payload: Fields, k: nat, end: seq<Call>, i: nat)
    requires i < 3 + 2 * k + |end|
    ensures var calls := Laid(payload, k, end);
            && |calls| == 3 + 2 * k + |end|
            && calls[i] == if i == 1 then PostDispatch(payload)
                           else if i < 3 + 2 * k then (if i % 2 == 0 then GetRuns else Sleep)
                           else end[i - 3 - 2 * k]
  {
    if k > 0 { RoundsAt(k, if 2 <= i < 2 + 2 * k then i - 2 else 0); }
  }

  lemma CallOfPolls(payload: Fields, k: nat, end: seq<Call>, i: nat)
    requires |end| == 0 || (|end| == 1 && end[0].FetchLogs?)
    requires i < |Laid(payload, k, end)|
    ensures CallIsInPlace(Laid(payload, k, end), i, payload)
  {
    LaidAt(payload, k, end, 0);
    LaidAt(payload, k, end, i);
    hide Laid, Rounds;
    if i + 1 < 3 + 2 * k + |end| { LaidAt(payload, k, end, i + 1); }
  }

  /** How the polls lie behind the first two calls. */
  lemma PollsAreInPlace(payload: Fields, k: nat, end: seq<Call>)
    requires |end| == 0 || (|end| == 1 && end[0].FetchLogs?)
    ensures var calls := [GetRuns, PostDispatch(payload)] + (Rounds(k) + ([GetRuns] + end));
            forall i: nat :: i < |calls| ==> CallIsInPlace(calls, i, payload)
  {
    assert Laid(payload, k, end) == [GetRuns, PostDispatch(payload)] + (Rounds(k) + ([GetRuns] + end));
    hide Laid, Rounds, CallIsInPlace;
    forall i: nat | i < |Laid(payload, k, end)| ensures CallIsInPlace(Laid(payload, k, end), i, payload) {
      CallOfPolls(payload, k, end, i);
    }
  }

  lemma ConclusionCalls(remote: Remote, watermark: nat, requestId: string, k: nat)
    requires !VerdictAt(remote, watermark, k).Pending?
    ensures var end := ConclusionAt(remote, watermark, requestId, k).1;
            |end| == 0 || (|end| == 1 && end[0].FetchLogs?)
  {
    hide VerdictAt, Contains;
  }

  lemma AcceptedPassesTwice<R>(raw: Fields, sdk: Sdk<R>, parse: UrlParser)
    requires RequestFromMapping(raw, sdk, parse).Ok?
    ensures ValidateAuthority(raw, parse) == None
    ensures ValidateAuthority(sdk.toDict(RequestFromMapping(raw, sdk, parse).value), parse) == None
  {
    hide ValidateAuthority;
  }

  lemma SentCalls(payload: Fields, watermark: nat, requestId: string, remote: Remote, maxAttempts: int)
    ensures var calls := [GetRuns] + Send(payload, watermark, requestId, remote, maxAttempts).1;
            |calls| >= 2 && calls[1] == PostDispatch(payload)
            && forall i: nat :: i < |calls| ==> CallIsInPlace(calls, i, payload)
  {
    hide PollFrom, VerdictAt, ConclusionAt;
    var calls := [GetRuns] + Send(payload, watermark, requestId, remote, maxAttempts).1;
    if remote.api(1).Answer? {
      var polls := PollFrom(remote, watermark, requestId, 0, maxAttempts).1;
      assert calls == [GetRuns, PostDispatch(payload)] + polls;
      match FirstDecision(remote, watermark, 0, maxAttempts) {
        case Some(k) =>
          EndsAtFirstDecision(remote, watermark, requestId, k, maxAttempts);
          ConclusionCalls(remote, watermark, requestId, k);
          PollsAreInPlace(payload, k, ConclusionAt(remote, watermark, requestId, k).1);
        case None =>
          EndsByTimeout(remote, watermark, requestId, maxAttempts);
          if maxAttempts > 0 {
            assert Rounds(maxAttempts - 1) + ([GetRuns] + []) == polls;
            PollsAreInPlace(payload, maxAttempts - 1, []);
          }
      }
    }
  }

  /**
   Whatever the environment answers, there is at most one POST: it is the
   second call, right behind the baseline, it is made exactly when the request
   is accepted and the baseline can be read, and it carries what the authority
   check accepted. Every poll comes after it, and logs are fetched at most
   once, by the last call of all.
   */
  lemma DispatchIsCautious<R>(raw: Fields, sdk: Sdk<R>, parse: UrlParser, remote: Remote, maxAttempts: int)
    ensures var request, calls := RequestFromMapping(raw, sdk, parse), Dispatch(raw, sdk, parse, remote, maxAttempts).1;
            && (|calls| >= 1 <==> request.Ok?)
            && (|calls| >= 2 <==> request.Ok? && Baseline(remote.api(0)).Ok?)
            && (request.Ok? ==> forall i: nat :: i < |calls| ==> CallIsInPlace(calls, i, sdk.toDict(request.value)))
            && (|calls| >= 2 ==> calls[1].PostDispatch? && ValidateAuthority(calls[1].payload, parse) == None)
  {
    var request := RequestFromMapping(raw, sdk, parse);
    if request.Ok? {
      AcceptedPassesTwice(raw, sdk, parse);
      hide RequestFromMapping, ValidateAuthority, Send, CallIsInPlace, Baseline;
      if Baseline(remote.api(0)).Ok? {
        SentCalls(sdk.toDict(request.value), Baseline(remote.api(0)).value, sdk.requestId(request.value), remote, maxAttempts);
      } else {
        OneGetIsInPlace(sdk.toDict(request.value));
      }
    }
  }

  lemma OneGetIsInPlace(payload: Fields)
    ensures forall i: nat :: i < |[GetRuns]| ==> CallIsInPlace([GetRuns], i, payload)
  {
  }

  /**
   What a POST carries is a proper rendered request up to the spelling of its
   version and its request id, and one that `render_request` builds exactly
   when the version is the integer 1 and the request id a string.
   */
  lemma OnlyRenderedRequestsArePosted<R>(raw: Fields, sdk: Sdk<R>, parse: UrlParser, remote: Remote, maxAttempts: int, i: nat)
    requires var calls := Dispatch(raw, sdk, parse, remote, maxAttempts).1; i < |calls| && calls[i].PostDispatch?
    ensures var payload := Dispatch(raw, sdk, parse, remote, maxAttempts).1[i].payload;
            && (exists a, version, requestId :: Proper(a, parse) && IsOne(version) && payload == Respelled(a, version, requestId))
            && ((exists a :: Proper(a, parse) && payload == Rendered(a))
                <==> Get(payload, "contract_version") == Int(1) && Get(payload, "request_id").Str?)
  {
    hide Dispatch, RequestFromMapping, ValidateAuthority, Baseline, Proper, IsOne, Respelled, Rendered;
    DispatchIsCautious(raw, sdk, parse, remote, maxAttempts);
    var calls := Dispatch(raw, sdk, parse, remote, maxAttempts).1;
    assert CallIsInPlace(calls, i, sdk.toDict(RequestFromMapping(raw, sdk, parse).value));
    AuthorityIsRenderedShape(calls[i].payload, parse);
    PassedIsRendered(calls[i].payload, parse);
  }

  // ---- what a poll decides, in terms of the runs shown ----

  /** Some run of the list, and no other, is above the watermark. */
  ghost predicate Lone(runs: seq<Fields>, watermark: nat, i: nat)
    requires IdsAreGood(runs)
  {
    i < |runs| && RunId(runs[i]).value > watermark
    && forall j: nat :: j < |runs| && j != i ==> RunId(runs[j]).value <= watermark
  }

  ghost predicate NoneAbove(runs: seq<Fields>, watermark: nat)
    requires IdsAreGood(runs)
  {
    forall j: nat :: j < |runs| ==> RunId(runs[j]).value <= watermark
  }

  lemma {:induction false} NoCandidates(runs: seq<Fields>, watermark: nat)
    requires IdsAreGood(runs)
    ensures |Candidates(runs, watermark)| == 0 <==> NoneAbove(runs, watermark)
  {
    if |runs| > 0 {
      NoCandidates(runs[1..], watermark);
      if NoneAbove(runs[1..], watermark) && RunId(runs[0]).value <= watermark {
        forall j: nat | j < |runs| ensures RunId(runs[j]).value <= watermark {
          assert j > 0 ==> runs[j] == runs[1..][j - 1];
        }
      }
    }
  }

  lemma {:induction false} OneCandidate(runs: seq<Fields>, watermark: nat, i: nat)
    requires IdsAreGood(runs) && Lone(runs, watermark, i)
    ensures Candidates(runs, watermark) == [runs[i]]
  {
    if i == 0 {
      NoCandidates(runs[1..], watermark);
    } else {
      OneCandidate(runs[1..], watermark, i - 1);
    }
  }

  lemma {:induction false} TheCandidate(runs: seq<Fields>, watermark: nat) returns (i: nat)
    requires IdsAreGood(runs) && |Candidates(runs, watermark)| == 1
    ensures Lone(runs, watermark, i) && Candidates(runs, watermark) == [runs[i]]
  {
    if RunId(runs[0]).value > watermark {
      i := 0;
      assert Candidates(runs, watermark) == [runs[0]] + Candidates(runs[1..], watermark);
      NoCandidates(runs[1..], watermark);
      forall j: nat | 0 < j < |runs| ensures RunId(runs[j]).value <= watermark {
        assert runs[j] == runs[1..][j - 1];
      }
    } else {
      var k := TheCandidate(runs[1..], watermark);
      i := k + 1;
      forall j: nat | j < |runs| && j != i ensures RunId(runs[j]).value <= watermark {
        assert j > 0 ==> runs[j] == runs[1..][j - 1];
      }
    }
  }

  /** The list a reply shows, where it shows one. */
  function Shown(reply: Reply): (shown: Option<seq<Fields>>)
    ensures shown.Some? ==> IdsAreGood(shown.value)
  {
    match reply
    case Fault => None
    case Answer(body) =>
      match WorkflowRuns(body)
      case None => None
      case Some(runs) => if IdsAreGood(runs) then Some(runs) else None
  }

  ghost predicate ShowsNone(reply: Reply, watermark: nat) {
    Shown(reply).Some? && NoneAbove(Shown(reply).value, watermark)
  }

  ghost predicate ShowsLone(reply: Reply, watermark: nat, run: Fields) {
    Shown(reply).Some? && exists i: nat :: Lone(Shown(reply).value, watermark, i) && Shown(reply).value[i] == run
  }

  lemma JudgeShown(reply: Reply, watermark: nat)
    ensures match Shown(reply)
            case Some(runs) => Judge(reply, watermark) == JudgeRuns(runs, watermark)
            case None => Judge(reply, watermark).Stop? && !Judge(reply, watermark).e.Ambiguous?
  {
    hide JudgeRuns;
  }

  /** A poll is decided by a finished run exactly when that run stands alone above the watermark. */
  lemma ReadyIsLoneAndFinished(reply: Reply, watermark: nat, run: Fields)
    ensures Judge(reply, watermark) == Ready(run)
            <==> ShowsLone(reply, watermark, run) && Get(run, "status") == Str("completed")
  {
    JudgeShown(reply, watermark);
    hide Judge, Shown;
    if Judge(reply, watermark) == Ready(run) {
      var i := TheCandidate(Shown(reply).value, watermark);
    }
    if ShowsLone(reply, watermark, run) {
      var i: nat :| Lone(Shown(reply).value, watermark, i) && Shown(reply).value[i] == run;
      OneCandidate(Shown(reply).value, watermark, i);
    }
  }

  /** A poll decides nothing exactly when no run, or one unfinished run, is above the watermark. */
  lemma PendingIsNoneOrUnfinished(reply: Reply, watermark: nat)
    ensures Judge(reply, watermark).Pending?
            <==> ShowsNone(reply, watermark)
                 || exists run :: ShowsLone(reply, watermark, run) && Get(run, "status") != Str("completed")
  {
    JudgeShown(reply, watermark);
    hide Judge, Shown;
    if Shown(reply).Some? {
      NoCandidates(Shown(reply).value, watermark);
    }
    if Judge(reply, watermark).Pending? && !ShowsNone(reply, watermark) {
      var i := TheCandidate(Shown(reply).value, watermark);
      assert ShowsLone(reply, watermark, Shown(reply).value[i]);
    }
    if run :| ShowsLone(reply, watermark, run) && Get(run, "status") != Str("completed") {
      var i: nat :| Lone(Shown(reply).value, watermark, i) && Shown(reply).value[i] == run;
      OneCandidate(Shown(reply).value, watermark, i);
    }
  }

  // ---- exactly when a dispatch returns a run ----

  /** Poll `k` ends the dispatch well: one finished run, its success, its logs and its URL. */
  ghost predicate Proves(remote: Remote, watermark: nat, requestId: string, k: nat, id: nat, url: string, run: Fields) {
    && ShowsLone(remote.api(PollTime(k)), watermark, run)
    && Get(run, "status") == Str("completed") && Get(run, "conclusion") == Str("success")
    && RunId(run) == Some(id) && Get(run, "html_url") == Str(url) && URL_PREFIX <= url
    && var logs := remote.logs(PollTime(k) + 1, id); logs.Logs? && Contains(requestId, logs.bytes)
  }

  lemma ConclusionReturns(remote: Remote, watermark: nat, requestId: string, k: nat, id: nat, url: string)
    requires !VerdictAt(remote, watermark, k).Pending?
    ensures ConclusionAt(remote, watermark, requestId, k).0 == Returned(id, url)
            <==> exists run :: Proves(remote, watermark, requestId, k, id, url, run)
  {
    hide Judge, Contains, ShowsLone;
    var verdict := VerdictAt(remote, watermark, k);
    forall run ensures verdict == Ready(run) <==> ShowsLone(remote.api(PollTime(k)), watermark, run)
                                                  && Get(run, "status") == Str("completed") {
      ReadyIsLoneAndFinished(remote.api(PollTime(k)), watermark, run);
    }
    if verdict.Ready? {
      LoneHasId(remote.api(PollTime(k)), watermark, verdict.run);
      if ConclusionAt(remote, watermark, requestId, k).0 == Returned(id, url) {
        assert Proves(remote, watermark, requestId, k, id, url, verdict.run);
      }
    }
  }

  lemma LoneHasId(reply: Reply, watermark: nat, run: Fields)
    requires ShowsLone(reply, watermark, run)
    ensures RunId(run).Some? && RunId(run).value > watermark
  {
  }

  /** Everything up to poll `k` shows no run above the watermark, or one that has not finished. */
  ghost predicate Undecided(remote: Remote, watermark: nat, k: nat) {
    forall j: nat :: j < k ==>
      var reply := remote.api(PollTime(j));
      ShowsNone(reply, watermark) || exists run :: ShowsLone(reply, watermark, run) && Get(run, "status") != Str("completed")
  }

  lemma PendingIsUndecided(remote: Remote, watermark: nat, k: nat)
    ensures PendingBefore(remote, watermark, k) <==> Undecided(remote, watermark, k)
  {
    forall j: nat ensures VerdictAt(remote, watermark, j) == Judge(remote.api(PollTime(j)), watermark) {
    }
    hide Judge, ShowsNone, ShowsLone, VerdictAt, PollTime;
    forall j: nat ensures VerdictAt(remote, watermark, j).Pending? <==>
      (ShowsNone(remote.api(PollTime(j)), watermark)
       || exists run :: ShowsLone(remote.api(PollTime(j)), watermark, run) && Get(run, "status") != Str("completed"))
    {
      PendingIsNoneOrUnfinished(remote.api(PollTime(j)), watermark);
    }
  }

  /**
   The polls return a run exactly when one of them, within the attempts, shows
   it alone, finished and proved, and every poll before showed nothing decided.
   */
  lemma PollsReturnExactly(remote: Remote, watermark: nat, requestId: string, maxAttempts: int, id: nat, url: string)
    ensures PollFrom(remote, watermark, requestId, 0, maxAttempts).0 == Returned(id, url)
            <==> exists k: nat, run ::
                   k < maxAttempts && Undecided(remote, watermark, k)
                   && Proves(remote, watermark, requestId, k, id, url, run)
  {
    hide PollFrom, ConclusionAt, Judge, ShowsLone;
    if PollFrom(remote, watermark, requestId, 0, maxAttempts).0 == Returned(id, url) {
      var first := FirstDecision(remote, watermark, 0, maxAttempts);
      if first.None? {
        EndsByTimeout(remote, watermark, requestId, maxAttempts);
      } else {
        var k := first.value;
        EndsAtFirstDecision(remote, watermark, requestId, k, maxAttempts);
        ConclusionReturns(remote, watermark, requestId, k, id, url);
        PendingIsUndecided(remote, watermark, k);
      }
    }
    if k: nat, run :| k < maxAttempts && Undecided(remote, watermark, k)
                      && Proves(remote, watermark, requestId, k, id, url, run) {
      PendingIsUndecided(remote, watermark, k);
      ReadyIsLoneAndFinished(remote.api(PollTime(k)), watermark, run);
      EndsAtFirstDecision(remote, watermark, requestId, k, maxAttempts);
      ConclusionReturns(remote, watermark, requestId, k, id, url);
    }
  }

  /**
   The whole dispatch returns a run exactly when the request is accepted, the
   baseline is readable, the POST is taken, and the polls return that run.
   */
  lemma DispatchReturnsExactly<R>(raw: Fields, sdk: Sdk<R>, parse: UrlParser, remote: Remote, maxAttempts: int, id: nat, url: string)
    ensures var request, baseline := RequestFromMapping(raw, sdk, parse), Baseline(remote.api(0));
            Dispatch(raw, sdk, parse, remote, maxAttempts).0 == Returned(id, url)
            <==> request.Ok? && baseline.Ok? && remote.api(1).Answer?
                 && exists k: nat, run ::
                      k < maxAttempts && Undecided(remote, baseline.value, k)
                      && Proves(remote, baseline.value, sdk.requestId(request.value), k, id, url, run)
  {
    hide RequestFromMapping, Baseline, PollFrom, Undecided, Proves;
    var request, baseline := RequestFromMapping(raw, sdk, parse), Baseline(remote.api(0));
    if request.Ok? && baseline.Ok? && remote.api(1).Answer? {
      PollsReturnExactly(remote, baseline.value, sdk.requestId(request.value), maxAttempts, id, url);
    }
  }

  // ---- whose logs are fetched ----

  /** Poll `k` shows a run that stands alone, has completed and has succeeded. */
  ghost predicate ShowsSuccess(remote: Remote, watermark: nat, k: nat, id: nat, run: Fields) {
    && ShowsLone(remote.api(PollTime(k)), watermark, run) && RunId(run) == Some(id)
    && Get(run, "status") == Str("completed") && Get(run, "conclusion") == Str("success")
  }

  lemma ConclusionLogs(remote: Remote, watermark: nat, requestId: string, k: nat, id: nat)
    requires !VerdictAt(remote, watermark, k).Pending?
    requires ConclusionAt(remote, watermark, requestId, k).1 == [FetchLogs(id)]
    ensures exists run :: ShowsSuccess(remote, watermark, k, id, run)
  {
    hide Judge, Contains, ShowsLone;
    assert VerdictAt(remote, watermark, k).Ready?;
    var run := VerdictAt(remote, watermark, k).run;
    ReadyIsLoneAndFinished(remote.api(PollTime(k)), watermark, run);
    LoneHasId(remote.api(PollTime(k)), watermark, run);
    assert ConclusionAt(remote, watermark, requestId, k).1[0] == FetchLogs(id);
    assert ShowsSuccess(remote, watermark, k, id, run);
  }

  lemma PollLogs(remote: Remote, watermark: nat, requestId: string, maxAttempts: int, j: nat)
    requires var polls := PollFrom(remote, watermark, requestId, 0, maxAttempts).1; j < |polls| && polls[j].FetchLogs?
    ensures exists k: nat, run ::
              j == 2 * k + 1
              && ShowsSuccess(remote, watermark, k, PollFrom(remote, watermark, requestId, 0, maxAttempts).1[j].id, run)
  {
    hide PollFrom, VerdictAt, ConclusionAt, ShowsSuccess;
    var polls := PollFrom(remote, watermark, requestId, 0, maxAttempts).1;
    match FirstDecision(remote, watermark, 0, maxAttempts) {
      case Some(k) =>
        EndsAtFirstDecision(remote, watermark, requestId, k, maxAttempts);
        ConclusionCalls(remote, watermark, requestId, k);
        var end := ConclusionAt(remote, watermark, requestId, k).1;
        if j < 2 * k { RoundsAt(k, j); } else if k > 0 { RoundsAt(k, 0); }
        assert j == 2 * k + 1 && end == [polls[j]];
        ConclusionLogs(remote, watermark, requestId, k, polls[j].id);
      case None =>
        EndsByTimeout(remote, watermark, requestId, maxAttempts);
        if maxAttempts > 1 { RoundsAt(maxAttempts - 1, if j < 2 * (maxAttempts - 1) then j else 0); }
    }
  }

  /** Logs are fetched of no run but one that a poll has just shown alone, completed and successful. */
  lemma LogsAreOfASuccess<R>(raw: Fields, sdk: Sdk<R>, parse: UrlParser, remote: Remote, maxAttempts: int, i: nat)
    requires var calls := Dispatch(raw, sdk, parse, remote, maxAttempts).1; i < |calls| && calls[i].FetchLogs?
    ensures Baseline(remote.api(0)).Ok?
    ensures exists k: nat, run ::
              i == PollTime(k) + 1
              && ShowsSuccess(remote, Baseline(remote.api(0)).value, k,
                              Dispatch(raw, sdk, parse, remote, maxAttempts).1[i].id, run)
  {
    hide RequestFromMapping, Baseline, PollFrom, ShowsSuccess;
    var request, baseline := RequestFromMapping(raw, sdk, parse), Baseline(remote.api(0));
    var calls := Dispatch(raw, sdk, parse, remote, maxAttempts).1;
    var requestId := sdk.requestId(request.value);
    var polls := PollFrom(remote, baseline.value, requestId, 0, maxAttempts).1;
    assert remote.api(1).Answer? && calls == [GetRuns] + ([PostDispatch(sdk.toDict(request.value))] + polls);
    PollLogs(remote, baseline.value, requestId, maxAttempts, i - 2);
  }

  // ---- how long a dispatch sleeps ----

  function SleepCount(calls: seq<Call>): nat {
    if |calls| == 0 then 0 else (if calls[0].Sleep? then 1 else 0) + SleepCount(calls[1..])
  }

  lemma AwakeFirst(call: Call, rest: seq<Call>)
    requires !call.Sleep?
    ensures SleepCount([call] + rest) == SleepCount(rest)
  {
    assert ([call] + rest)[1..] == rest;
  }

  lemma {:induction false} SleepsInRounds(k: nat, tail: seq<Call>)
    ensures SleepCount(Rounds(k) + tail) == k + SleepCount(tail)
  {
    if k == 0 {
      assert Rounds(k) + tail == tail;
    } else {
      var calls := Rounds(k) + tail;
      assert calls[0] == GetRuns && calls[1..][0] == Sleep && calls[1..][1..] == Rounds(k - 1) + tail;
      SleepsInRounds(k - 1, tail);
    }
  }

  /** The attempts `main` asks for, from the timeout and the interval in seconds. */
  function MaxAttempts(timeout: int, interval: int): int
    requires interval > 0
  {
    var attempts := (timeout + interval - 1) / interval;
    if attempts > 1 then attempts else 1
  }

  /** Sleeping between all the attempts falls short of the timeout by at most one interval. */
  lemma AttemptsFillTimeout(timeout: int, interval: int)
    requires timeout > 0 && interval > 0
    ensures var slept := (MaxAttempts(timeout, interval) - 1) * interval; timeout - interval <= slept < timeout
  {
    var attempts := (timeout + interval - 1) / interval;
    var rest := (timeout + interval - 1) % interval;
    assert attempts * interval + rest == timeout + interval - 1;
    assert (attempts - 1) * interval == attempts * interval - interval;
  }

  lemma StopIsNoTimeout(reply: Reply, watermark: nat)
    ensures Judge(reply, watermark).Stop? ==> !Judge(reply, watermark).e.TimedOut?
  {
    hide Candidates, Ids, WorkflowRuns;
  }

  lemma ConclusionIsNoTimeout(remote: Remote, watermark: nat, requestId: string, k: nat)
    requires !VerdictAt(remote, watermark, k).Pending?
    ensures var o := ConclusionAt(remote, watermark, requestId, k).0; o.Raised? ==> !o.e.TimedOut?
  {
    StopIsNoTimeout(remote.api(PollTime(k)), watermark);
    hide Judge, Contains;
  }

  lemma PollsSleep(remote: Remote, watermark: nat, requestId: string, maxAttempts: int)
    requires maxAttempts > 0
    ensures var (o, calls) := PollFrom(remote, watermark, requestId, 0, maxAttempts);
            && SleepCount(calls) < maxAttempts
            && (o.Raised? && o.e.TimedOut? ==> SleepCount(calls) == maxAttempts - 1)
  {
    hide PollFrom, VerdictAt, ConclusionAt;
    match FirstDecision(remote, watermark, 0, maxAttempts) {
      case Some(k) =>
        EndsAtFirstDecision(remote, watermark, requestId, k, maxAttempts);
        ConclusionCalls(remote, watermark, requestId, k);
        ConclusionIsNoTimeout(remote, watermark, requestId, k);
        var end := ConclusionAt(remote, watermark, requestId, k).1;
        SleepsInRounds(k, [GetRuns] + end);
        AwakeFirst(GetRuns, end);
        assert SleepCount(end) == 0;
      case None =>
        EndsByTimeout(remote, watermark, requestId, maxAttempts);
        SleepsInRounds(maxAttempts - 1, [GetRuns]);
    }
  }

  lemma BaselineIsNoTimeout(reply: Reply)
    ensures Baseline(reply).Err? ==> !Baseline(reply).error.TimedOut?
  {
    hide WorkflowRuns, Watermark;
  }

  lemma DispatchSleeps<R>(raw: Fields, sdk: Sdk<R>, parse: UrlParser, remote: Remote, maxAttempts: int)
    requires maxAttempts > 0
    ensures var (o, calls) := Dispatch(raw, sdk, parse, remote, maxAttempts);
            && SleepCount(calls) < maxAttempts
            && (o.Raised? && o.e.TimedOut? ==> SleepCount(calls) == maxAttempts - 1)
  {
    hide RequestFromMapping, Baseline, PollFrom;
    BaselineIsNoTimeout(remote.api(0));
    var request, baseline := RequestFromMapping(raw, sdk, parse), Baseline(remote.api(0));
    var calls := Dispatch(raw, sdk, parse, remote, maxAttempts).1;
    if request.Ok? && baseline.Ok? {
      var requestId := sdk.requestId(request.value);
      var post := PostDispatch(sdk.toDict(request.value));
      var polls := PollFrom(remote, baseline.value, requestId, 0, maxAttempts).1;
      PollsSleep(remote, baseline.value, requestId, maxAttempts);
      AwakeFirst(post, polls);
      AwakeFirst(GetRuns, [post] + polls);
      AwakeFirst(GetRuns, [post]);
    }
  }

  lemma MulMonotone(a: nat, b: nat, c: nat)
    requires a <= b
    ensures a * c <= b * c
  {
  }

  /**
   However a dispatch ends it has slept for less than the timeout, and if it
   gave up waiting, for all of it but at most one interval.
   */
  lemma SleptTime<R>(raw: Fields, sdk: Sdk<R>, parse: UrlParser, remote: Remote, timeout: int, interval: int)
    requires timeout > 0 && interval > 0
    ensures var (o, calls) := Dispatch(raw, sdk, parse, remote, MaxAttempts(timeout, interval));
            && SleepCount(calls) * interval < timeout
            && (o.Raised? && o.e.TimedOut? ==> timeout - interval <= SleepCount(calls) * interval)
  {
    var maxAttempts := MaxAttempts(timeout, interval);
    hide MaxAttempts, Dispatch;
    AttemptsFillTimeout(timeout, interval);
    DispatchSleeps(raw, sdk, parse, remote, maxAttempts);
    MulMonotone(SleepCount(Dispatch(raw, sdk, parse, remote, maxAttempts).1), maxAttempts - 1, interval);
  }
}
