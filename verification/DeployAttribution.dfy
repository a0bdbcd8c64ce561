/**
 Whose run a dispatch returns (tools/app_deploy_transport.py), against a
 receiver that goes on creating and changing runs between the calls, for this
 dispatcher and for others.
 */
module DeployAttribution {
  import opened Wrappers
  import opened Text
  import opened Sorting
  import opened Json
  import opened DeployRequest
  import opened DeployTransport
  import opened DeployProtocol

  // ---- the receiver ----

  /** A run of the receiver: the request that caused it, and the object the API shows for it. */
  datatype Run = Run(cause: string, shown: Fields)

  /** The runs there are when call number `t` is answered, oldest first. */
  type History = nat -> seq<Run>

  function IdOf(run: Run): nat {
    match RunId(run.shown) case Some(n) => n case None => 0
  }

  /** Run ids are positive and grow with every run created. */
  ghost predicate HandsOutIds(runs: seq<Run>) {
    && (forall i :: 0 <= i < |runs| ==> IdOf(runs[i]) > 0)
    && (forall i, j :: 0 <= i < j < |runs| ==> IdOf(runs[i]) < IdOf(runs[j]))
  }

  /** Runs are only ever added, and keep their id and their cause. */
  ghost predicate KeepsRuns(before: seq<Run>, after: seq<Run>) {
    && |before| <= |after|
    && forall i :: 0 <= i < |before| ==> IdOf(after[i]) == IdOf(before[i]) && after[i].cause == before[i].cause
  }

  ghost predicate Receives(h: History) {
    && (forall t: nat :: HandsOutIds(h(t)))
    && (forall t: nat :: KeepsRuns(h(t), h(t + 1)))
  }

  lemma {:induction false} KeepsThroughout(h: History, s: nat, t: nat)
    requires Receives(h) && s <= t
    ensures KeepsRuns(h(s), h(t))
    decreases t
  {
    if s < t {
      KeepsThroughout(h, s, t - 1);
      assert KeepsRuns(h(t - 1), h(t - 1 + 1));
    }
  }

  const PAGE_SIZE := 30

  function PageLength(runs: seq<Run>): nat {
    if |runs| < PAGE_SIZE then |runs| else PAGE_SIZE
  }

  /** What one GET shows of the runs: the newest thirty, newest first. */
  function Page(runs: seq<Run>): seq<Fields> {
    seq(PageLength(runs), i requires 0 <= i < PageLength(runs) => runs[|runs| - 1 - i].shown)
  }

  ghost predicate ShowsPage(reply: Reply, runs: seq<Run>) {
    reply.Answer? ==> WorkflowRuns(reply.body) == Some(Page(runs))
  }

  /** Every GET that is answered shows the page of its moment; the GETs are the calls of even number. */
  ghost predicate Faithful(remote: Remote, h: History) {
    forall t: nat :: t % 2 == 0 ==> ShowsPage(remote.api(t), h(t))
  }

  ghost predicate CausedBy(runs: seq<Run>, id: nat, requestId: string) {
    forall i :: 0 <= i < |runs| && IdOf(runs[i]) == id ==> runs[i].cause == requestId
  }

  ghost predicate LogsName(logs: LogReply, requestId: string) {
    logs.Logs? && Contains(requestId, logs.bytes)
  }

  /** A request id stands in no logs but those of the run it caused. */
  ghost predicate LogsAreOwn(remote: Remote, h: History, requestId: string) {
    forall t: nat, id: nat :: LogsName(remote.logs(t, id), requestId) ==> CausedBy(h(t), id, requestId)
  }

  // ---- a page tells enough ----

  lemma PageIsGood(runs: seq<Run>)
    requires HandsOutIds(runs)
    ensures IdsAreGood(Page(runs))
    ensures forall i :: 0 <= i < |Page(runs)| ==> RunId(Page(runs)[i]).value == IdOf(runs[|runs| - 1 - i])
  {
    forall i | 0 <= i < |Page(runs)|
      ensures RunId(Page(runs)[i]).Some? && RunId(Page(runs)[i]).value == IdOf(runs[|runs| - 1 - i])
    {
      assert IdOf(runs[|runs| - 1 - i]) > 0;
    }
  }

  /** The id of the last run ever created, shown or not. */
  function NewestId(runs: seq<Run>): nat {
    if |runs| == 0 then 0 else IdOf(runs[|runs| - 1])
  }

  lemma {:induction false} WatermarkBelow(runs: seq<Fields>, bound: nat)
    requires IdsAreGood(runs) && NoneAbove(runs, bound)
    ensures Watermark(runs) <= bound
  {
    if |runs| > 0 {
      WatermarkBelow(runs[1..], bound);
    }
  }

  /** The largest id on one page is the largest id there is. */
  lemma PageShowsNewestId(runs: seq<Run>)
    requires HandsOutIds(runs)
    ensures IdsAreGood(Page(runs)) && Watermark(Page(runs)) == NewestId(runs)
    ensures forall i :: 0 <= i < |runs| ==> IdOf(runs[i]) <= NewestId(runs)
  {
    PageIsGood(runs);
    var page := Page(runs);
    if |runs| > 0 {
      forall j: nat | j < |page| ensures RunId(page[j]).value <= NewestId(runs) {
        assert j > 0 ==> IdOf(runs[|runs| - 1 - j]) < IdOf(runs[|runs| - 1]);
      }
      WatermarkBelow(page, NewestId(runs));
      assert RunId(page[0]).value == NewestId(runs);
    }
  }

  lemma {:induction false} CandidatesPrefix(runs: seq<Fields>, watermark: nat, m: nat)
    requires IdsAreGood(runs) && m <= |runs|
    requires forall i :: 0 <= i < |runs| ==> (RunId(runs[i]).value > watermark <==> i < m)
    ensures Candidates(runs, watermark) == runs[..m]
  {
    if m == 0 {
      NoCandidates(runs, watermark);
    } else {
      CandidatesPrefix(runs[1..], watermark, m - 1);
      assert runs[..m] == [runs[0]] + runs[1..][..m - 1];
    }
  }

  /** How many of the runs created since the baseline a page can show. */
  function ShownNew(before: seq<Run>, after: seq<Run>): nat
    requires |before| <= |after|
  {
    if |after| - |before| < PAGE_SIZE then |after| - |before| else PAGE_SIZE
  }

  /** The candidates on a page are the newest of the runs created since the baseline, and only those. */
  lemma CandidatesAreNewRuns(before: seq<Run>, after: seq<Run>)
    requires HandsOutIds(before) && HandsOutIds(after) && KeepsRuns(before, after)
    ensures IdsAreGood(Page(after))
    ensures ShownNew(before, after) <= |Page(after)|
    ensures Candidates(Page(after), NewestId(before)) == Page(after)[..ShownNew(before, after)]
  {
    PageIsGood(after);
    PageShowsNewestId(before);
    var page, w, m := Page(after), NewestId(before), ShownNew(before, after);
    forall i | 0 <= i < |page| ensures RunId(page[i]).value > w <==> i < m {
      var at := |after| - 1 - i;
      assert RunId(page[i]).value == IdOf(after[at]);
      if at >= |before| {
        assert |before| > 0 ==> IdOf(after[|before| - 1]) < IdOf(after[at]);
      } else {
        assert IdOf(after[at]) == IdOf(before[at]);
      }
    }
    CandidatesPrefix(page, w, m);
  }

  // ---- what a poll makes of a page ----

  lemma {:induction false} InsertLast(x: nat, xs: seq<nat>)
    requires forall i :: 0 <= i < |xs| ==> xs[i] < x
    ensures Insert(x, xs, NatLe) == xs + [x]
  {
    if xs != [] {
      InsertLast(x, xs[1..]);
    }
  }

  lemma {:induction false} SortDescending(xs: seq<nat>)
    requires forall i, j :: 0 <= i < j < |xs| ==> xs[i] > xs[j]
    ensures |Sort(xs, NatLe)| == |xs| && forall i :: 0 <= i < |xs| ==> Sort(xs, NatLe)[i] == xs[|xs| - 1 - i]
  {
    if xs != [] {
      var tail := xs[1..];
      SortDescending(tail);
      InsertLast(xs[0], Sort(tail, NatLe));
    }
  }

  lemma {:induction false} IdsAt(runs: seq<Fields>)
    requires IdsAreGood(runs)
    ensures |Ids(runs)| == |runs| && forall i :: 0 <= i < |runs| ==> Ids(runs)[i] == RunId(runs[i]).value
  {
    if |runs| > 0 {
      IdsAt(runs[1..]);
    }
  }

  /** The ids of the newest `m` runs, in order of creation. */
  function NewestIds(runs: seq<Run>, m: nat): seq<nat>
    requires m <= |runs|
  {
    seq<nat>(m, i requires 0 <= i < m => IdOf(runs[|runs| - m + i]))
  }

  /** The ids of the newest runs of a page, newest first. */
  lemma PageIds(runs: seq<Run>, m: nat)
    requires HandsOutIds(runs) && m <= |Page(runs)|
    ensures var ids := Ids(Page(runs)[..m]);
            |ids| == m <= |runs| && forall i :: 0 <= i < m ==> ids[i] == IdOf(runs[|runs| - 1 - i])
  {
    PageIsGood(runs);
    assert |Page(runs)| <= |runs|;
    hide Page, Ids, IdOf, RunId;
    var shown := Page(runs)[..m];
    IdsAt(shown);
    forall i | 0 <= i < m ensures Ids(shown)[i] == IdOf(runs[|runs| - 1 - i]) {
      assert shown[i] == Page(runs)[i];
    }
  }

  ghost predicate NewestFirst(runs: seq<Run>, ids: seq<nat>) {
    |ids| <= |runs| && forall i :: 0 <= i < |ids| ==> ids[i] == IdOf(runs[|runs| - 1 - i])
  }

  lemma NewestFirstDescends(runs: seq<Run>, ids: seq<nat>)
    requires HandsOutIds(runs) && NewestFirst(runs, ids)
    ensures forall i, j :: 0 <= i < j < |ids| ==> ids[i] > ids[j]
  {
    hide IdOf;
    forall i, j | 0 <= i < j < |ids| ensures ids[i] > ids[j] {
      assert IdOf(runs[|runs| - 1 - j]) < IdOf(runs[|runs| - 1 - i]);
    }
  }

  lemma ReversedIsOldestFirst(runs: seq<Run>, ids: seq<nat>, sorted: seq<nat>)
    requires NewestFirst(runs, ids) && |sorted| == |ids| && forall i :: 0 <= i < |ids| ==> sorted[i] == ids[|ids| - 1 - i]
    ensures sorted == NewestIds(runs, |ids|)
  {
    hide IdOf;
    forall i | 0 <= i < |ids| ensures sorted[i] == NewestIds(runs, |ids|)[i] {
      assert ids[|ids| - 1 - i] == IdOf(runs[|runs| - 1 - (|ids| - 1 - i)]);
    }
  }

  lemma SortedCandidateIds(runs: seq<Run>, m: nat)
    requires HandsOutIds(runs) && m <= |Page(runs)|
    ensures Sort(Ids(Page(runs)[..m]), NatLe) == NewestIds(runs, m)
  {
    PageIds(runs, m);
    var ids := Ids(Page(runs)[..m]);
    assert NewestFirst(runs, ids);
    hide Page, Ids, NewestIds, HandsOutIds, NewestFirst;
    NewestFirstDescends(runs, ids);
    SortDescending(ids);
    ReversedIsOldestFirst(runs, ids, Sort(ids, NatLe));
  }

  /**
   Judging the thirty newest runs is judging all of them: nothing new goes on,
   one new run is waited for or looked at, and two or more are ambiguous,
   reported oldest first.
   */
  lemma PageIsJudgedAsWhole(before: seq<Run>, after: seq<Run>, reply: Reply)
    requires HandsOutIds(before) && HandsOutIds(after) && KeepsRuns(before, after)
    requires reply.Answer? && ShowsPage(reply, after)
    ensures var created := |after| - |before|;
            Judge(reply, NewestId(before))
            == if created == 0 then Pending
               else if created == 1 then
                 if Get(after[|after| - 1].shown, "status") == Str("completed") then Ready(after[|after| - 1].shown) else Pending
               else Stop(Ambiguous(NewestId(before), NewestIds(after, ShownNew(before, after))))
  {
    var m := ShownNew(before, after);
    CandidatesAreNewRuns(before, after);
    SortedCandidateIds(after, m);
    JudgePage(reply, NewestId(before), after);
    assert |after| - |before| == 1 ==> Page(after)[..m][0] == after[|after| - 1].shown;
  }

  lemma JudgePage(reply: Reply, watermark: nat, runs: seq<Run>)
    requires reply.Answer? && ShowsPage(reply, runs) && IdsAreGood(Page(runs))
    ensures Judge(reply, watermark) == JudgeRuns(Page(runs), watermark)
  {
    hide JudgeRuns, WorkflowRuns;
  }

  lemma BaselineIsNewestId(reply: Reply, runs: seq<Run>)
    requires HandsOutIds(runs) && reply.Answer? && ShowsPage(reply, runs)
    ensures Baseline(reply) == Ok(NewestId(runs))
  {
    PageShowsNewestId(runs);
    hide WorkflowRuns, Watermark;
  }

  // ---- whole dispatches ----

  /** At poll `k` nothing has been created since the baseline, or one run that has not finished. */
  ghost predicate Waits(h: History, k: nat) {
    var runs, old0 := h(PollTime(k)), |h(0)|;
    |runs| == old0 || (|runs| == old0 + 1 && Get(runs[old0].shown, "status") != Str("completed"))
  }

  /** At poll `k` the only run created since the baseline has succeeded, under that id and URL. */
  ghost predicate SucceedsAlone(h: History, k: nat, id: nat, url: string) {
    var runs, old0 := h(PollTime(k)), |h(0)|;
    && |runs| == old0 + 1 && IdOf(runs[old0]) == id
    && Get(runs[old0].shown, "status") == Str("completed") && Get(runs[old0].shown, "conclusion") == Str("success")
    && Get(runs[old0].shown, "html_url") == Str(url) && URL_PREFIX <= url
  }

  lemma VerdictInWorld(h: History, remote: Remote, k: nat)
    requires Receives(h) && Faithful(remote, h)
    ensures var reply, runs, old0 := remote.api(PollTime(k)), h(PollTime(k)), |h(0)|;
            && (Judge(reply, NewestId(h(0))).Pending? <==> reply.Answer? && Waits(h, k))
            && (forall run :: Judge(reply, NewestId(h(0))) == Ready(run)
                              <==> reply.Answer? && |runs| == old0 + 1 && run == runs[old0].shown
                                   && Get(run, "status") == Str("completed"))
  {
    KeepsThroughout(h, 0, PollTime(k));
    var reply := remote.api(PollTime(k));
    if reply.Answer? {
      PageIsJudgedAsWhole(h(0), h(PollTime(k)), reply);
    }
    hide JudgeRuns, WorkflowRuns, NewestIds;
  }

  lemma UndecidedInWorld(h: History, remote: Remote, k: nat)
    requires Receives(h) && Faithful(remote, h)
    ensures Undecided(remote, NewestId(h(0)), k)
            <==> forall j: nat :: j < k ==> remote.api(PollTime(j)).Answer? && Waits(h, j)
  {
    PendingIsUndecided(remote, NewestId(h(0)), k);
    hide Judge, Waits, PollTime, Undecided, NewestId;
    forall j: nat
      ensures VerdictAt(remote, NewestId(h(0)), j).Pending? <==> remote.api(PollTime(j)).Answer? && Waits(h, j)
    {
      VerdictInWorld(h, remote, j);
    }
  }

  lemma ProvesInWorld(h: History, remote: Remote, requestId: string, k: nat, id: nat, url: string)
    requires Receives(h) && Faithful(remote, h)
    ensures (exists run :: Proves(remote, NewestId(h(0)), requestId, k, id, url, run))
            <==> remote.api(PollTime(k)).Answer? && SucceedsAlone(h, k, id, url)
                 && LogsName(remote.logs(PollTime(k) + 1, id), requestId)
  {
    var reply, w, runs, old0 := remote.api(PollTime(k)), NewestId(h(0)), h(PollTime(k)), |h(0)|;
    VerdictInWorld(h, remote, k);
    hide Judge, PollTime, Contains, NewestId, ShowsLone;
    if run :| Proves(remote, w, requestId, k, id, url, run) {
      ReadyIsLoneAndFinished(reply, w, run);
    }
    if reply.Answer? && SucceedsAlone(h, k, id, url) && LogsName(remote.logs(PollTime(k) + 1, id), requestId) {
      var run := runs[old0].shown;
      ReadyIsLoneAndFinished(reply, w, run);
      LoneHasId(reply, w, run);
      assert Proves(remote, w, requestId, k, id, url, run);
    }
  }

  /** Poll `k` is the first to show anything but waiting, and it shows the one new run succeeded, with logs that name the request. */
  ghost predicate WinsAt(h: History, remote: Remote, requestId: string, k: nat, id: nat, url: string) {
    && (forall j: nat :: j < k ==> remote.api(PollTime(j)).Answer? && Waits(h, j))
    && remote.api(PollTime(k)).Answer? && SucceedsAlone(h, k, id, url)
    && LogsName(remote.logs(PollTime(k) + 1, id), requestId)
  }

  lemma WinsInWorld(h: History, remote: Remote, requestId: string, k: nat, id: nat, url: string)
    requires Receives(h) && Faithful(remote, h)
    ensures WinsAt(h, remote, requestId, k, id, url)
            <==> Undecided(remote, NewestId(h(0)), k)
                 && exists run :: Proves(remote, NewestId(h(0)), requestId, k, id, url, run)
  {
    hide Waits, SucceedsAlone, LogsName, Proves, Undecided, NewestId;
    UndecidedInWorld(h, remote, k);
    ProvesInWorld(h, remote, requestId, k, id, url);
  }

  /**
   A dispatch returns a run exactly when the POST is taken and some poll within
   the attempts wins: everything up to it is answered, no second run is created
   in that time, and it is the first to show the one new run finished.
   */
  lemma ReturnsExactlyTheLoneRun<R>(raw: Fields, sdk: Sdk<R>, parse: UrlParser, remote: Remote, maxAttempts: int,
                                    h: History, id: nat, url: string)
    requires Receives(h) && Faithful(remote, h)
    ensures var request := RequestFromMapping(raw, sdk, parse);
            Dispatch(raw, sdk, parse, remote, maxAttempts).0 == Returned(id, url)
            <==> request.Ok? && remote.api(0).Answer? && remote.api(1).Answer?
                 && exists k: nat :: k < maxAttempts && WinsAt(h, remote, sdk.requestId(request.value), k, id, url)
  {
    hide Dispatch, RequestFromMapping, WinsAt, Proves, Undecided, NewestId;
    DispatchReturnsExactly(raw, sdk, parse, remote, maxAttempts, id, url);
    var request := RequestFromMapping(raw, sdk, parse);
    if request.Ok? && remote.api(0).Answer? {
      var requestId, w := sdk.requestId(request.value), NewestId(h(0));
      BaselineIsNewestId(remote.api(0), h(0));
      forall k: nat
        ensures WinsAt(h, remote, requestId, k, id, url)
                <==> Undecided(remote, w, k) && exists run :: Proves(remote, w, requestId, k, id, url, run)
      {
        WinsInWorld(h, remote, requestId, k, id, url);
      }
    }
  }

  /** A second run created before this one is decided ends the dispatch, and the error lists the new runs. */
  lemma AmbiguityEndsDispatch<R>(raw: Fields, sdk: Sdk<R>, parse: UrlParser, remote: Remote, maxAttempts: int,
                                 h: History, k: nat)
    requires Receives(h) && Faithful(remote, h)
    requires RequestFromMapping(raw, sdk, parse).Ok? && remote.api(0).Answer? && remote.api(1).Answer?
    requires k < maxAttempts && forall j: nat :: j < k ==> remote.api(PollTime(j)).Answer? && Waits(h, j)
    requires remote.api(PollTime(k)).Answer? && |h(PollTime(k))| >= |h(0)| + 2
    ensures var runs := h(PollTime(k));
            Dispatch(raw, sdk, parse, remote, maxAttempts).0
            == Raised(Ambiguous(NewestId(h(0)), NewestIds(runs, ShownNew(h(0), runs))))
  {
    hide RequestFromMapping, NewestId, NewestIds, PollFrom, Undecided, Waits, Judge, Baseline;
    var w, requestId := NewestId(h(0)), sdk.requestId(RequestFromMapping(raw, sdk, parse).value);
    BaselineIsNewestId(remote.api(0), h(0));
    UndecidedInWorld(h, remote, k);
    PendingIsUndecided(remote, w, k);
    KeepsThroughout(h, 0, PollTime(k));
    PageIsJudgedAsWhole(h(0), h(PollTime(k)), remote.api(PollTime(k)));
    EndsAtFirstDecision(remote, w, requestId, k, maxAttempts);
  }

  /** Poll `k` is the first to show anything but waiting, and it shows two or more new runs. */
  ghost predicate ClashesAt(h: History, remote: Remote, k: nat) {
    && (forall j: nat :: j < k ==> remote.api(PollTime(j)).Answer? && Waits(h, j))
    && remote.api(PollTime(k)).Answer? && |h(PollTime(k))| >= |h(0)| + 2
  }

  lemma AmbiguousVerdict(h: History, remote: Remote, requestId: string, k: nat)
    requires Receives(h) && Faithful(remote, h)
    requires !VerdictAt(remote, NewestId(h(0)), k).Pending?
    ensures var o := ConclusionAt(remote, NewestId(h(0)), requestId, k).0;
            o.Raised? && o.e.Ambiguous? ==> remote.api(PollTime(k)).Answer? && |h(PollTime(k))| >= |h(0)| + 2
  {
    KeepsThroughout(h, 0, PollTime(k));
    var reply := remote.api(PollTime(k));
    if reply.Answer? {
      PageIsJudgedAsWhole(h(0), h(PollTime(k)), reply);
    }
    hide JudgeRuns, WorkflowRuns, NewestIds, Contains, NewestId;
  }

  lemma BaselineIsNotAmbiguous(reply: Reply)
    ensures Baseline(reply).Err? ==> !Baseline(reply).error.Ambiguous?
  {
    hide WorkflowRuns, Watermark;
  }

  /** The outcome is ambiguous exactly when the POST is taken and some poll in time clashes. */
  lemma AmbiguousExactly<R>(raw: Fields, sdk: Sdk<R>, parse: UrlParser, remote: Remote, maxAttempts: int, h: History)
    requires Receives(h) && Faithful(remote, h)
    ensures var o := Dispatch(raw, sdk, parse, remote, maxAttempts).0;
            o.Raised? && o.e.Ambiguous?
            <==> RequestFromMapping(raw, sdk, parse).Ok? && remote.api(0).Answer? && remote.api(1).Answer?
                 && exists k: nat :: k < maxAttempts && ClashesAt(h, remote, k)
  {
    hide RequestFromMapping, NewestId, NewestIds, PollFrom, Undecided, Waits, Judge, Baseline, ConclusionAt, VerdictAt, Receives,
         Faithful;
    var request := RequestFromMapping(raw, sdk, parse);
    BaselineIsNotAmbiguous(remote.api(0));
    if request.Ok? && remote.api(0).Answer? && remote.api(1).Answer? {
      var w, requestId := NewestId(h(0)), sdk.requestId(request.value);
      BaselineInWorld(remote, h);
      var first := FirstDecision(remote, w, 0, maxAttempts);
      var o := Dispatch(raw, sdk, parse, remote, maxAttempts).0;
      assert o == PollFrom(remote, w, requestId, 0, maxAttempts).0;
      if first.None? {
        EndsByTimeout(remote, w, requestId, maxAttempts);
        assert !(o.Raised? && o.e.Ambiguous?);
      } else {
        EndsAtFirstDecision(remote, w, requestId, first.value, maxAttempts);
        AmbiguousVerdict(h, remote, requestId, first.value);
        PendingIsUndecided(remote, w, first.value);
        UndecidedInWorld(h, remote, first.value);
        assert o.Raised? && o.e.Ambiguous? ==> ClashesAt(h, remote, first.value);
      }
      if k: nat :| k < maxAttempts && ClashesAt(h, remote, k) {
        AmbiguityEndsDispatch(raw, sdk, parse, remote, maxAttempts, h, k);
      }
    } else if request.Ok? && remote.api(0).Fault? {
      FaultIsNoBaseline(remote.api(0));
    }
  }

  lemma FaultIsNoBaseline(reply: Reply)
    requires reply.Fault?
    ensures Baseline(reply) == Err(ApiFault)
  {
  }

  lemma BaselineInWorld(remote: Remote, h: History)
    requires Receives(h) && Faithful(remote, h) && remote.api(0).Answer?
    ensures Baseline(remote.api(0)) == Ok(NewestId(h(0)))
  {
    BaselineIsNewestId(remote.api(0), h(0));
  }

  /**
   Whatever other dispatchers do meanwhile: a run that is returned is the run
   this request caused, it was created after the baseline was read, and at one
   poll it was the only run created since.
   */
  lemma ReturnedRunIsOwn<R>(raw: Fields, sdk: Sdk<R>, parse: UrlParser, remote: Remote, maxAttempts: int,
                            h: History, id: nat, url: string) returns (k: nat)
    requires Receives(h) && Faithful(remote, h)
    requires Dispatch(raw, sdk, parse, remote, maxAttempts).0 == Returned(id, url)
    ensures RequestFromMapping(raw, sdk, parse).Ok?
    ensures k < maxAttempts && SucceedsAlone(h, k, id, url)
    ensures var requestId := sdk.requestId(RequestFromMapping(raw, sdk, parse).value);
            LogsAreOwn(remote, h, requestId) ==> h(PollTime(k))[|h(0)|].cause == requestId
  {
    hide Dispatch, RequestFromMapping, LogsName;
    ReturnsExactlyTheLoneRun(raw, sdk, parse, remote, maxAttempts, h, id, url);
    var requestId := sdk.requestId(RequestFromMapping(raw, sdk, parse).value);
    k :| k < maxAttempts && WinsAt(h, remote, requestId, k, id, url);
    KeepsThroughout(h, PollTime(k), PollTime(k) + 1);
  }

  /** If no run of this request existed when the POST arrived, the run returned is newer than all that did. */
  lemma ReturnedRunFollowsPost<R>(raw: Fields, sdk: Sdk<R>, parse: UrlParser, remote: Remote, maxAttempts: int,
                                  h: History, id: nat, url: string)
    requires Receives(h) && Faithful(remote, h)
    requires Dispatch(raw, sdk, parse, remote, maxAttempts).0 == Returned(id, url)
    requires RequestFromMapping(raw, sdk, parse).Ok?
    requires LogsAreOwn(remote, h, sdk.requestId(RequestFromMapping(raw, sdk, parse).value))
    requires forall i :: 0 <= i < |h(1)| ==> h(1)[i].cause != sdk.requestId(RequestFromMapping(raw, sdk, parse).value)
    ensures forall i :: 0 <= i < |h(1)| ==> IdOf(h(1)[i]) < id
  {
    hide Dispatch, RequestFromMapping;
    var k := ReturnedRunIsOwn(raw, sdk, parse, remote, maxAttempts, h, id, url);
    var runs, last := h(PollTime(k)), |h(0)|;
    KeepsThroughout(h, 0, 1);
    KeepsThroughout(h, 1, PollTime(k));
    assert |h(1)| == last;
  }

  // ---- the undisturbed dispatch ----

  function SuccessfulRun(id: nat, url: string): Fields {
    map["id" := Int(id), "status" := Str("completed"), "conclusion" := Str("success"), "html_url" := Str(url)]
  }

  /** A receiver whose first run is caused by the POST and has finished by the first poll. */
  function QuietHistory(requestId: string, id: nat, url: string): History {
    (t: nat) => if t < 2 then [] else [Run(requestId, SuccessfulRun(id, url))]
  }

  /** A remote that fails at nothing and shows that receiver. */
  function QuietRemote(requestId: string, id: nat, url: string): Remote {
    Remote((t: nat) => Answer(Obj(map["workflow_runs" := Arr(if t < 2 then [] else [Obj(SuccessfulRun(id, url))])])),
           (t: nat, i: nat) => Logs(requestId))
  }

  lemma QuietRunHasId(id: nat, url: string)
    requires id > 0
    ensures RunId(SuccessfulRun(id, url)) == Some(id)
  {
  }

  lemma QuietReceives(requestId: string, id: nat, url: string)
    requires id > 0
    ensures Receives(QuietHistory(requestId, id, url))
  {
    QuietRunHasId(id, url);
    hide SuccessfulRun, RunId;
  }

  /** How a list of objects is decoded. */
  lemma RunsOf(runs: seq<Json>)
    requires forall i :: 0 <= i < |runs| ==> runs[i].Obj?
    ensures WorkflowRuns(Obj(map["workflow_runs" := Arr(runs)]))
         == Some(seq(|runs|, i requires 0 <= i < |runs| => runs[i].fields))
  {
  }

  lemma QuietPage(requestId: string, id: nat, url: string, t: nat)
    ensures ShowsPage(QuietRemote(requestId, id, url).api(t), QuietHistory(requestId, id, url)(t))
  {
    var runs := QuietHistory(requestId, id, url)(t);
    var items := if t < 2 then [] else [Obj(SuccessfulRun(id, url))];
    RunsOf(items);
    hide SuccessfulRun, WorkflowRuns;
    assert seq(|items|, i requires 0 <= i < |items| => items[i].fields) == Page(runs);
  }

  lemma QuietCause(requestId: string, id: nat, url: string, t: nat, i: nat)
    ensures CausedBy(QuietHistory(requestId, id, url)(t), i, requestId)
  {
    var runs := QuietHistory(requestId, id, url)(t);
    assert forall k :: 0 <= k < |runs| ==> runs[k].cause == requestId;
  }

  lemma QuietLogs(requestId: string, id: nat, url: string)
    ensures LogsAreOwn(QuietRemote(requestId, id, url), QuietHistory(requestId, id, url), requestId)
  {
    var h, remote := QuietHistory(requestId, id, url), QuietRemote(requestId, id, url);
    hide QuietHistory, QuietRemote, CausedBy, LogsName;
    forall t: nat, i: nat ensures LogsName(remote.logs(t, i), requestId) ==> CausedBy(h(t), i, requestId) {
      QuietCause(requestId, id, url, t, i);
    }
  }

  lemma QuietWorld(requestId: string, id: nat, url: string)
    requires id > 0
    ensures Receives(QuietHistory(requestId, id, url))
    ensures Faithful(QuietRemote(requestId, id, url), QuietHistory(requestId, id, url))
    ensures LogsAreOwn(QuietRemote(requestId, id, url), QuietHistory(requestId, id, url), requestId)
  {
    QuietReceives(requestId, id, url);
    QuietLogs(requestId, id, url);
    hide QuietRemote, QuietHistory, ShowsPage, Receives, LogsAreOwn;
    forall t: nat ensures ShowsPage(QuietRemote(requestId, id, url).api(t), QuietHistory(requestId, id, url)(t)) {
      QuietPage(requestId, id, url, t);
    }
  }

  lemma QuietWin(requestId: string, id: nat, url: string)
    requires id > 0 && URL_PREFIX <= url
    ensures WinsAt(QuietHistory(requestId, id, url), QuietRemote(requestId, id, url), requestId, 0, id, url)
  {
    assert OccursAt(requestId, requestId, 0);
    FoundAt(requestId, requestId, 0);
    assert Contains(requestId, requestId);
    hide Contains;
    var h := QuietHistory(requestId, id, url);
    var run := SuccessfulRun(id, url);
    assert |h(0)| == 0 && h(PollTime(0)) == [Run(requestId, run)];
    assert RunId(run) == Some(id);
  }

  /** Every accepted request can succeed: undisturbed, its run is returned at the first poll. */
  lemma UndisturbedDispatchReturns<R>(raw: Fields, sdk: Sdk<R>, parse: UrlParser, maxAttempts: int, id: nat, url: string)
    requires RequestFromMapping(raw, sdk, parse).Ok? && maxAttempts > 0 && id > 0 && URL_PREFIX <= url
    ensures var requestId := sdk.requestId(RequestFromMapping(raw, sdk, parse).value);
            Dispatch(raw, sdk, parse, QuietRemote(requestId, id, url), maxAttempts).0 == Returned(id, url)
  {
    var requestId := sdk.requestId(RequestFromMapping(raw, sdk, parse).value);
    var h, remote := QuietHistory(requestId, id, url), QuietRemote(requestId, id, url);
    hide Dispatch, RequestFromMapping, Receives, Faithful, WinsAt;
    QuietWorld(requestId, id, url);
    QuietWin(requestId, id, url);
    ReturnsExactlyTheLoneRun(raw, sdk, parse, remote, maxAttempts, h, id, url);
  }

  // ---- several dispatchers ----

  /** What one dispatcher sees of the receiver's life: the state at the time of each of its calls. */
  function View(life: History, clock: nat -> nat): History {
    (t: nat) => life(clock(t))
  }

  lemma ViewReceives(life: History, clock: nat -> nat)
    requires Receives(life) && forall t: nat :: clock(t) <= clock(t + 1)
    ensures Receives(View(life, clock))
  {
    hide HandsOutIds, KeepsRuns;
    var h := View(life, clock);
    forall t: nat ensures HandsOutIds(h(t)) && KeepsRuns(h(t), h(t + 1)) {
      KeepsThroughout(life, clock(t), clock(t + 1));
    }
  }

  lemma OneCausePerRun(life: History, s: nat, t: nat, i: nat, j: nat)
    requires Receives(life) && i < |life(s)| && j < |life(t)| && IdOf(life(s)[i]) == IdOf(life(t)[j])
    ensures life(s)[i].cause == life(t)[j].cause
  {
    var late := if s < t then t else s;
    KeepsThroughout(life, s, late);
    KeepsThroughout(life, t, late);
    var runs := life(late);
    assert IdOf(runs[i]) == IdOf(runs[j]);
  }

  /** At work at its own pace on a receiver, a dispatcher of this request was returned this run. */
  ghost predicate IsReturned<R>(life: History, clock: nat -> nat, raw: Fields, sdk: Sdk<R>, parse: UrlParser, remote: Remote,
                                maxAttempts: int, requestId: string, id: nat, url: string) {
    var request := RequestFromMapping(raw, sdk, parse);
    && (forall t: nat :: clock(t) <= clock(t + 1))
    && Faithful(remote, View(life, clock)) && LogsAreOwn(remote, View(life, clock), requestId)
    && request.Ok? && sdk.requestId(request.value) == requestId
    && Dispatch(raw, sdk, parse, remote, maxAttempts).0 == Returned(id, url)
  }

  /** Where in the receiver's life the run returned to one dispatcher stands, and what caused it. */
  lemma OwnRunInLife<R>(life: History, clock: nat -> nat, raw: Fields, sdk: Sdk<R>, parse: UrlParser, remote: Remote,
                        maxAttempts: int, requestId: string, id: nat, url: string) returns (s: nat, i: nat)
    requires Receives(life) && IsReturned(life, clock, raw, sdk, parse, remote, maxAttempts, requestId, id, url)
    ensures i < |life(s)| && IdOf(life(s)[i]) == id && life(s)[i].cause == requestId
  {
    hide Dispatch, RequestFromMapping, Receives, Faithful, LogsAreOwn, PollTime, IdOf;
    ViewReceives(life, clock);
    var h := View(life, clock);
    var k := ReturnedRunIsOwn(raw, sdk, parse, remote, maxAttempts, h, id, url);
    s, i := clock(PollTime(k)), |h(0)|;
    assert h(PollTime(k)) == life(s);
  }

  /** Two dispatchers at work on one receiver never return the same run for two requests. */
  lemma DispatchersNeverShareARun<R, S>(life: History, parse: UrlParser, id: nat, url1: string, url2: string,
                                        raw1: Fields, sdk1: Sdk<R>, remote1: Remote, max1: int, clock1: nat -> nat, requestId1: string,
                                        raw2: Fields, sdk2: Sdk<S>, remote2: Remote, max2: int, clock2: nat -> nat, requestId2: string)
    requires Receives(life)
    requires IsReturned(life, clock1, raw1, sdk1, parse, remote1, max1, requestId1, id, url1)
    requires IsReturned(life, clock2, raw2, sdk2, parse, remote2, max2, requestId2, id, url2)
    ensures requestId1 == requestId2
  {
    hide IsReturned, Receives, IdOf;
    var s1, i1 := OwnRunInLife(life, clock1, raw1, sdk1, parse, remote1, max1, requestId1, id, url1);
    var s2, i2 := OwnRunInLife(life, clock2, raw2, sdk2, parse, remote2, max2, requestId2, id, url2);
    OneCausePerRun(life, s1, s2, i1, i2);
  }
}
