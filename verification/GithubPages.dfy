/** The bounded paginator of the GitHub client (common/runtime/github_api.py). */
module GithubPages {

  const PER_PAGE := 100

  /** The "workflow_runs" field of one response. */
  datatype Payload<+R> = Batch(runs: seq<R>) | NotAList

  /** What the server answers, page by page, and how often it was asked. */
  class Client<R> {
    const answers: nat -> Payload<R>
    var requests: nat

    constructor (answers: nat -> Payload<R>)
      ensures this.answers == answers && requests == 0
    {
      this.answers := answers;
      requests := 0;
    }

    method RequestPage(page: nat) returns (payload: Payload<R>)
      modifies this
      ensures payload == answers(page) && requests == old(requests) + 1
    {
      payload := answers(page);
      requests := requests + 1;
    }

    /** `list_workflow_runs` */
    method ListWorkflowRuns(maxPages: int) returns (runs: seq<R>)
      modifies this
      ensures runs == Listed(answers, 1, maxPages)
      ensures requests == old(requests) + Requests(answers, 1, maxPages)
    {
      hide Listed, Requests;
      ghost var listed, asked := Listed(answers, 1, maxPages), Requests(answers, 1, maxPages);
      runs := [];
      var page := 1;
      while page <= maxPages
        invariant page >= 1
        invariant runs + Listed(answers, page, maxPages) == listed
        invariant requests + Requests(answers, page, maxPages) == old(requests) + asked
      {
        PageStep(answers, page, maxPages);
        var payload := RequestPage(page);
        if payload.NotAList? || payload.runs == [] {
          break;
        }
        Behind(runs, payload.runs, Listed(answers, page + 1, maxPages));
        runs := runs + payload.runs;
        if |payload.runs| < PER_PAGE {
          break;
        }
        page := page + 1;
      }
      if page > maxPages {
        NoPage(answers, page, maxPages);
      }
    }
  }

  lemma Behind<R>(a: seq<R>, b: seq<R>, c: seq<R>)
    ensures a + b + c == a + (b + c)
  {
  }

  lemma PageStep<R>(answers: nat -> Payload<R>, page: nat, maxPages: int)
    requires page <= maxPages
    ensures var answer := answers(page);
            if answer.NotAList? || |answer.runs| < PER_PAGE
            then Listed(answers, page, maxPages) == (if answer.NotAList? then [] else answer.runs)
                 && Requests(answers, page, maxPages) == 1
            else Listed(answers, page, maxPages) == answer.runs + Listed(answers, page + 1, maxPages)
                 && Requests(answers, page, maxPages) == 1 + Requests(answers, page + 1, maxPages)
  {
  }

  lemma NoPage<R>(answers: nat -> Payload<R>, page: nat, maxPages: int)
    requires page > maxPages
    ensures Listed(answers, page, maxPages) == [] && Requests(answers, page, maxPages) == 0
  {
  }

  /** What the pages from `page` on contribute. */
  function Listed<R>(answers: nat -> Payload<R>, page: nat, maxPages: int): seq<R>
    decreases maxPages - page
  {
    if page > maxPages || answers(page).NotAList? then []
    else if |answers(page).runs| < PER_PAGE then answers(page).runs
    else answers(page).runs + Listed(answers, page + 1, maxPages)
  }

  function Requests<R>(answers: nat -> Payload<R>, page: nat, maxPages: int): nat
    decreases maxPages - page
  {
    if page > maxPages then 0
    else if answers(page).NotAList? || |answers(page).runs| < PER_PAGE then 1
    else 1 + Requests(answers, page + 1, maxPages)
  }

  function Min(a: int, b: int): int {
    if a <= b then a else b
  }

  /** Page `page` (counted from 1) of a list. */
  function PageOf<R>(list: seq<R>, page: nat): seq<R>
    requires page >= 1
  {
    list[Min(PER_PAGE * (page - 1), |list|)..Min(PER_PAGE * page, |list|)]
  }

  ghost predicate Serves<R(!new)>(answers: nat -> Payload<R>, lists: nat -> seq<R>) {
    forall page: nat :: page >= 1 ==> answers(page) == Batch(PageOf(lists(page), page))
  }

  lemma PageLength<R>(list: seq<R>, page: nat)
    requires page >= 1 && PER_PAGE * (page - 1) <= |list|
    ensures PageOf(list, page) == list[PER_PAGE * (page - 1)..Min(PER_PAGE * page, |list|)]
    ensures |PageOf(list, page)| == Min(PER_PAGE, |list| - PER_PAGE * (page - 1))
  {
  }

  /** A list that does not change is returned up to the page bound, with no request to spare. */
  lemma {:induction false} StableListIsReturned<R>(answers: nat -> Payload<R>, list: seq<R>, page: nat, maxPages: int)
    requires page >= 1 && forall p: nat :: p >= 1 ==> answers(p) == Batch(PageOf(list, p))
    requires PER_PAGE * (page - 1) <= |list| && page - 1 <= maxPages
    ensures Listed(answers, page, maxPages) == list[PER_PAGE * (page - 1)..Min(PER_PAGE * maxPages, |list|)]
    ensures Requests(answers, page, maxPages) == Min(maxPages, |list| / PER_PAGE + 1) - (page - 1)
    decreases maxPages - page
  {
    hide Listed, Requests, PageOf;
    if page > maxPages {
      NoPage(answers, page, maxPages);
    } else {
      PageStep(answers, page, maxPages);
      PageLength(list, page);
      assert answers(page) == Batch(PageOf(list, page));
      if |PageOf(list, page)| == PER_PAGE {
        StableListIsReturned(answers, list, page + 1, maxPages);
        var a, b, c := PER_PAGE * (page - 1), PER_PAGE * page, Min(PER_PAGE * maxPages, |list|);
        assert list[a..b] + list[b..c] == list[a..c];
      }
    }
  }

  /** A newest-first list that may gain entries at its front between two requests. */
  ghost predicate GrowsAtFront<R(!new)>(lists: nat -> seq<R>) {
    forall p: nat :: |lists(p)| <= |lists(p + 1)| && lists(p + 1)[|lists(p + 1)| - |lists(p)|..] == lists(p)
  }

  lemma {:induction false} LengthsGrow<R(!new)>(lists: nat -> seq<R>, p: nat, q: nat)
    requires GrowsAtFront(lists) && p <= q
    ensures |lists(p)| <= |lists(q)|
    decreases q
  {
    if p < q {
      LengthsGrow(lists, p, q - 1);
      assert |lists(q - 1)| <= |lists(q - 1 + 1)|;
    }
  }

  /** Where a run stands after the next arrivals. */
  lemma Shifted<R(!new)>(lists: nat -> seq<R>, p: nat, i: nat)
    requires GrowsAtFront(lists) && i < |lists(p)|
    ensures var shift := |lists(p + 1)| - |lists(p)|; shift >= 0 && lists(p)[i] == lists(p + 1)[i + shift]
  {
    var shift := |lists(p + 1)| - |lists(p)|;
    assert lists(p)[i] == lists(p + 1)[shift..][i];
  }

  lemma OnPage<R>(list: seq<R>, page: nat, i: nat)
    requires page >= 1 && PER_PAGE * (page - 1) <= i < |list|
    ensures i < PER_PAGE * page ==> list[i] in PageOf(list, page)
    ensures i >= PER_PAGE * page ==> |PageOf(list, page)| == PER_PAGE
  {
    var from := PER_PAGE * (page - 1);
    if i < PER_PAGE * page {
      assert PageOf(list, page)[i - from] == list[i];
    }
  }

  /** A run of the first snapshot is on the page just asked for, or a later request is made for it. */
  lemma OnPageOrLater<R(!new)>(answers: nat -> Payload<R>, lists: nat -> seq<R>, page: nat, maxPages: int, i: nat)
    requires Serves(answers, lists) && 1 <= page <= maxPages
    requires PER_PAGE * (page - 1) <= i < |lists(page)|
    ensures i < PER_PAGE * page ==> lists(page)[i] in Listed(answers, page, maxPages)
    ensures i >= PER_PAGE * page ==>
              forall run <- Listed(answers, page + 1, maxPages) :: run in Listed(answers, page, maxPages)
  {
    var batch := PageOf(lists(page), page);
    assert answers(page) == Batch(batch);
    hide Serves;
    OnPage(lists(page), page, i);
    PageStep(answers, page, maxPages);
    hide Listed, PageOf;
  }

  /**
   Arrivals between requests shift the pages, so a run may be returned twice,
   but no run of the first snapshot is lost while the list fits the page bound.
   */
  lemma {:induction false} GrowthLosesNothing<R(!new)>(answers: nat -> Payload<R>, lists: nat -> seq<R>, page: nat,
                                                       maxPages: int, i: nat)
    requires Serves(answers, lists) && GrowsAtFront(lists)
    requires 1 <= page <= maxPages && |lists(maxPages)| <= PER_PAGE * maxPages
    requires PER_PAGE * (page - 1) <= i < |lists(page)|
    ensures lists(page)[i] in Listed(answers, page, maxPages)
    decreases maxPages - page
  {
    hide Listed, PageOf, GrowsAtFront, Serves;
    OnPageOrLater(answers, lists, page, maxPages, i);
    if i >= PER_PAGE * page {
      LengthsGrow(lists, page, maxPages);
      Shifted(lists, page, i);
      GrowthLosesNothing(answers, lists, page + 1, maxPages, i + (|lists(page + 1)| - |lists(page)|));
    }
  }

  // ---- any answers at all ----

  /** An answer behind which no further page is asked for. */
  predicate IsLast<R>(answer: Payload<R>) {
    answer.NotAList? || |answer.runs| < 100
  }

  function RunsOf<R>(answer: Payload<R>): seq<R> {
    if answer.NotAList? then [] else answer.runs
  }

  /** What the pages from `from` to `to` hold. */
  function Together<R>(answers: nat -> Payload<R>, from: nat, to: nat): seq<R>
    decreases to - from
  {
    if from > to then [] else RunsOf(answers(from)) + Together(answers, from + 1, to)
  }

  /**
   Whatever the server answers: the runs of the pages up to the first short one,
   or one that is no list, and of all pages in the bound if there is none.
   */
  lemma {:induction false} PagesAreListed<R>(answers: nat -> Payload<R>, page: nat, last: nat, maxPages: int)
    requires page <= last + 1 && (page <= last ==> last <= maxPages)
    requires forall p: nat :: page <= p < last ==> !IsLast(answers(p))
    requires page <= last && !IsLast(answers(last)) ==> last == maxPages
    requires page > last ==> page > maxPages
    ensures Listed(answers, page, maxPages) == Together(answers, page, last)
    ensures Requests(answers, page, maxPages) == last - page + 1
    decreases last + 1 - page
  {
    hide Listed, Requests;
    if page > last {
      NoPage(answers, page, maxPages);
    } else {
      PageStep(answers, page, maxPages);
      if page < last || !IsLast(answers(page)) {
        PagesAreListed(answers, page + 1, last, maxPages);
      } else {
        assert Together(answers, page + 1, last) == [];
      }
    }
  }
}
