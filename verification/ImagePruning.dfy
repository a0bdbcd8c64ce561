/**
 The prune run (common/runtime/ghcr_retention.py): list each image, delete what
 the classifier selects, stop at the first failing call.  The registry answers
 as it pleases; a failing DELETE may or may not have taken effect.
 */
module ImagePruning {
  import opened Wrappers
  import opened Text
  import opened ImageRetention
  import opened Releases

  type Images = map<string, seq<Version>>

  datatype Call = List(image: string) | DeleteVersion(image: string, id: string)

  /** How one call goes: fine, refused without effect, or done but reported as failed. */
  datatype Fault = Fine | Refused | LostReply

  type Faults = nat -> Fault

  /** Which versions are to go; the laws of the loop hold for any such choice. */
  type Selector = Version -> bool

  /** The choice in force at each call, by the number of calls made before. */
  type Schedule = nat -> Selector

  /** The classifier's choice. */
  function Chosen(policy: Policy): Selector {
    v => Selected(v, policy)
  }

  /** The clock as it stands at each call. */
  type Clock = nat -> int

  /** What a run is asked to keep; the time is read anew for every image. */
  datatype Rules = Rules(retentionDays: int, liveShas: seq<string>) {
    function At(now: int): Policy { Policy(now, retentionDays, liveShas) }
  }

  function Scheduled(rules: Rules, clock: Clock): Schedule {
    (t: nat) => Chosen(rules.At(clock(t)))
  }

  /** The registry's images and the calls made so far. */
  datatype World = World(images: Images, calls: seq<Call>)

  datatype Outcome = Pruned(selected: nat) | BadRetentionDays | NoLiveShas | CallFailed

  function Listing(images: Images, image: string): seq<Version> {
    if image in images then images[image] else []
  }

  /** What is left of a listing without one version id. */
  function Without(versions: seq<Version>, id: string): seq<Version> {
    if |versions| == 0 then []
    else (if VersionId(versions[0]) == id then [] else [versions[0]]) + Without(versions[1..], id)
  }

  /** The version ids selected for deletion, in listing order. */
  function Doomed(versions: seq<Version>, sel: Selector): seq<string> {
    if |versions| == 0 then []
    else (if sel(versions[0]) then [VersionId(versions[0])] else []) + Doomed(versions[1..], sel)
  }

  function AfterList(w: World, image: string): World {
    w.(calls := w.calls + [List(image)])
  }

  function AfterDelete(w: World, image: string, id: string, fault: Fault): World {
    World(if fault == Refused || image !in w.images then w.images else w.images[image := Without(w.images[image], id)],
          w.calls + [DeleteVersion(image, id)])
  }

  /** DELETE the ids in order, up to the first failure. */
  function DeleteAll(w: World, image: string, ids: seq<string>, faults: Faults): (World, bool)
    decreases |ids|
  {
    if |ids| == 0 then (w, true)
    else
      var fault := faults(|w.calls|);
      var next := AfterDelete(w, image, ids[0], fault);
      if fault != Fine then (next, false) else DeleteAll(next, image, ids[1..], faults)
  }

  /** Prune one image: how many versions were selected, unless a call failed. */
  function PruneOne(w: World, image: string, sel: Selector, dryRun: bool, faults: Faults): (World, Option<nat>) {
    var listed := AfterList(w, image);
    var ids := Doomed(Listing(w.images, image), sel);
    if faults(|w.calls|) != Fine then (listed, None)
    else
      var (next, ok) := if dryRun then (listed, true) else DeleteAll(listed, image, ids, faults);
      (next, if ok then Some(|ids|) else None)
  }

  /** Prune the named images in turn; `total` versions were selected before. */
  function PruneFrom(w: World, names: seq<string>, sel: Schedule, dryRun: bool, faults: Faults, total: nat): (World, Outcome)
    decreases |names|
  {
    if |names| == 0 then (w, Pruned(total))
    else
      var one := PruneOne(w, names[0], sel(|w.calls|), dryRun, faults);
      if one.1.None? then (one.0, CallFailed)
      else PruneFrom(one.0, names[1..], sel, dryRun, faults, total + one.1.value)
  }

  function Prune(w: World, names: seq<string>, rules: Rules, clock: Clock, dryRun: bool, faults: Faults): (World, Outcome) {
    if rules.retentionDays < 1 then (w, BadRetentionDays)
    else if LiveSet(rules.liveShas) == {} then (w, NoLiveShas)
    else PruneFrom(w, names, Scheduled(rules, clock), dryRun, faults, 0)
  }

  function DeleteIds(decisions: seq<Decision>): seq<string> {
    if |decisions| == 0 then []
    else (if decisions[0].action == Delete then [decisions[0].versionId] else []) + DeleteIds(decisions[1..])
  }

  class Registry {
    var images: Images
    var calls: seq<Call>
    const faults: Faults

    constructor (images: Images, faults: Faults)
      ensures this.images == images && calls == [] && this.faults == faults
    {
      this.images, this.calls, this.faults := images, [], faults;
    }

    /** `_list_versions` */
    method ListVersions(image: string) returns (r: Option<seq<Version>>)
      modifies this
      ensures World(images, calls) == AfterList(old(World(images, calls)), image)
      ensures r == if faults(old(|calls|)) == Fine then Some(Listing(images, image)) else None
    {
      var fault := faults(|calls|);
      calls := calls + [List(image)];
      return if fault == Fine then Some(Listing(images, image)) else None;
    }

    /** `_delete_version` */
    method RemoveVersion(image: string, id: string) returns (ok: bool)
      modifies this
      ensures World(images, calls) == AfterDelete(old(World(images, calls)), image, id, faults(old(|calls|)))
      ensures ok == (faults(old(|calls|)) == Fine)
    {
      var fault := faults(|calls|);
      calls := calls + [DeleteVersion(image, id)];
      if fault != Refused && image in images {
        images := images[image := Without(images[image], id)];
      }
      return fault == Fine;
    }

    /** The pass over one image's decisions. */
    method DeleteSelected(image: string, decisions: seq<Decision>, dryRun: bool) returns (selected: nat, ok: bool)
      modifies this
      ensures (World(images, calls), ok)
           == (if dryRun then (old(World(images, calls)), true)
               else DeleteAll(old(World(images, calls)), image, DeleteIds(decisions), faults))
      ensures ok ==> selected == |DeleteIds(decisions)|
    {
      selected := 0;
      for j := 0 to |decisions|
        invariant dryRun ==> World(images, calls) == old(World(images, calls))
        invariant dryRun || DeleteAll(old(World(images, calls)), image, DeleteIds(decisions), faults)
                         == DeleteAll(World(images, calls), image, DeleteIds(decisions[j..]), faults)
        invariant selected + |DeleteIds(decisions[j..])| == |DeleteIds(decisions)|
      {
        DeleteIdsAt(decisions, j);
        if decisions[j].action == Delete {
          selected := selected + 1;
          if !dryRun {
            var deleted := RemoveVersion(image, decisions[j].versionId);
            if !deleted {
              return selected, false;
            }
          }
        }
      }
      assert decisions[|decisions|..] == [];
      return selected, true;
    }

    /** The body of the image loop. */
    method PruneImage(image: string, policy: Policy, dryRun: bool) returns (r: Option<nat>)
      modifies this
      ensures (World(images, calls), r) == PruneOne(old(World(images, calls)), image, Chosen(policy), dryRun, faults)
    {
      var listing := ListVersions(image);
      if listing.None? {
        return None;
      }
      var decisions := SelectRetentionDecisions(listing.value, policy);
      DecisionsAreDoomed(listing.value, policy);
      var selected, ok := DeleteSelected(image, decisions, dryRun);
      return if ok then Some(selected) else None;
    }

    /** `prune_ghcr_sha_images`; `clock` is the time as the run's calls go by. */
    method PruneShaImages(names: seq<string>, rules: Rules, clock: Clock, dryRun: bool) returns (r: Outcome)
      modifies this
      ensures (World(images, calls), r) == Prune(old(World(images, calls)), names, rules, clock, dryRun, faults)
    {
      if rules.retentionDays < 1 {
        return BadRetentionDays;
      }
      var live := NormalizeLiveShas(rules.liveShas);
      if live == {} {
        return NoLiveShas;
      }
      r := PruneImages(names, rules, clock, dryRun);
    }

    /** The image loop. */
    method PruneImages(names: seq<string>, rules: Rules, clock: Clock, dryRun: bool) returns (r: Outcome)
      modifies this
      ensures (World(images, calls), r) == PruneFrom(old(World(images, calls)), names, Scheduled(rules, clock), dryRun, faults, 0)
    {
      hide PruneOne, PruneFrom, Scheduled, Chosen;
      ghost var sel := Scheduled(rules, clock);
      ghost var all := PruneFrom(World(images, calls), names, sel, dryRun, faults, 0);
      var total: nat := 0;
      for i := 0 to |names|
        invariant PruneFrom(World(images, calls), names[i..], sel, dryRun, faults, total) == all
      {
        assert names[i..][1..] == names[i + 1..];
        var now := clock(|calls|);
        ScheduledAt(rules, clock, |calls|);
        PruneFromStep(World(images, calls), names[i..], sel, dryRun, faults, total);
        var selected := PruneImage(names[i], rules.At(now), dryRun);
        if selected.None? {
          return CallFailed;
        }
        total := total + selected.value;
      }
      assert names[|names|..] == [];
      PruneFromNothing(World(images, calls), sel, dryRun, faults, total);
      return Pruned(total);
    }
  }

  lemma ScheduledAt(rules: Rules, clock: Clock, t: nat)
    ensures Scheduled(rules, clock)(t) == Chosen(rules.At(clock(t)))
  {
  }

  lemma PruneFromNothing(w: World, sel: Schedule, dryRun: bool, faults: Faults, total: nat)
    ensures PruneFrom(w, [], sel, dryRun, faults, total) == (w, Pruned(total))
  {
  }

  lemma {:induction false} DoomedSnoc(versions: seq<Version>, v: Version, sel: Selector)
    ensures Doomed(versions + [v], sel) == Doomed(versions, sel) + Doomed([v], sel)
  {
    if versions == [] {
      assert versions + [v] == [v];
    } else {
      DoomedSnoc(versions[1..], v, sel);
      assert (versions + [v])[1..] == versions[1..] + [v];
    }
  }

  lemma DeleteIdsAt(decisions: seq<Decision>, j: nat)
    requires j < |decisions|
    ensures DeleteIds(decisions[j..])
         == (if decisions[j].action == Delete then [decisions[j].versionId] else []) + DeleteIds(decisions[j + 1..])
    ensures decisions[j].action == Delete ==> DeleteIds(decisions[j..])[1..] == DeleteIds(decisions[j + 1..])
    ensures decisions[j].action != Delete ==> DeleteIds(decisions[j..]) == DeleteIds(decisions[j + 1..])
  {
    assert decisions[j..][1..] == decisions[j + 1..];
  }

  lemma {:induction false} DeleteIdsSnoc(decisions: seq<Decision>, d: Decision)
    ensures DeleteIds(decisions + [d]) == DeleteIds(decisions) + DeleteIds([d])
  {
    if decisions == [] {
      assert decisions + [d] == [d];
    } else {
      DeleteIdsSnoc(decisions[1..], d);
      assert (decisions + [d])[1..] == decisions[1..] + [d];
    }
  }

  lemma OneDecision(v: Version, policy: Policy)
    ensures var d := Decide(v, policy.Cutoff(), LiveSet(policy.liveShas));
            Doomed([v], Chosen(policy)) == if d.Some? then DeleteIds([d.value]) else []
  {
    assert [v][1..] == [];
    var d := Decide(v, policy.Cutoff(), LiveSet(policy.liveShas));
    if d.Some? {
      assert d.value.versionId == VersionId(v);
      assert [d.value][1..] == [];
    }
  }

  lemma {:induction false} DecisionsAreDoomed(versions: seq<Version>, policy: Policy)
    ensures DeleteIds(Decisions(versions, policy.Cutoff(), LiveSet(policy.liveShas))) == Doomed(versions, Chosen(policy))
  {
    if versions != [] {
      var n := |versions| - 1;
      var cutoff, live := policy.Cutoff(), LiveSet(policy.liveShas);
      var before, d := Decisions(versions[..n], cutoff, live), Decide(versions[n], cutoff, live);
      hide Decisions, Decide, DeleteIds, Doomed, Chosen, LiveSet;
      assert versions[..n + 1] == versions == versions[..n] + [versions[n]];
      DecisionsStep(versions, n, cutoff, live);
      DecisionsAreDoomed(versions[..n], policy);
      DoomedSnoc(versions[..n], versions[n], Chosen(policy));
      OneDecision(versions[n], policy);
      if d.Some? { DeleteIdsSnoc(before, d.value); }
    }
  }

  // ---- what a run keeps, whatever fails ----

  /** The versions with none of these ids. */
  function Spared(versions: seq<Version>, ids: seq<string>): seq<Version> {
    if |versions| == 0 then []
    else (if VersionId(versions[0]) in ids then [] else [versions[0]]) + Spared(versions[1..], ids)
  }

  /** What deleting every selected id leaves: the versions that share no id with a selected one. */
  function Kept(versions: seq<Version>, sel: Selector): seq<Version> {
    Spared(versions, Doomed(versions, sel))
  }

  /** Of these ids, the listing shows none that no selected version carries. */
  ghost predicate OnlyDoomed(versions: seq<Version>, ids: seq<string>, sel: Selector) {
    forall v <- versions :: VersionId(v) in ids ==> VersionId(v) in Doomed(versions, sel)
  }

  lemma {:induction false} DoomedElements(versions: seq<Version>, sel: Selector)
    ensures forall id :: id in Doomed(versions, sel) <==>
              exists v <- versions :: sel(v) && VersionId(v) == id
  {
    if versions != [] {
      DoomedElements(versions[1..], sel);
      assert versions == [versions[0]] + versions[1..];
    }
  }

  lemma {:induction false} WithoutElements(versions: seq<Version>, id: string)
    ensures forall v :: v in Without(versions, id) <==> v in versions && VersionId(v) != id
  {
    if versions != [] {
      WithoutElements(versions[1..], id);
      assert versions == [versions[0]] + versions[1..];
    }
  }

  lemma {:induction false} WithoutNothing(versions: seq<Version>, id: string)
    requires forall v <- versions :: VersionId(v) != id
    ensures Without(versions, id) == versions
  {
    if versions != [] {
      assert versions[0] in versions;
      WithoutNothing(versions[1..], id);
    }
  }

  lemma DoomedWithout(versions: seq<Version>, id: string, sel: Selector)
    ensures forall x :: x in Doomed(Without(versions, id), sel) <==> x in Doomed(versions, sel) && x != id
  {
    DoomedElements(versions, sel);
    DoomedElements(Without(versions, id), sel);
    WithoutElements(versions, id);
  }

  lemma {:induction false} SparedWithout(versions: seq<Version>, id: string, ids: seq<string>, fewer: seq<string>)
    requires id in ids && forall x :: x in fewer <==> x in ids && x != id
    ensures Spared(Without(versions, id), fewer) == Spared(versions, ids)
  {
    if versions != [] {
      SparedWithout(versions[1..], id, ids, fewer);
      if VersionId(versions[0]) != id {
        assert ([versions[0]] + Without(versions[1..], id))[1..] == Without(versions[1..], id);
      } else {
        assert Without(versions, id) == Without(versions[1..], id);
      }
    }
  }

  lemma WithoutKeeps(versions: seq<Version>, id: string, sel: Selector)
    requires OnlyDoomed(versions, [id], sel)
    ensures Kept(Without(versions, id), sel) == Kept(versions, sel)
  {
    if v :| v in versions && VersionId(v) == id {
      DoomedWithout(versions, id, sel);
      SparedWithout(versions, id, Doomed(versions, sel), Doomed(Without(versions, id), sel));
    } else {
      WithoutNothing(versions, id);
    }
  }

  lemma {:induction false} SparedAll(versions: seq<Version>)
    ensures Spared(versions, []) == versions
  {
    if versions != [] { SparedAll(versions[1..]); }
  }

  lemma {:induction false} NothingDoomed(versions: seq<Version>, sel: Selector)
    requires forall v <- versions :: !sel(v)
    ensures Doomed(versions, sel) == []
  {
    if versions != [] { NothingDoomed(versions[1..], sel); }
  }

  /** Where nothing is selected everything is kept. */
  lemma KeptAll(versions: seq<Version>, sel: Selector)
    requires forall v <- versions :: !sel(v)
    ensures Kept(versions, sel) == versions && Doomed(versions, sel) == []
  {
    NothingDoomed(versions, sel);
    SparedAll(versions);
  }

  lemma {:induction false} SparedElements(versions: seq<Version>, ids: seq<string>)
    ensures forall v :: v in Spared(versions, ids) <==> v in versions && VersionId(v) !in ids
  {
    if versions != [] {
      SparedElements(versions[1..], ids);
      assert versions == [versions[0]] + versions[1..];
    }
  }

  /** Where ids are distinct, exactly the versions not selected are kept. */
  lemma KeptIsUnselected(versions: seq<Version>, sel: Selector)
    requires forall u <- versions, v <- versions :: VersionId(u) == VersionId(v) ==> u == v
    ensures forall v :: v in Kept(versions, sel) <==> v in versions && !sel(v)
  {
    SparedElements(versions, Doomed(versions, sel));
    DoomedElements(versions, sel);
  }

  /** A listing before and after some of its selected versions were deleted. */
  ghost predicate Shrunk(before: seq<Version>, after: seq<Version>, sel: Selector) {
    Kept(after, sel) == Kept(before, sel) && forall v <- after :: v in before
  }

  function DeleteCalls(image: string, ids: seq<string>): seq<Call> {
    if |ids| == 0 then [] else [DeleteVersion(image, ids[0])] + DeleteCalls(image, ids[1..])
  }

  lemma Suffixes(before: seq<Call>, made: seq<Call>, all: seq<Call>)
    requires before + made <= all
    ensures all[|before|..] == made + all[|before| + |made|..]
  {
    assert all[|before|..|before| + |made|] == made;
  }

  /** Deleting in order: the calls made are a prefix of the plan. */
  lemma {:induction false} DeleteAllCalls(w: World, image: string, ids: seq<string>, faults: Faults)
    ensures var (after, ok) := DeleteAll(w, image, ids, faults);
            && w.calls <= after.calls && after.calls[|w.calls|..] <= DeleteCalls(image, ids)
            && (ok ==> after.calls == w.calls + DeleteCalls(image, ids))
    decreases |ids|
  {
    if ids != [] {
      var next := AfterDelete(w, image, ids[0], faults(|w.calls|));
      var call := [DeleteVersion(image, ids[0])];
      assert next.calls == w.calls + call;
      hide AfterDelete;
      if faults(|w.calls|) == Fine {
        DeleteAllCalls(next, image, ids[1..], faults);
        var (after, ok) := DeleteAll(next, image, ids[1..], faults);
        CallsBehind(w.calls, call, after.calls, DeleteCalls(image, ids[1..]));
      } else {
        assert next.calls[|w.calls|..] == call;
      }
    } else {
      assert w.calls[|w.calls|..] == [] && w.calls + [] == w.calls;
    }
  }

  lemma CallsBehind(before: seq<Call>, made: seq<Call>, all: seq<Call>, rest: seq<Call>)
    requires before + made <= all && all[|before + made|..] <= rest
    ensures before <= all && all[|before|..] <= made + rest
    ensures all == before + made + rest ==> all == before + (made + rest)
  {
    Suffixes(before, made, all);
  }

  /** Deletions in one image leave the other images alone. */
  lemma {:induction false} DeleteAllElsewhere(w: World, image: string, ids: seq<string>, faults: Faults, other: string)
    requires other != image
    ensures Listing(DeleteAll(w, image, ids, faults).0.images, other) == Listing(w.images, other)
    decreases |ids|
  {
    if ids != [] && faults(|w.calls|) == Fine {
      DeleteAllElsewhere(AfterDelete(w, image, ids[0], Fine), image, ids[1..], faults, other);
    }
  }

  lemma DeleteOneShrinks(w: World, image: string, id: string, fault: Fault, sel: Selector)
    requires OnlyDoomed(Listing(w.images, image), [id], sel)
    ensures var after := Listing(AfterDelete(w, image, id, fault).images, image);
            && Shrunk(Listing(w.images, image), after, sel)
            && (fault != Refused ==> forall v <- after :: VersionId(v) != id)
  {
    if image in w.images {
      WithoutElements(w.images[image], id);
      WithoutKeeps(w.images[image], id, sel);
    }
  }

  lemma StillOnlyDoomed(versions: seq<Version>, ids: seq<string>, sel: Selector)
    requires ids != [] && OnlyDoomed(versions, ids, sel)
    ensures OnlyDoomed(versions, [ids[0]], sel) && OnlyDoomed(Without(versions, ids[0]), ids[1..], sel)
  {
    DoomedWithout(versions, ids[0], sel);
    WithoutElements(versions, ids[0]);
  }

  /** Only versions with a selected id go, and on success none of them is left. */
  lemma {:induction false} DeleteAllShrinks(w: World, image: string, ids: seq<string>, faults: Faults, sel: Selector)
    requires OnlyDoomed(Listing(w.images, image), ids, sel)
    ensures var (end, ok) := DeleteAll(w, image, ids, faults);
            && Shrunk(Listing(w.images, image), Listing(end.images, image), sel)
            && (ok ==> forall v <- Listing(end.images, image) :: VersionId(v) !in ids)
    decreases |ids|
  {
    hide Kept, OnlyDoomed;
    if ids != [] {
      var next := AfterDelete(w, image, ids[0], faults(|w.calls|));
      StillOnlyDoomed(Listing(w.images, image), ids, sel);
      DeleteOneShrinks(w, image, ids[0], faults(|w.calls|), sel);
      if faults(|w.calls|) == Fine {
        assert Without([], ids[0]) == [];
        assert Listing(next.images, image) == Without(Listing(w.images, image), ids[0]);
        DeleteAllShrinks(next, image, ids[1..], faults, sel);
        assert ids == [ids[0]] + ids[1..];
      }
    }
  }

  lemma PruneOneElsewhere(w: World, image: string, sel: Selector, dryRun: bool, faults: Faults, other: string)
    requires other != image
    ensures Listing(PruneOne(w, image, sel, dryRun, faults).0.images, other) == Listing(w.images, other)
  {
    DeleteAllElsewhere(AfterList(w, image), image, Doomed(Listing(w.images, image), sel), faults, other);
  }

  ghost predicate Below(narrow: Selector, wide: Selector) {
    forall v :: narrow(v) ==> wide(v)
  }

  /** Pruning one image, seen through any wider choice: it deletes nothing that choice would not. */
  lemma PruneOneShrinks(w: World, image: string, sel: Selector, wide: Selector, faults: Faults)
    requires Below(sel, wide)
    ensures var (next, selected) := PruneOne(w, image, sel, false, faults);
            && Shrunk(Listing(w.images, image), Listing(next.images, image), wide)
            && (selected.Some? ==> forall v <- Listing(next.images, image) :: !sel(v))
  {
    var versions := Listing(w.images, image);
    DoomedElements(versions, sel);
    DoomedElements(versions, wide);
    hide Kept;
    DeleteAllShrinks(AfterList(w, image), image, Doomed(versions, sel), faults, wide);
  }

  /** What is left where nothing selected is left. */
  lemma ShrunkToKept(before: seq<Version>, after: seq<Version>, sel: Selector)
    requires Shrunk(before, after, sel) && forall v <- after :: !sel(v)
    ensures after == Kept(before, sel)
  {
    KeptAll(after, sel);
  }

  lemma {:induction false} DeleteCallsLength(image: string, ids: seq<string>)
    ensures |DeleteCalls(image, ids)| == |ids|
  {
    if ids != [] { DeleteCallsLength(image, ids[1..]); }
  }

  lemma PruneOneCalls(w: World, image: string, sel: Selector, faults: Faults)
    ensures var (next, selected) := PruneOne(w, image, sel, false, faults);
            var plan := DeleteCalls(image, Doomed(Listing(w.images, image), sel));
            && w.calls <= next.calls && Deletes(next.calls[|w.calls|..]) <= plan
            && (selected.Some? ==> Deletes(next.calls[|w.calls|..]) == plan && selected.value == |plan|
                                   && |next.calls| == |w.calls| + 1 + |plan|)
  {
    var ids := Doomed(Listing(w.images, image), sel);
    var listed := AfterList(w, image);
    DeleteCallsLength(image, ids);
    DeleteAllCalls(listed, image, ids, faults);
    DeletesOfPrefix(DeleteCalls(image, ids), image, ids);
    assert listed.calls[|w.calls|..] == [List(image)] && [List(image)][1..] == [];
    if faults(|w.calls|) == Fine {
      var end := DeleteAll(listed, image, ids, faults).0;
      TraceSplit(w.calls, listed.calls, end.calls);
      DeletesOfPrefix(end.calls[|listed.calls|..], image, ids);
    }
  }

  /** The images once one of them is done. */
  function Done(images: Images, image: string, sel: Selector): Images {
    if image in images then images[image := Kept(images[image], sel)] else images
  }

  /** The deletions a run over these images is to make from call `t` on, if no call fails. */
  function Planned(images: Images, names: seq<string>, sel: Schedule, t: nat): seq<Call>
    decreases |names|
  {
    if |names| == 0 then []
    else
      var ids := Doomed(Listing(images, names[0]), sel(t));
      DeleteCalls(names[0], ids) + Planned(Done(images, names[0], sel(t)), names[1..], sel, t + 1 + |ids|)
  }

  /** The DELETE calls of a trace, in order. */
  function Deletes(calls: seq<Call>): seq<Call> {
    if |calls| == 0 then [] else (if calls[0].DeleteVersion? then [calls[0]] else []) + Deletes(calls[1..])
  }

  lemma TraceAssoc(a: seq<Call>, b: seq<Call>, c: seq<Call>)
    ensures a + b + c == a + (b + c)
  {
  }

  lemma {:induction false} DeletesConcat(a: seq<Call>, b: seq<Call>)
    ensures Deletes(a + b) == Deletes(a) + Deletes(b)
  {
    if a == [] {
      assert a + b == b;
    } else {
      var head := if a[0].DeleteVersion? then [a[0]] else [];
      assert (a + b)[1..] == a[1..] + b && (a + b)[0] == a[0];
      assert Deletes(a + b) == head + Deletes(a[1..] + b) && Deletes(a) == head + Deletes(a[1..]);
      hide Deletes;
      DeletesConcat(a[1..], b);
      TraceAssoc(head, Deletes(a[1..]), Deletes(b));
    }
  }

  lemma {:induction false} DeletesOfPrefix(plan: seq<Call>, image: string, ids: seq<string>)
    requires plan <= DeleteCalls(image, ids)
    ensures Deletes(plan) == plan
  {
    if plan != [] {
      DeletesOfPrefix(plan[1..], image, ids[1..]);
    }
  }

  lemma DoneListing(images: Images, image: string, sel: Selector, other: string)
    ensures Listing(Done(images, image, sel), other)
         == if other == image then Kept(Listing(images, image), sel) else Listing(images, other)
  {
  }

  /** The plan depends on the registry only through its listings. */
  lemma {:induction false} PlannedSame(a: Images, b: Images, names: seq<string>, sel: Schedule, t: nat)
    requires forall image :: Listing(a, image) == Listing(b, image)
    ensures Planned(a, names, sel, t) == Planned(b, names, sel, t)
    decreases |names|
  {
    hide Done, Kept, Doomed;
    if names != [] {
      var ids := Doomed(Listing(a, names[0]), sel(t));
      forall image
        ensures Listing(Done(a, names[0], sel(t)), image) == Listing(Done(b, names[0], sel(t)), image) {
        DoneListing(a, names[0], sel(t), image);
        DoneListing(b, names[0], sel(t), image);
      }
      PlannedSame(Done(a, names[0], sel(t)), Done(b, names[0], sel(t)), names[1..], sel, t + 1 + |ids|);
    }
  }

  lemma TraceSplit(x: seq<Call>, y: seq<Call>, z: seq<Call>)
    requires x <= y && y <= z
    ensures x <= z && Deletes(z[|x|..]) == Deletes(y[|x|..]) + Deletes(z[|y|..])
  {
    assert z[|x|..] == y[|x|..] + z[|y|..];
    DeletesConcat(y[|x|..], z[|y|..]);
  }

  /** What a run may do to one image's listing: delete what `wide` selects, and on success all that `narrow` does. */
  ghost predicate Safe(before: seq<Version>, after: seq<Version>, named: bool, done: bool, narrow: Selector, wide: Selector) {
    && Shrunk(before, after, wide)
    && (!named ==> after == before)
    && (named && done ==> forall v <- after :: !narrow(v))
  }

  /** The choices of a schedule lie between two choices. */
  ghost predicate Between(narrow: Selector, sel: Schedule, wide: Selector) {
    forall t: nat :: Below(narrow, sel(t)) && Below(sel(t), wide)
  }

  lemma SafeThenSafe(a: seq<Version>, b: seq<Version>, c: seq<Version>, first: bool, later: bool, done: bool,
                     narrow: Selector, wide: Selector)
    requires Safe(a, b, first, done, narrow, wide) && Safe(b, c, later, done, narrow, wide)
    ensures Safe(a, c, first || later, done, narrow, wide)
  {
    hide Kept;
  }

  lemma PruneOneIsSafe(w: World, name: string, sel: Selector, narrow: Selector, wide: Selector, faults: Faults, image: string)
    requires Below(narrow, sel) && Below(sel, wide)
    ensures var (next, selected) := PruneOne(w, name, sel, false, faults);
            Safe(Listing(w.images, image), Listing(next.images, image), image == name, selected.Some?, narrow, wide)
  {
    hide PruneOne, Kept;
    if image == name {
      PruneOneShrinks(w, image, sel, wide, faults);
    } else {
      PruneOneElsewhere(w, name, sel, false, faults, image);
    }
  }

  lemma PruneFromStep(w: World, names: seq<string>, sel: Schedule, dryRun: bool, faults: Faults, total: nat)
    requires names != []
    ensures var one := PruneOne(w, names[0], sel(|w.calls|), dryRun, faults);
            PruneFrom(w, names, sel, dryRun, faults, total)
            == if one.1.None? then (one.0, CallFailed)
               else PruneFrom(one.0, names[1..], sel, dryRun, faults, total + one.1.value)
  {
  }

  /**
   Safety, image by image, whatever fails and however the choice moves between
   two bounds: a run deletes no version but one that shares its id with one
   the wider choice selects, leaves images it does not name alone, and when it
   succeeds leaves nothing the narrower choice selects.
   */
  lemma {:induction false} RunIsSafe(w: World, names: seq<string>, sel: Schedule, narrow: Selector, wide: Selector,
                                     faults: Faults, total: nat, image: string)
    requires Between(narrow, sel, wide)
    ensures var (end, r) := PruneFrom(w, names, sel, false, faults, total);
            Safe(Listing(w.images, image), Listing(end.images, image), image in names, r.Pruned?, narrow, wide)
    decreases |names|, 1
  {
    if names != [] {
      hide PruneOne, PruneFrom, Safe, Between, Listing;
      StepIsSafe(w, names, sel, narrow, wide, faults, total, image);
      SafeStep(w, names, sel, narrow, wide, faults, total, image);
    } else {
      NothingIsSafe(Listing(w.images, image), narrow, wide);
    }
  }

  /** A run is safe if what its first step leaves to do is. */
  lemma SafeStep(w: World, names: seq<string>, sel: Schedule, narrow: Selector, wide: Selector,
                 faults: Faults, total: nat, image: string)
    requires names != []
    requires var one := PruneOne(w, names[0], sel(|w.calls|), false, faults);
             var (end, r) := if one.1.None? then (one.0, CallFailed)
                             else PruneFrom(one.0, names[1..], sel, false, faults, total + one.1.value);
             Safe(Listing(w.images, image), Listing(end.images, image), image in names, r.Pruned?, narrow, wide)
    ensures var (end, r) := PruneFrom(w, names, sel, false, faults, total);
            Safe(Listing(w.images, image), Listing(end.images, image), image in names, r.Pruned?, narrow, wide)
  {
    hide PruneOne, Safe, Listing;
  }

  lemma {:induction false} StepIsSafe(w: World, names: seq<string>, sel: Schedule, narrow: Selector, wide: Selector,
                                      faults: Faults, total: nat, image: string)
    requires names != [] && Between(narrow, sel, wide)
    ensures var one := PruneOne(w, names[0], sel(|w.calls|), false, faults);
            var (end, r) := if one.1.None? then (one.0, CallFailed)
                            else PruneFrom(one.0, names[1..], sel, false, faults, total + one.1.value);
            Safe(Listing(w.images, image), Listing(end.images, image), image in names, r.Pruned?, narrow, wide)
    decreases |names|, 0
  {
    hide PruneOne, PruneFrom, Safe, Below, Listing;
    var one := PruneOne(w, names[0], sel(|w.calls|), false, faults);
    var a, b := Listing(w.images, image), Listing(one.0.images, image);
    PruneOneIsSafe(w, names[0], sel(|w.calls|), narrow, wide, faults, image);
    assert image in names <==> image == names[0] || image in names[1..];
    if one.1.Some? {
      var run := PruneFrom(one.0, names[1..], sel, false, faults, total + one.1.value);
      RunIsSafe(one.0, names[1..], sel, narrow, wide, faults, total + one.1.value, image);
      SafeIfDone(a, b, image == names[0], run.1.Pruned?, narrow, wide);
      SafeThenSafe(a, b, Listing(run.0.images, image), image == names[0], image in names[1..], run.1.Pruned?, narrow, wide);
    } else {
      SafeIfNamed(a, b, image == names[0], image in names, narrow, wide);
    }
  }

  lemma NothingIsSafe(a: seq<Version>, narrow: Selector, wide: Selector)
    ensures Safe(a, a, false, true, narrow, wide)
  {
  }

  lemma SafeIfDone(a: seq<Version>, b: seq<Version>, named: bool, done: bool, narrow: Selector, wide: Selector)
    requires Safe(a, b, named, true, narrow, wide)
    ensures Safe(a, b, named, done, narrow, wide)
  {
  }

  lemma SafeIfNamed(a: seq<Version>, b: seq<Version>, named: bool, later: bool, narrow: Selector, wide: Selector)
    requires Safe(a, b, named, false, narrow, wide) && (named ==> later)
    ensures Safe(a, b, later, false, narrow, wide)
  {
  }

  lemma KeptTwice(versions: seq<Version>, sel: Selector)
    ensures Kept(Kept(versions, sel), sel) == Kept(versions, sel)
    ensures Doomed(Kept(versions, sel), sel) == []
  {
    SparedElements(versions, Doomed(versions, sel));
    DoomedElements(versions, sel);
    KeptAll(Kept(versions, sel), sel);
  }

  /** After one image is done, the plan goes on with the others. */
  lemma PlanGoesOn(w: World, image: string, names: seq<string>, sel: Schedule, faults: Faults, t: nat)
    requires PruneOne(w, image, sel(|w.calls|), false, faults).1.Some?
    ensures Planned(PruneOne(w, image, sel(|w.calls|), false, faults).0.images, names, sel, t)
         == Planned(Done(w.images, image, sel(|w.calls|)), names, sel, t)
  {
    hide PruneOne, Kept, Done, Planned;
    var s := sel(|w.calls|);
    var after := PruneOne(w, image, s, false, faults).0.images;
    forall other: string ensures Listing(after, other) == Listing(Done(w.images, image, s), other) {
      DoneListing(w.images, image, s, other);
      if other == image {
        PruneOneShrinks(w, image, s, s, faults);
        ShrunkToKept(Listing(w.images, image), Listing(after, image), s);
      } else {
        PruneOneElsewhere(w, image, s, false, faults, other);
      }
    }
    PlannedSame(after, Done(w.images, image, s), names, sel, t);
  }

  /** The DELETE calls between two states are a prefix of the plan, all of it if the run succeeded. */
  ghost predicate Follows(w: World, end: World, r: Outcome, total: nat, plan: seq<Call>) {
    && w.calls <= end.calls && Deletes(end.calls[|w.calls|..]) <= plan
    && (r.Pruned? ==> Deletes(end.calls[|w.calls|..]) == plan && r.selected == total + |plan|)
  }

  /** One image's calls followed by those of the other images. */
  lemma FollowsThenFollows(w: World, next: World, end: World, r: Outcome, total: nat, first: seq<Call>, rest: seq<Call>)
    requires w.calls <= next.calls && Deletes(next.calls[|w.calls|..]) == first
    requires Follows(next, end, r, total + |first|, rest)
    ensures Follows(w, end, r, total, first + rest)
  {
    TraceSplit(w.calls, next.calls, end.calls);
  }

  /** A first image that fails follows any plan that starts with its deletions. */
  lemma FollowsPrefix(w: World, end: World, total: nat, first: seq<Call>, rest: seq<Call>)
    requires w.calls <= end.calls && Deletes(end.calls[|w.calls|..]) <= first
    ensures Follows(w, end, CallFailed, total, first + rest)
  {
  }

  /** A run follows a plan if what its first step leaves to do does. */
  lemma FollowsStep(w: World, names: seq<string>, sel: Schedule, faults: Faults, total: nat, plan: seq<Call>)
    requires names != []
    requires var one := PruneOne(w, names[0], sel(|w.calls|), false, faults);
             var (end, r) := if one.1.None? then (one.0, CallFailed)
                             else PruneFrom(one.0, names[1..], sel, false, faults, total + one.1.value);
             Follows(w, end, r, total, plan)
    ensures var (end, r) := PruneFrom(w, names, sel, false, faults, total); Follows(w, end, r, total, plan)
  {
    hide PruneOne, Follows;
  }

  /** After the first image the run follows the plan for the others. */
  lemma {:induction false} RestFollowsPlan(w: World, names: seq<string>, sel: Schedule, faults: Faults, total: nat)
    requires names != [] && PruneOne(w, names[0], sel(|w.calls|), false, faults).1.Some?
    ensures var s := sel(|w.calls|);
            var next := PruneOne(w, names[0], s, false, faults).0;
            var (end, r) := PruneFrom(next, names[1..], sel, false, faults, total);
            Follows(next, end, r, total, Planned(Done(w.images, names[0], s), names[1..], sel, |next.calls|))
    decreases |names|, 0
  {
    hide PruneOne, Follows, Planned, Done, PruneFrom;
    var next := PruneOne(w, names[0], sel(|w.calls|), false, faults).0;
    PlanGoesOn(w, names[0], names[1..], sel, faults, |next.calls|);
    RunFollowsPlan(next, names[1..], sel, faults, total);
  }

  lemma {:induction false} StepFollowsPlan(w: World, names: seq<string>, sel: Schedule, faults: Faults, total: nat)
    requires names != []
    ensures var one := PruneOne(w, names[0], sel(|w.calls|), false, faults);
            var (end, r) := if one.1.None? then (one.0, CallFailed)
                            else PruneFrom(one.0, names[1..], sel, false, faults, total + one.1.value);
            Follows(w, end, r, total, Planned(w.images, names, sel, |w.calls|))
    decreases |names|, 1
  {
    hide PruneOne, PruneFrom, Planned, Done, Doomed, Follows, Deletes;
    var s := sel(|w.calls|);
    var one := PruneOne(w, names[0], s, false, faults);
    var first := DeleteCalls(names[0], Doomed(Listing(w.images, names[0]), s));
    PruneOneCalls(w, names[0], s, faults);
    PlanStep(w.images, names, sel, |w.calls|);
    if one.1.Some? {
      RestFollowsPlan(w, names, sel, faults, total + one.1.value);
      var run := PruneFrom(one.0, names[1..], sel, false, faults, total + one.1.value);
      FollowsThenFollows(w, one.0, run.0, run.1, total, first, Planned(Done(w.images, names[0], s), names[1..], sel, |one.0.calls|));
    } else {
      FollowsPrefix(w, one.0, total, first, Planned(Done(w.images, names[0], s), names[1..], sel, |w.calls| + 1 + |first|));
    }
  }

  /**
   The DELETE calls of a run are a prefix, in order, of its plan; a run that
   succeeds has made the whole plan, and reports its size.
   */
  lemma {:induction false} RunFollowsPlan(w: World, names: seq<string>, sel: Schedule, faults: Faults, total: nat)
    ensures var (end, r) := PruneFrom(w, names, sel, false, faults, total);
            Follows(w, end, r, total, Planned(w.images, names, sel, |w.calls|))
    decreases |names|, 2
  {
    if names == [] {
      assert w.calls[|w.calls|..] == [];
    } else {
      hide PruneOne, PruneFrom, Planned, Follows;
      StepFollowsPlan(w, names, sel, faults, total);
      FollowsStep(w, names, sel, faults, total, Planned(w.images, names, sel, |w.calls|));
    }
  }

  lemma PlanStep(images: Images, names: seq<string>, sel: Schedule, t: nat)
    requires names != []
    ensures var first := DeleteCalls(names[0], Doomed(Listing(images, names[0]), sel(t)));
            Planned(images, names, sel, t)
            == first + Planned(Done(images, names[0], sel(t)), names[1..], sel, t + 1 + |first|)
  {
    hide Done, Doomed;
    DeleteCallsLength(names[0], Doomed(Listing(images, names[0]), sel(t)));
  }

  // ---- the classifier at work ----

  /** The clock stays between two times. */
  ghost predicate ClockWithin(clock: Clock, from: int, until: int) {
    forall t: nat :: from <= clock(t) <= until
  }

  lemma ScheduleBetween(rules: Rules, clock: Clock, from: int, until: int)
    requires ClockWithin(clock, from, until)
    ensures Between(Chosen(rules.At(from)), Scheduled(rules, clock), Chosen(rules.At(until)))
  {
    var narrow, sel, wide := Chosen(rules.At(from)), Scheduled(rules, clock), Chosen(rules.At(until));
    hide Selected;
    forall t: nat ensures Below(narrow, sel(t)) && Below(sel(t), wide) {
      forall v ensures narrow(v) ==> sel(t)(v) ensures sel(t)(v) ==> wide(v) {
        StaleIsMonotone(v, rules.At(from), rules.At(clock(t)));
        StaleIsMonotone(v, rules.At(clock(t)), rules.At(until));
      }
    }
  }

  lemma PruneIsSafe(w: World, names: seq<string>, rules: Rules, clock: Clock, from: int, until: int, faults: Faults, image: string)
    requires ClockWithin(clock, from, until)
    ensures var (end, r) := Prune(w, names, rules, clock, false, faults);
            Safe(Listing(w.images, image), Listing(end.images, image), image in names, r.Pruned?,
                 Chosen(rules.At(from)), Chosen(rules.At(until)))
  {
    hide PruneFrom, Scheduled, Chosen, Kept;
    ScheduleBetween(rules, clock, from, until);
    RunIsSafe(w, names, Scheduled(rules, clock), Chosen(rules.At(from)), Chosen(rules.At(until)), faults, 0, image);
  }

  // ---- running again ----

  /** The registry after any number of runs, each stopped by whatever failed in it. */
  function Retry(w: World, names: seq<string>, rules: Rules, clock: Clock, faults: Faults, runs: nat): World
    decreases runs
  {
    if runs == 0 then w else Retry(Prune(w, names, rules, clock, false, faults).0, names, rules, clock, faults, runs - 1)
  }

  /** Safety over any number of runs, while the clock goes on. */
  lemma {:induction false} RetryIsSafe(w: World, names: seq<string>, rules: Rules, clock: Clock, from: int, until: int,
                                       faults: Faults, runs: nat, image: string)
    requires ClockWithin(clock, from, until)
    ensures Safe(Listing(w.images, image), Listing(Retry(w, names, rules, clock, faults, runs).images, image),
                 image in names, false, Chosen(rules.At(from)), Chosen(rules.At(until)))
    decreases runs
  {
    hide Prune, Chosen, Kept, Safe;
    var narrow, wide := Chosen(rules.At(from)), Chosen(rules.At(until));
    var a := Listing(w.images, image);
    if runs > 0 {
      var run := Prune(w, names, rules, clock, false, faults);
      var b, c := Listing(run.0.images, image),
                  Listing(Retry(run.0, names, rules, clock, faults, runs - 1).images, image);
      PruneIsSafe(w, names, rules, clock, from, until, faults, image);
      RetryIsSafe(run.0, names, rules, clock, from, until, faults, runs - 1, image);
      SafeIsSafeUndone(a, b, image in names, run.1.Pruned?, narrow, wide);
      SafeThenSafe(a, b, c, image in names, image in names, false, narrow, wide);
    } else {
      NothingIsSafe(a, narrow, wide);
      SafeIsSafeUndone(a, a, false, true, narrow, wide);
      SafeIfNamed(a, a, false, image in names, narrow, wide);
    }
  }

  lemma SafeIsSafeUndone(a: seq<Version>, b: seq<Version>, named: bool, done: bool, narrow: Selector, wide: Selector)
    requires Safe(a, b, named, done, narrow, wide)
    ensures Safe(a, b, named, false, narrow, wide)
  {
  }

  /**
   The guarantee in the registry's own terms: where version ids are distinct,
   a version that is not stale when the clock stops survives every run of any
   number of them, whatever fails.
   */
  lemma FreshSurvives(w: World, names: seq<string>, rules: Rules, clock: Clock, from: int, until: int,
                      faults: Faults, runs: nat, image: string, v: Version)
    requires ClockWithin(clock, from, until)
    requires forall x <- Listing(w.images, image), y <- Listing(w.images, image) :: VersionId(x) == VersionId(y) ==> x == y
    requires v in Listing(w.images, image) && !Stale(v, rules.At(until))
    ensures v in Listing(Retry(w, names, rules, clock, faults, runs).images, image)
  {
    hide Retry, Stale, Selected;
    var wide := Chosen(rules.At(until));
    var before, after := Listing(w.images, image), Listing(Retry(w, names, rules, clock, faults, runs).images, image);
    RetryIsSafe(w, names, rules, clock, from, until, faults, runs, image);
    SelectedIsStale(v, rules.At(until));
    KeptIsUnselected(before, wide);
    SparedElements(after, Doomed(after, wide));
    assert v in Kept(before, wide);
  }

  /**
   Convergence: at one time, after any number of failed runs, a run that
   succeeds leaves every image as one uninterrupted run would have left it.
   */
  lemma RetryConverges(w: World, names: seq<string>, rules: Rules, clock: Clock, now: int, faults: Faults, runs: nat,
                       other: Faults, image: string)
    requires forall t: nat :: clock(t) == now
    requires Prune(w, names, rules, clock, false, other).1.Pruned?
    requires Prune(Retry(w, names, rules, clock, faults, runs), names, rules, clock, false, faults).1.Pruned?
    ensures Listing(Prune(Retry(w, names, rules, clock, faults, runs), names, rules, clock, false, faults).0.images, image)
         == Listing(Prune(w, names, rules, clock, false, other).0.images, image)
  {
    hide Prune, Retry, Chosen, Kept;
    var failed, sel := Retry(w, names, rules, clock, faults, runs), Chosen(rules.At(now));
    RetryIsSafe(w, names, rules, clock, now, now, faults, runs, image);
    PruneIsSafe(failed, names, rules, clock, now, now, faults, image);
    PruneIsSafe(w, names, rules, clock, now, now, other, image);
    if image in names {
      ShrunkToKept(Listing(w.images, image), Listing(Prune(w, names, rules, clock, false, other).0.images, image), sel);
      ShrunkToKept(Listing(failed.images, image), Listing(Prune(failed, names, rules, clock, false, faults).0.images, image), sel);
    }
  }

  /** As long as the clock has not passed the start of a run that succeeded, there is nothing left to select or to delete. */
  lemma SettledAfterSuccess(w: World, names: seq<string>, rules: Rules, clock: Clock, from: int, until: int, again: Clock,
                            faults: Faults)
    requires ClockWithin(clock, from, until) && (forall t: nat :: again(t) <= from)
    requires Prune(w, names, rules, clock, false, faults).1.Pruned?
    ensures var settled := Prune(w, names, rules, clock, false, faults).0;
            var (end, r) := Prune(settled, names, rules, again, false, faults);
            && settled.calls <= end.calls && Deletes(end.calls[|settled.calls|..]) == []
            && (r.Pruned? ==> r.selected == 0)
  {
    hide PruneFrom, Scheduled, Chosen, Kept, Selected;
    var settled := Prune(w, names, rules, clock, false, faults).0;
    var sel := Scheduled(rules, again);
    forall image, t: nat | image in names ensures Doomed(Listing(settled.images, image), sel(t)) == [] {
      PruneIsSafe(w, names, rules, clock, from, until, faults, image);
      NothingSettled(Listing(settled.images, image), rules, from, again, t);
    }
    NothingPlanned(settled.images, names, sel, |settled.calls|);
    RunFollowsPlan(settled, names, sel, faults, 0);
    assert settled.calls[|settled.calls|..] == [];
  }

  lemma NothingSettled(versions: seq<Version>, rules: Rules, from: int, again: Clock, t: nat)
    requires again(t) <= from && forall v <- versions :: !Chosen(rules.At(from))(v)
    ensures Doomed(versions, Scheduled(rules, again)(t)) == []
  {
    forall v | v in versions ensures !Scheduled(rules, again)(t)(v) {
      StaleIsMonotone(v, rules.At(again(t)), rules.At(from));
    }
    NothingDoomed(versions, Scheduled(rules, again)(t));
  }

  lemma NothingDone(images: Images, image: string, sel: Selector)
    requires Doomed(Listing(images, image), sel) == []
    ensures Done(images, image, sel) == images
  {
    SparedAll(Listing(images, image));
  }

  lemma {:induction false} NothingPlanned(images: Images, names: seq<string>, sel: Schedule, t: nat)
    requires forall name, u: nat :: name in names ==> Doomed(Listing(images, name), sel(u)) == []
    ensures Planned(images, names, sel, t) == []
    decreases |names|
  {
    if names != [] {
      var first := names[0];
      assert Doomed(Listing(images, first), sel(t)) == [];
      NothingDone(images, first, sel(t));
      hide Done, Doomed, Listing;
      NothingPlanned(images, names[1..], sel, t + 1);
      assert |DeleteCalls(first, [])| == 0;
    }
  }

  // ---- dry runs ----

  /** What a dry run counts from call `t` on: every mention of an image anew. */
  function Counted(images: Images, names: seq<string>, sel: Schedule, t: nat): nat
    decreases |names|
  {
    if |names| == 0 then 0 else |Doomed(Listing(images, names[0]), sel(t))| + Counted(images, names[1..], sel, t + 1)
  }

  /** Between two states no image changed, no DELETE was made, and the outcome, if there is one, adds a count. */
  ghost predicate Passive(w: World, end: World, r: Outcome, total: nat, count: nat) {
    && end.images == w.images
    && w.calls <= end.calls && Deletes(end.calls[|w.calls|..]) == []
    && (r.Pruned? ==> r.selected == total + count)
  }

  lemma DryOne(w: World, image: string, sel: Selector, faults: Faults)
    ensures var (next, selected) := PruneOne(w, image, sel, true, faults);
            && next == AfterList(w, image)
            && (selected.Some? ==> selected.value == |Doomed(Listing(w.images, image), sel)|)
  {
  }

  lemma ListingIsPassive(w: World, image: string, total: nat)
    ensures Passive(w, AfterList(w, image), CallFailed, total, 0)
  {
    assert AfterList(w, image).calls[|w.calls|..] == [List(image)] && [List(image)][1..] == [];
  }

  lemma PassiveThenPassive(w: World, next: World, end: World, r: Outcome, total: nat, first: nat, rest: nat)
    requires Passive(w, next, CallFailed, total, 0) && Passive(next, end, r, total + first, rest)
    ensures Passive(w, end, r, total, first + rest)
  {
    TraceSplit(w.calls, next.calls, end.calls);
  }

  /** A dry run deletes nothing and counts what is selected as it goes. */
  lemma {:induction false} DryRunIsPassive(w: World, names: seq<string>, sel: Schedule, faults: Faults, total: nat)
    ensures var (end, r) := PruneFrom(w, names, sel, true, faults, total);
            Passive(w, end, r, total, Counted(w.images, names, sel, |w.calls|))
    decreases |names|, 1
  {
    if names == [] {
      assert w.calls[|w.calls|..] == [];
    } else {
      DryStep(w, names, sel, faults, total);
      PruneFromStep(w, names, sel, true, faults, total);
      hide PruneOne, PruneFrom, Passive, Counted;
    }
  }

  lemma {:induction false} DryStep(w: World, names: seq<string>, sel: Schedule, faults: Faults, total: nat)
    requires names != []
    ensures var one := PruneOne(w, names[0], sel(|w.calls|), true, faults);
            var (end, r) := if one.1.None? then (one.0, CallFailed)
                            else PruneFrom(one.0, names[1..], sel, true, faults, total + one.1.value);
            Passive(w, end, r, total, Counted(w.images, names, sel, |w.calls|))
    decreases |names|, 0
  {
    hide PruneOne, PruneFrom, Doomed, Passive, Counted;
    var one := PruneOne(w, names[0], sel(|w.calls|), true, faults);
    DryOne(w, names[0], sel(|w.calls|), faults);
    ListingIsPassive(w, names[0], total);
    if one.1.Some? {
      CountStep(w.images, names, sel, |w.calls|);
      DryRunIsPassive(one.0, names[1..], sel, faults, total + one.1.value);
      var run := PruneFrom(one.0, names[1..], sel, true, faults, total + one.1.value);
      PassiveThenPassive(w, one.0, run.0, run.1, total, one.1.value, Counted(w.images, names[1..], sel, |w.calls| + 1));
    } else {
      PassiveFailure(w, one.0, total, Counted(w.images, names, sel, |w.calls|));
    }
  }

  lemma PassiveFailure(w: World, end: World, total: nat, count: nat)
    requires Passive(w, end, CallFailed, total, 0)
    ensures Passive(w, end, CallFailed, total, count)
  {
  }

  ghost predicate RepeatsAt(images: Images, names: seq<string>, sel: Selector, i: int, j: int) {
    0 <= i < j < |names| && names[i] == names[j] && Doomed(Listing(images, names[i]), sel) != []
  }

  /** Some image with selected versions is named twice. */
  ghost predicate RepeatsSelection(images: Images, names: seq<string>, sel: Selector) {
    exists i, j :: RepeatsAt(images, names, sel, i, j)
  }

  lemma DoneSelects(images: Images, image: string, sel: Selector, other: string)
    ensures Doomed(Listing(Done(images, image, sel), other), sel)
         == if other == image then [] else Doomed(Listing(images, other), sel)
  {
    DoneListing(images, image, sel, other);
    KeptTwice(Listing(images, image), sel);
  }

  lemma {:induction false} CountedWithout(images: Images, names: seq<string>, image: string, sel: Schedule, s: Selector, t: nat, u: nat)
    requires forall k: nat :: sel(k) == s
    ensures Counted(Done(images, image, s), names, sel, t) <= Counted(images, names, sel, u)
    ensures Counted(Done(images, image, s), names, sel, t) == Counted(images, names, sel, u)
       <==> image !in names || Doomed(Listing(images, image), s) == []
    decreases |names|
  {
    hide Done, Doomed;
    if names != [] {
      DoneSelects(images, image, s, names[0]);
      CountedWithout(images, names[1..], image, sel, s, t + 1, u + 1);
    }
  }

  /** At one time, a dry run counts what a real run deletes exactly when no image with selected versions is named twice. */
  lemma {:induction false} DryRunCount(images: Images, names: seq<string>, sel: Schedule, s: Selector, t: nat, u: nat)
    requires forall k: nat :: sel(k) == s
    ensures |Planned(images, names, sel, t)| <= Counted(images, names, sel, u)
    ensures |Planned(images, names, sel, t)| == Counted(images, names, sel, u)
       <==> !RepeatsSelection(images, names, s)
    decreases |names|
  {
    hide Done, Doomed, RepeatsSelection, Planned, Counted;
    if names == [] {
      NothingNamed(images, sel, s, t, u);
    } else {
      var first, rest, next := names[0], names[1..], Done(images, names[0], s);
      var ids := Doomed(Listing(images, first), s);
      DeleteCallsLength(first, ids);
      PlanStep(images, names, sel, t);
      CountStep(images, names, sel, u);
      CountedWithout(images, rest, first, sel, s, u + 1, u + 1);
      DryRunCount(next, rest, sel, s, t + 1 + |ids|, u + 1);
      RepeatsStep(images, names, s);
    }
  }

  lemma NothingNamed(images: Images, sel: Schedule, s: Selector, t: nat, u: nat)
    ensures |Planned(images, [], sel, t)| == Counted(images, [], sel, u) == 0 && !RepeatsSelection(images, [], s)
  {
  }

  lemma CountStep(images: Images, names: seq<string>, sel: Schedule, t: nat)
    requires names != []
    ensures Counted(images, names, sel, t) == |Doomed(Listing(images, names[0]), sel(t))| + Counted(images, names[1..], sel, t + 1)
  {
  }

  lemma RepeatsStep(images: Images, names: seq<string>, sel: Selector)
    requires names != []
    ensures var doubled := names[0] in names[1..] && Doomed(Listing(images, names[0]), sel) != [];
            RepeatsSelection(images, names, sel) <==> doubled || RepeatsSelection(Done(images, names[0], sel), names[1..], sel)
  {
    hide Done, Doomed;
    var first, rest, others := names[0], names[1..], Done(images, names[0], sel);
    forall name ensures Doomed(Listing(others, name), sel) == if name == first then [] else Doomed(Listing(images, name), sel) {
      DoneSelects(images, first, sel, name);
    }
    if RepeatsSelection(images, names, sel) {
      var i, j :| RepeatsAt(images, names, sel, i, j);
      assert rest[j - 1] == names[i];
      if names[i] != first {
        assert RepeatsAt(others, rest, sel, i - 1, j - 1);
      }
    }
    if first in rest && Doomed(Listing(images, first), sel) != [] {
      var j :| 0 <= j < |rest| && rest[j] == first;
      assert RepeatsAt(images, names, sel, 0, j + 1);
    }
    if RepeatsSelection(others, rest, sel) {
      var i, j :| RepeatsAt(others, rest, sel, i, j);
      assert RepeatsAt(images, names, sel, i + 1, j + 1);
    }
  }

  /**
   At one time, of two runs that both succeed, the dry one reports no less than
   the real one, and the same exactly when no image with selected versions is
   named twice.
   */
  lemma DryRunReports(w: World, names: seq<string>, rules: Rules, clock: Clock, now: int, dryFaults: Faults, faults: Faults)
    requires forall t: nat :: clock(t) == now
    requires Prune(w, names, rules, clock, true, dryFaults).1.Pruned?
    requires Prune(w, names, rules, clock, false, faults).1.Pruned?
    ensures var counted, deleted := Prune(w, names, rules, clock, true, dryFaults).1.selected,
                                    Prune(w, names, rules, clock, false, faults).1.selected;
            && deleted <= counted
            && (deleted == counted <==> !RepeatsSelection(w.images, names, Chosen(rules.At(now))))
  {
    var sel, s, t := Scheduled(rules, clock), Chosen(rules.At(now)), |w.calls|;
    forall k: nat ensures sel(k) == s {
      ScheduledAt(rules, clock, k);
    }
    hide PruneFrom, Scheduled, Chosen, Planned, Counted, RepeatsSelection;
    DryRunIsPassive(w, names, sel, dryFaults, 0);
    RunFollowsPlan(w, names, sel, faults, 0);
    DryRunCount(w.images, names, sel, s, t, t);
  }

  lemma {:induction false} NoFaultDeletes(w: World, image: string, ids: seq<string>, faults: Faults)
    requires forall t: nat :: faults(t) == Fine
    ensures DeleteAll(w, image, ids, faults).1
    decreases |ids|
  {
    if ids != [] {
      NoFaultDeletes(AfterDelete(w, image, ids[0], Fine), image, ids[1..], faults);
    }
  }

  /** A run in which no call fails succeeds. */
  lemma {:induction false} NoFaultSucceeds(w: World, names: seq<string>, sel: Schedule, dryRun: bool, faults: Faults, total: nat)
    requires forall t: nat :: faults(t) == Fine
    ensures PruneFrom(w, names, sel, dryRun, faults, total).1.Pruned?
    decreases |names|
  {
    if names != [] {
      var s := sel(|w.calls|);
      NoFaultDeletes(AfterList(w, names[0]), names[0], Doomed(Listing(w.images, names[0]), s), faults);
      var one := PruneOne(w, names[0], s, dryRun, faults);
      assert one.1.Some?;
      hide PruneOne;
      NoFaultSucceeds(one.0, names[1..], sel, dryRun, faults, total + one.1.value);
    }
  }

  // ---- an image named twice ----

  const TAG := "abcdef1"
  const LIVE := "1234567"

  /** An image version of the first second of the epoch. */
  const OLD := Version("1", [TAG], Some(0))

  /** One day's retention and another live SHA. */
  const ONE_DAY := Rules(1, [LIVE])

  const TWO_DAYS_LATER := 172800

  lemma TagIsSha()
    ensures IsShaTag(TAG) && !IsRelease(TAG) && Lower(TAG)[0] == 'a'
  {
    PlainIsLower(TAG);
  }

  lemma {:induction false} PlainIsLower(s: string)
    requires forall i :: 0 <= i < |s| ==> IsHexDigit(s[i])
    ensures Lower(s) == s
  {
    if s != "" { PlainIsLower(s[1..]); }
  }

  lemma LiveIsCandidate()
    ensures Candidate(LIVE) == LIVE && IsSha(LIVE) && LIVE[0] == '1'
  {
    assert LStrip(LIVE) == LIVE && RStrip(LIVE) == LIVE;
    PlainIsLower(LIVE);
  }

  lemma LiveIsElsewhere()
    ensures !SharesPrefix(TAG, [LIVE])
  {
    TagIsSha();
    LiveIsCandidate();
    hide Candidate, Lower, IsSha, IsShaTag, IsRelease;
    assert forall v <- [LIVE] :: v == LIVE;
    assert LIVE[..7][0] == '1' && (|Lower(TAG)| >= 7 ==> Lower(TAG)[..7][0] == 'a');
  }

  lemma SomethingIsLive()
    ensures LiveSet([LIVE]) != {}
  {
    LiveIsCandidate();
    hide Candidate, IsSha;
    assert LIVE in LiveSet([LIVE]);
  }

  lemma OldHasId()
    ensures VersionId(OLD) != ""
  {
    assert LStrip("1") == "1" && RStrip("1") == "1";
  }

  lemma OldIsSelected()
    ensures Selected(OLD, ONE_DAY.At(TWO_DAYS_LATER))
  {
    hide IsShaTag, IsRelease, SharesPrefix, Selected, LiveSet, VersionId, Lower;
    TagIsSha();
    LiveIsElsewhere();
    OldHasId();
    OneTagged(OLD, TAG, ONE_DAY.At(TWO_DAYS_LATER));
  }

  lemma OneTagged(v: Version, tag: string, policy: Policy)
    requires VersionId(v) != "" && v.tags == [tag] && IsShaTag(tag) && !IsRelease(tag) && !SharesPrefix(tag, policy.liveShas)
    requires v.createdAt.Some? && v.createdAt.value < policy.now - policy.retentionDays * 86400
    ensures Selected(v, policy)
  {
    hide IsShaTag, IsRelease, SharesPrefix, Selected, LiveSet, VersionId;
    assert tag in v.tags && forall other <- v.tags :: other == tag;
    SelectedIsStale(v, policy);
  }

  /** One stale version and its image named twice: the real run reports one deletion, the dry run two. */
  lemma ImageNamedTwice(clock: Clock, faults: Faults)
    requires (forall t: nat :: clock(t) == TWO_DAYS_LATER) && forall t: nat :: faults(t) == Fine
    ensures var w := World(map["a" := [OLD]], []);
            && Prune(w, ["a", "a"], ONE_DAY, clock, false, faults).1 == Pruned(1)
            && Prune(w, ["a", "a"], ONE_DAY, clock, true, faults).1 == Pruned(2)
  {
    var w, names, sel, s := World(map["a" := [OLD]], []), ["a", "a"], Scheduled(ONE_DAY, clock), Chosen(ONE_DAY.At(TWO_DAYS_LATER));
    OldIsSelected();
    SomethingIsLive();
    forall k: nat ensures sel(k) == s {
      ScheduledAt(ONE_DAY, clock, k);
    }
    assert s(OLD);
    hide Selected, LiveSet, Chosen, Scheduled;
    NoFaultSucceeds(w, names, sel, false, faults, 0);
    NoFaultSucceeds(w, names, sel, true, faults, 0);
    DryRunIsPassive(w, names, sel, faults, 0);
    RunFollowsPlan(w, names, sel, faults, 0);
    TwiceNamedCounts(w.images, "a", OLD, sel, s);
  }

  lemma TwiceNamedCounts(images: Images, image: string, v: Version, sel: Schedule, s: Selector)
    requires Listing(images, image) == [v] && s(v) && forall k: nat :: sel(k) == s
    ensures |Planned(images, [image, image], sel, 0)| == 1 && Counted(images, [image, image], sel, 0) == 2
  {
    var next := Done(images, image, s);
    var once := [image, image][1..];
    OneDoomed(v, s);
    DoneSelects(images, image, s, image);
    hide Done, Doomed;
    assert once == [image] && once[1..] == [];
    CountStep(images, [image, image], sel, 0);
    CountStep(images, once, sel, 1);
    PlanStep(images, [image, image], sel, 0);
    DeleteCallsLength(image, [VersionId(v)]);
    DeleteCallsLength(image, []);
    PlanStep(next, once, sel, 2);
  }

  lemma OneDoomed(v: Version, sel: Selector)
    requires sel(v)
    ensures Doomed([v], sel) == [VersionId(v)]
  {
    assert [v][1..] == [] && Doomed([v][1..], sel) == [];
  }

  // ---- which runs are refused ----

  lemma {:induction false} RunIsNotRefused(w: World, names: seq<string>, sel: Schedule, dryRun: bool, faults: Faults, total: nat)
    ensures var o := PruneFrom(w, names, sel, dryRun, faults, total).1; o == CallFailed || o.Pruned?
    decreases |names|
  {
    hide PruneOne;
    if |names| > 0 {
      var one := PruneOne(w, names[0], sel(|w.calls|), dryRun, faults);
      if one.1.Some? { RunIsNotRefused(one.0, names[1..], sel, dryRun, faults, total + one.1.value); }
    }
  }

  /**
   Exactly which runs are refused: those of less than a day, and those without
   a live SHA to spare.  Dry or real, a refused run calls nothing.
   */
  lemma RefusesExactly(w: World, names: seq<string>, rules: Rules, clock: Clock, dryRun: bool, faults: Faults)
    ensures var (after, o) := Prune(w, names, rules, clock, dryRun, faults);
            && (o == BadRetentionDays <==> rules.retentionDays < 1)
            && (o == NoLiveShas <==> rules.retentionDays >= 1 && forall v <- rules.liveShas :: !HexText(Lower(Strip(v)), 7, 40))
            && (o == BadRetentionDays || o == NoLiveShas ==> after == w)
  {
    LiveSetElements(rules.liveShas);
    forall v ensures IsSha(Candidate(v)) <==> HexText(Lower(Strip(v)), 7, 40) {
      ShaIsHex(Lower(Strip(v)));
    }
    hide IsSha, Candidate, HexText, LiveSet, PruneFrom;
    RunIsNotRefused(w, names, Scheduled(rules, clock), dryRun, faults, 0);
    if v :| v in rules.liveShas && IsSha(Candidate(v)) {
      assert Candidate(v) in LiveSet(rules.liveShas);
    }
  }

  // ---- where a run stops ----

  /** From one state to a later one, every call but perhaps the last went fine. */
  ghost predicate FineUntil(from: World, to: World, faults: Faults, failed: bool) {
    && |from.calls| <= |to.calls|
    && (forall t: nat :: |from.calls| <= t < |to.calls| - 1 ==> faults(t) == Fine)
    && (failed ==> |from.calls| < |to.calls| && faults(|to.calls| - 1) != Fine)
    && (!failed && |from.calls| < |to.calls| ==> faults(|to.calls| - 1) == Fine)
  }

  lemma FineOn(a: World, b: World, c: World, faults: Faults, failed: bool)
    requires FineUntil(a, b, faults, false) && FineUntil(b, c, faults, failed)
    ensures FineUntil(a, c, faults, failed)
  {
  }

  lemma {:induction false} DeleteAllStops(w: World, image: string, ids: seq<string>, faults: Faults)
    ensures var (next, ok) := DeleteAll(w, image, ids, faults); FineUntil(w, next, faults, !ok)
    decreases |ids|
  {
    if |ids| > 0 {
      var fault := faults(|w.calls|);
      var next := AfterDelete(w, image, ids[0], fault);
      assert |next.calls| == |w.calls| + 1;
      hide AfterDelete;
      if fault == Fine {
        DeleteAllStops(next, image, ids[1..], faults);
        FineOn(w, next, DeleteAll(next, image, ids[1..], faults).0, faults, !DeleteAll(next, image, ids[1..], faults).1);
      }
    }
  }

  lemma PruneOneStops(w: World, image: string, sel: Selector, dryRun: bool, faults: Faults)
    ensures var (next, r) := PruneOne(w, image, sel, dryRun, faults); FineUntil(w, next, faults, r.None?)
  {
    var listed, ids := AfterList(w, image), Doomed(Listing(w.images, image), sel);
    assert |listed.calls| == |w.calls| + 1;
    hide DeleteAll, Doomed;
    if faults(|w.calls|) == Fine {
      DeleteAllStops(listed, image, ids, faults);
      FineOn(w, listed, DeleteAll(listed, image, ids, faults).0, faults, !DeleteAll(listed, image, ids, faults).1);
    }
  }

  lemma {:induction false} RunStops(w: World, names: seq<string>, sel: Schedule, dryRun: bool, faults: Faults, total: nat)
    ensures var (next, o) := PruneFrom(w, names, sel, dryRun, faults, total); FineUntil(w, next, faults, o == CallFailed)
    decreases |names|
  {
    hide PruneOne;
    if |names| > 0 {
      var one := PruneOne(w, names[0], sel(|w.calls|), dryRun, faults);
      PruneOneStops(w, names[0], sel(|w.calls|), dryRun, faults);
      if one.1.Some? {
        RunStops(one.0, names[1..], sel, dryRun, faults, total + one.1.value);
        var rest := PruneFrom(one.0, names[1..], sel, dryRun, faults, total + one.1.value);
        FineOn(w, one.0, rest.0, faults, rest.1 == CallFailed);
      }
    }
  }

  /** A run, dry or real, ends at the first call that fails, and fails exactly if there is one. */
  lemma StopsAtFirstFault(w: World, names: seq<string>, rules: Rules, clock: Clock, dryRun: bool, faults: Faults)
    ensures var (next, o) := Prune(w, names, rules, clock, dryRun, faults); FineUntil(w, next, faults, o == CallFailed)
  {
    RunStops(w, names, Scheduled(rules, clock), dryRun, faults, 0);
    hide PruneFrom, LiveSet, Scheduled;
  }
}
