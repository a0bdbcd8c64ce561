/**
 Pruning of stale container images (common/runtime/ghcr_retention.py): the
 classifier of package versions, and the loop of DELETE calls that must be safe
 to stop and to run again.
 */
module ImageRetention {
  import opened Wrappers
  import opened Text
  import opened Releases

  /** One package version as the registry lists it; `createdAt` in seconds, if it parses. */
  datatype Version = Version(id: string, tags: seq<string>, createdAt: Option<int>)

  datatype Action = Keep | Skip | Delete

  datatype Reason = NoShaTag | ReleaseTag | LiveDeploySha | InvalidCreatedAt | RetentionWindow | StaleSha

  datatype Decision = Decision(versionId: string, tags: seq<string>, action: Action, reason: Reason)

  // ---- the classifier ----

  /** `[0-9a-f]{7,40}` */
  predicate IsSha(s: string) {
    7 <= |s| <= 40 && forall i :: 0 <= i < |s| ==> IsHexDigit(s[i])
  }

  lemma ShaIsHex(s: string)
    ensures IsSha(s) <==> HexText(s, 7, 40)
  {
    forall c: char ensures IsHexDigit(c) <==> c in HEX_DIGITS {
      HexDigitsAreListed(c);
    }
  }

  predicate IsShaTag(tag: string) {
    IsSha(Lower(tag))
  }

  function Candidate(value: string): string {
    Lower(Strip(value))
  }

  /** The lookup set: every valid SHA and its 7-character prefix. */
  function LiveSet(values: seq<string>): set<string> {
    if values == [] then {}
    else
      var c := Candidate(values[0]);
      (if IsSha(c) then {c, c[..7]} else {}) + LiveSet(values[1..])
  }

  /** `_normalize_live_shas` */
  method NormalizeLiveShas(values: seq<string>) returns (normalized: set<string>)
    ensures normalized == LiveSet(values)
  {
    normalized := {};
    for i := 0 to |values|
      invariant normalized + LiveSet(values[i..]) == LiveSet(values)
    {
      assert values[i..][1..] == values[i + 1..];
      var candidate := Candidate(values[i]);
      if !IsSha(candidate) {
        continue;
      }
      normalized := normalized + {candidate};
      if |candidate| >= 7 {
        normalized := normalized + {candidate[..7]};
      }
    }
    assert values[|values|..] == [];
  }

  /** `_is_live_sha_tag` */
  predicate IsLiveShaTag(tag: string, live: set<string>) {
    var t := Lower(tag);
    t in live || (|t| >= 7 && t[..7] in live)
  }

  /** The pairwise reading: some live SHA shares the first seven characters. */
  ghost predicate SharesPrefix(tag: string, values: seq<string>) {
    exists v <- values :: IsSha(Candidate(v)) && |Lower(tag)| >= 7 && Candidate(v)[..7] == Lower(tag)[..7]
  }

  lemma {:induction false} LiveSetElements(values: seq<string>)
    ensures forall x :: x in LiveSet(values) <==>
              exists v <- values :: IsSha(Candidate(v)) && (x == Candidate(v) || x == Candidate(v)[..7])
  {
    if values != [] {
      LiveSetElements(values[1..]);
      assert values == [values[0]] + values[1..];
    }
  }

  /** The set lookup agrees with comparing against every live SHA in turn. */
  lemma LookupIsPairwise(tag: string, values: seq<string>)
    ensures IsLiveShaTag(tag, LiveSet(values)) <==> SharesPrefix(tag, values)
  {
    LiveSetElements(values);
    hide LiveSet, Candidate, Lower;
    if IsLiveShaTag(tag, LiveSet(values)) {
      var t := Lower(tag);
      var x := if t in LiveSet(values) then t else t[..7];
      var v :| v in values && IsSha(Candidate(v)) && (x == Candidate(v) || x == Candidate(v)[..7]);
      assert x[..7] == Candidate(v)[..7] == t[..7];
    }
  }

  /** When, how long and for which live SHAs to keep images. */
  datatype Policy = Policy(now: int, retentionDays: int, liveShas: seq<string>) {
    function Cutoff(): int { now - retentionDays * 86400 }
  }

  /** `_container_tags`: blank tags are dropped. */
  function ContainerTags(tags: seq<string>): seq<string> {
    if tags == [] then []
    else (if Strip(tags[0]) != "" then [tags[0]] else []) + ContainerTags(tags[1..])
  }

  function VersionId(v: Version): string {
    Strip(v.id)
  }

  predicate HasShaTag(tags: seq<string>) {
    exists tag <- tags :: IsShaTag(tag)
  }

  predicate HasReleaseTag(tags: seq<string>) {
    exists tag <- tags :: IsRelease(tag)
  }

  predicate HasLiveTag(tags: seq<string>, live: set<string>) {
    exists tag <- tags :: IsShaTag(tag) && IsLiveShaTag(tag, live)
  }

  /** The decision about one version; a version without an id gets none. */
  function Decide(v: Version, cutoff: int, live: set<string>): Option<Decision> {
    var tags := ContainerTags(v.tags);
    var id := VersionId(v);
    if id == "" then None
    else if !HasShaTag(tags) then Some(Decision(id, tags, Keep, NoShaTag))
    else if HasReleaseTag(tags) then Some(Decision(id, tags, Keep, ReleaseTag))
    else if HasLiveTag(tags, live) then Some(Decision(id, tags, Keep, LiveDeploySha))
    else match v.createdAt
      case None => Some(Decision(id, tags, Skip, InvalidCreatedAt))
      case Some(created) =>
        if created >= cutoff then Some(Decision(id, tags, Keep, RetentionWindow))
        else Some(Decision(id, tags, Delete, StaleSha))
  }

  function Decisions(versions: seq<Version>, cutoff: int, live: set<string>): seq<Decision> {
    if versions == [] then []
    else
      var rest := Decisions(versions[..|versions| - 1], cutoff, live);
      match Decide(versions[|versions| - 1], cutoff, live)
      case None => rest
      case Some(d) => rest + [d]
  }

  /** What one more version adds. */
  lemma DecisionsStep(versions: seq<Version>, i: nat, cutoff: int, live: set<string>)
    requires i < |versions|
    ensures var before, d := Decisions(versions[..i], cutoff, live), Decide(versions[i], cutoff, live);
            Decisions(versions[..i + 1], cutoff, live) == if d.Some? then before + [d.value] else before
  {
    hide Decide;
    assert versions[..i + 1][..i] == versions[..i];
  }

  /** `select_retention_decisions` */
  method SelectRetentionDecisions(versions: seq<Version>, policy: Policy) returns (decisions: seq<Decision>)
    ensures decisions == Decisions(versions, policy.Cutoff(), LiveSet(policy.liveShas))
  {
    var cutoff := policy.now - policy.retentionDays * 86400;
    var live := NormalizeLiveShas(policy.liveShas);
    hide HasShaTag, HasReleaseTag, HasLiveTag, ContainerTags, VersionId, LiveSet;
    decisions := [];
    for i := 0 to |versions|
      invariant decisions == Decisions(versions[..i], cutoff, live)
    {
      DecisionsStep(versions, i, cutoff, live);
      var v := versions[i];
      var id, tags := VersionId(v), ContainerTags(v.tags);
      if id == "" {
        continue;
      }
      if !HasShaTag(tags) {
        decisions := decisions + [Decision(id, tags, Keep, NoShaTag)];
        continue;
      }
      if HasReleaseTag(tags) {
        decisions := decisions + [Decision(id, tags, Keep, ReleaseTag)];
        continue;
      }
      if HasLiveTag(tags, live) {
        decisions := decisions + [Decision(id, tags, Keep, LiveDeploySha)];
        continue;
      }
      if v.createdAt.None? {
        decisions := decisions + [Decision(id, tags, Skip, InvalidCreatedAt)];
        continue;
      }
      if v.createdAt.value >= cutoff {
        decisions := decisions + [Decision(id, tags, Keep, RetentionWindow)];
        continue;
      }
      decisions := decisions + [Decision(id, tags, Delete, StaleSha)];
    }
    assert versions[..|versions|] == versions;
  }

  /** Whether the classifier selects a version for deletion. */
  predicate Selected(v: Version, policy: Policy) {
    var d := Decide(v, policy.Cutoff(), LiveSet(policy.liveShas));
    d.Some? && d.value.action == Delete
  }

  /** What makes a version stale, in terms of the registry alone. */
  ghost predicate Stale(v: Version, policy: Policy) {
    && VersionId(v) != ""
    && (exists tag <- v.tags :: IsShaTag(tag))
    && (forall tag <- v.tags :: !IsRelease(tag))
    && (forall tag <- v.tags :: IsShaTag(tag) ==> !SharesPrefix(tag, policy.liveShas))
    && v.createdAt.Some? && v.createdAt.value < policy.now - policy.retentionDays * 86400
  }

  lemma {:induction false} ContainerTagsKeepNames(tags: seq<string>)
    ensures forall tag :: tag in ContainerTags(tags) <==> tag in tags && Strip(tag) != ""
  {
    if tags != [] {
      ContainerTagsKeepNames(tags[1..]);
      assert tags == [tags[0]] + tags[1..];
    }
  }

  lemma BlankIsSpace(s: string)
    ensures Strip(s) == "" <==> AllSpace(s)
  {
    var a, b := StripRest(s);
    if AllSpace(s) {
      assert s + "" + "" == s;
      StripIs(s, "", "");
    }
  }

  /** No tag the classifier looks for is blank. */
  lemma NamedTagsAreNotBlank(tag: string)
    requires IsShaTag(tag) || IsRelease(tag)
    ensures Strip(tag) != ""
  {
    if Strip(tag) == "" {
      BlankIsSpace(tag);
      assert IsSpace(tag[0]);
      LowerFirst(tag);
    }
  }

  lemma LowerFirst(s: string)
    requires s != "" && IsSpace(s[0])
    ensures Lower(s)[0] == s[0] && !IsHexDigit(s[0])
  {
  }

  /** Exactly the stale versions are selected: no live, released or recent image ever is. */
  lemma SelectedIsStale(v: Version, policy: Policy)
    ensures Selected(v, policy) <==> Stale(v, policy)
  {
    hide IsShaTag, IsRelease, IsLiveShaTag, SharesPrefix, LiveSet, Strip, ContainerTags;
    ContainerTagsKeepNames(v.tags);
    forall tag ensures IsShaTag(tag) || IsRelease(tag) ==> Strip(tag) != ""
               ensures IsLiveShaTag(tag, LiveSet(policy.liveShas)) <==> SharesPrefix(tag, policy.liveShas) {
      if IsShaTag(tag) || IsRelease(tag) { NamedTagsAreNotBlank(tag); }
      LookupIsPairwise(tag, policy.liveShas);
    }
  }

  /** More live SHAs, more retention days or an earlier clock never add a deletion. */
  lemma StaleIsMonotone(v: Version, strict: Policy, lax: Policy)
    requires forall sha <- lax.liveShas :: sha in strict.liveShas
    requires lax.retentionDays <= strict.retentionDays && strict.now <= lax.now
    ensures Selected(v, strict) ==> Selected(v, lax)
  {
    SelectedIsStale(v, strict);
    SelectedIsStale(v, lax);
  }

  // ---- why a version is kept, skipped or deleted ----

  ghost predicate HasSha(v: Version) {
    exists tag <- v.tags :: HexText(Lower(tag), 7, 40)
  }

  ghost predicate HasRelease(v: Version) {
    exists tag <- v.tags :: IsRelease(tag)
  }

  /** A SHA tag of the version shares its first seven characters with a live SHA. */
  ghost predicate IsLive(v: Version, policy: Policy) {
    exists tag <- v.tags :: HexText(Lower(tag), 7, 40) && SharesPrefix(tag, policy.liveShas)
  }

  ghost predicate IsCandidate(v: Version, policy: Policy) {
    HasSha(v) && !HasRelease(v) && !IsLive(v, policy)
  }

  /** The reason given for a version with an id: exactly one of six applies. */
  ghost predicate Applies(reason: Reason, v: Version, policy: Policy) {
    match reason
    case NoShaTag => !HasSha(v)
    case ReleaseTag => HasSha(v) && HasRelease(v)
    case LiveDeploySha => HasSha(v) && !HasRelease(v) && IsLive(v, policy)
    case InvalidCreatedAt => IsCandidate(v, policy) && v.createdAt.None?
    case RetentionWindow =>
      IsCandidate(v, policy) && v.createdAt.Some? && v.createdAt.value >= policy.now - policy.retentionDays * 86400
    case StaleSha =>
      IsCandidate(v, policy) && v.createdAt.Some? && v.createdAt.value < policy.now - policy.retentionDays * 86400
  }

  lemma TagsAreJudged(v: Version, policy: Policy)
    ensures var tags, live := ContainerTags(v.tags), LiveSet(policy.liveShas);
            && (HasShaTag(tags) <==> HasSha(v)) && (HasReleaseTag(tags) <==> HasRelease(v))
            && (HasLiveTag(tags, live) <==> IsLive(v, policy))
  {
    ContainerTagsKeepNames(v.tags);
    forall tag ensures IsShaTag(tag) <==> HexText(Lower(tag), 7, 40)
               ensures IsShaTag(tag) || IsRelease(tag) ==> Strip(tag) != ""
               ensures IsLiveShaTag(tag, LiveSet(policy.liveShas)) <==> SharesPrefix(tag, policy.liveShas) {
      ShaIsHex(Lower(tag));
      if IsShaTag(tag) || IsRelease(tag) { NamedTagsAreNotBlank(tag); }
      LookupIsPairwise(tag, policy.liveShas);
    }
    hide IsShaTag, HexText, IsRelease, IsLiveShaTag, SharesPrefix, LiveSet, Strip, ContainerTags, Lower;
  }

  /** Every version with an id is given the one reason that applies. */
  lemma ReasonIsTrue(v: Version, policy: Policy)
    ensures var d := Decide(v, policy.Cutoff(), LiveSet(policy.liveShas));
            d.Some? ==> Applies(d.value.reason, v, policy) && forall other :: Applies(other, v, policy) ==> other == d.value.reason
  {
    TagsAreJudged(v, policy);
    hide HasShaTag, HasReleaseTag, HasLiveTag, HasSha, HasRelease, IsLive, VersionId, LiveSet, ContainerTags;
  }

  /** A decision does what its reason calls for. */
  lemma ReasonIsActedOn(v: Version, policy: Policy)
    ensures var d := Decide(v, policy.Cutoff(), LiveSet(policy.liveShas));
            d.Some? ==> match d.value.reason
                        case StaleSha => d.value.action == Delete
                        case InvalidCreatedAt => d.value.action == Skip
                        case _ => d.value.action == Keep
  {
    hide HasShaTag, HasReleaseTag, HasLiveTag, VersionId, LiveSet, ContainerTags;
  }

  lemma DecisionParts(v: Version, cutoff: int, live: set<string>)
    ensures var d := Decide(v, cutoff, live);
            && (d.None? <==> VersionId(v) == "")
            && (d.Some? ==> d.value.versionId == VersionId(v) && d.value.tags == ContainerTags(v.tags))
  {
    hide HasShaTag, HasReleaseTag, HasLiveTag, VersionId, ContainerTags;
  }

  /** A version gets a decision exactly if it has an id, under that id and with its tags that are not blank. */
  lemma DecisionNamesVersion(v: Version, cutoff: int, live: set<string>)
    ensures var d := Decide(v, cutoff, live);
            && (d.None? <==> AllSpace(v.id))
            && (d.Some? ==> d.value.versionId == Strip(v.id))
            && (d.Some? ==> forall tag :: tag in d.value.tags <==> tag in v.tags && !AllSpace(tag))
  {
    DecisionParts(v, cutoff, live);
    hide Decide, Strip, AllSpace, ContainerTags;
    BlankIsSpace(v.id);
    ContainerTagsKeepNames(v.tags);
    forall tag ensures Strip(tag) == "" <==> AllSpace(tag) {
      BlankIsSpace(tag);
    }
  }
}
