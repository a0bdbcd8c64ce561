/**
 What this repository may ask the deployment receiver to do
 (tools/app_deploy_request.py): the sender's authority check, and the one shape
 of request that passes it.
 */
module DeployRequest {
  import opened Wrappers
  import opened Text
  import opened Json
  import opened Releases

  const SERVICE := "finance_report/app"
  const SOURCE_REPOSITORY := "wangzitian0/finance_report"

  const REQUEST_FIELDS := {"contract_version", "request_id", "operation", "service", "deploy_type", "version_ref",
                           "source_repository", "source_sha", "evidence"}

  const EVIDENCE_FIELDS := {"source_run_url", "source_run_id", "staging_run_url", "reviewed_change_url"}

  datatype RequestError =
    | WrongFields | WrongVersion | WrongService | WrongRepository | WrongOperation | WrongDeployType
    | WrongVersionRef | WrongSha | EvidenceNotObject | WrongEvidenceFields | NoRunUrl | ForeignRunUrl
    | NoRunId | RunIdMismatch | NotEmptyForStaging(field: string) | NoUrl(field: string) | ForeignUrl(field: string)
    | SdkRejects

  /** A URL as `urlparse` takes it apart. */
  datatype Url = Url(scheme: string, netloc: string, path: string, params: string, query: string, fragment: string)

  /** `urlparse`; no result where it raises. */
  type UrlParser = string -> Option<Url>

  predicate IsSha(s: string) {
    |s| == 40 && forall i :: 0 <= i < |s| ==> IsHexDigit(s[i])
  }

  /** The number a path ends with, behind a prefix: `[1-9][0-9]*`. */
  function PathNumber(path: string, kind: string): Option<string> {
    var prefix := "/" + SOURCE_REPOSITORY + kind;
    if prefix <= path && IsNumber(path[|prefix|..]) && path[|prefix|] != '0' then Some(path[|prefix|..]) else None
  }

  const RUN_KIND := "/actions/runs/"
  const PULL_KIND := "/pull/"

  /** The number in a canonical URL of this repository. */
  function CanonicalNumber(url: string, kind: string, parse: UrlParser): Option<string> {
    match parse(url)
    case None => None
    case Some(u) =>
      if u.scheme == "https" && u.netloc == "github.com" && u.params == "" && u.query == "" && u.fragment == ""
      then PathNumber(u.path, kind) else None
  }

  /** `_require_canonical_evidence_url`: the error it raises, if any. */
  function RequireUrl(value: Json, field: string, kind: string, parse: UrlParser): Option<RequestError> {
    if !value.Str? || value.s == "" then Some(NoUrl(field))
    else if CanonicalNumber(value.s, kind, parse).None? then Some(ForeignUrl(field))
    else None
  }

  /** Python's `== 1`, where 1.0 counts as 1 but `True` has been excluded. */
  predicate IsOne(value: Json) {
    value == Int(1) || value == Float(1.0)
  }

  function ValidateEvidence(evidence: Fields, production: bool, parse: UrlParser): Option<RequestError> {
    var runUrl, runId := Get(evidence, "source_run_url"), Get(evidence, "source_run_id");
    if evidence.Keys != EVIDENCE_FIELDS then Some(WrongEvidenceFields)
    else if !runUrl.Str? || runUrl.s == "" then Some(NoRunUrl)
    else if CanonicalNumber(runUrl.s, RUN_KIND, parse).None? then Some(ForeignRunUrl)
    else if !runId.Str? || runId.s == "" then Some(NoRunId)
    else if runId.s != CanonicalNumber(runUrl.s, RUN_KIND, parse).value then Some(RunIdMismatch)
    else ValidateUrls(evidence, production, parse)
  }

  /** The two URLs that a staging request leaves empty and a production request gives. */
  function ValidateUrls(evidence: Fields, production: bool, parse: UrlParser): Option<RequestError> {
    var staging, reviewed := Get(evidence, "staging_run_url"), Get(evidence, "reviewed_change_url");
    if !production then
      if staging != Str("") then Some(NotEmptyForStaging("staging_run_url"))
      else if reviewed != Str("") then Some(NotEmptyForStaging("reviewed_change_url"))
      else None
    else if RequireUrl(staging, "staging_run_url", RUN_KIND, parse).Some?
    then RequireUrl(staging, "staging_run_url", RUN_KIND, parse)
    else RequireUrl(reviewed, "reviewed_change_url", PULL_KIND, parse)
  }

  /** `_validate_authority`: the error it raises, if any. */
  function ValidateAuthority(raw: Fields, parse: UrlParser): Option<RequestError> {
    var deployType, versionRef, sha := Get(raw, "deploy_type"), Get(raw, "version_ref"), Get(raw, "source_sha");
    if raw.Keys != REQUEST_FIELDS then Some(WrongFields)
    else if !IsOne(Get(raw, "contract_version")) then Some(WrongVersion)
    else if Get(raw, "service") != Str(SERVICE) then Some(WrongService)
    else if Get(raw, "source_repository") != Str(SOURCE_REPOSITORY) then Some(WrongRepository)
    else if Get(raw, "operation") != Str("deploy") then Some(WrongOperation)
    else if deployType != Str("staging") && deployType != Str("prod") then Some(WrongDeployType)
    else if !versionRef.Str? || !IsRelease(versionRef.s) then Some(WrongVersionRef)
    else if !sha.Str? || !IsSha(sha.s) then Some(WrongSha)
    else if !Get(raw, "evidence").Obj? then Some(EvidenceNotObject)
    else ValidateEvidence(Get(raw, "evidence").fields, deployType == Str("prod"), parse)
  }

  /** The SDK, which this repository only calls. */
  datatype Sdk<!R> = Sdk(fromDict: Fields -> Option<R>, toDict: R -> Fields, requestId: R -> string)

  /** `request_from_mapping` */
  function RequestFromMapping<R>(raw: Fields, sdk: Sdk<R>, parse: UrlParser): Result<R, RequestError> {
    if ValidateAuthority(raw, parse).Some? then Err(ValidateAuthority(raw, parse).value)
    else match sdk.fromDict(raw)
      case None => Err(SdkRejects)
      case Some(request) =>
        if ValidateAuthority(sdk.toDict(request), parse).Some?
        then Err(ValidateAuthority(sdk.toDict(request), parse).value) else Ok(request)
  }

  // ---- the requests this repository renders ----

  /** The arguments of `render_request`. */
  datatype Args = Args(requestId: string, deployType: string, versionRef: string, sha: string,
                       runUrl: string, runId: string, stagingUrl: string, reviewedUrl: string)

  /** The mapping `render_request` builds. */
  function Rendered(a: Args): Fields {
    map["contract_version" := Int(1), "request_id" := Str(a.requestId), "operation" := Str("deploy"),
        "service" := Str(SERVICE), "deploy_type" := Str(a.deployType),
        "version_ref" := Str(a.versionRef), "source_repository" := Str(SOURCE_REPOSITORY),
        "source_sha" := Str(a.sha), "evidence" := Obj(RenderedEvidence(a))]
  }

  function RenderedEvidence(a: Args): Fields {
    map["source_run_url" := Str(a.runUrl), "source_run_id" := Str(a.runId),
        "staging_run_url" := Str(a.stagingUrl), "reviewed_change_url" := Str(a.reviewedUrl)]
  }

  /** A rendered mapping with its version and its request id replaced. */
  function Respelled(a: Args, version: Json, requestId: Json): Fields {
    Rendered(a)["contract_version" := version]["request_id" := requestId]
  }

  ghost predicate Proper(a: Args, parse: UrlParser) {
    && (a.deployType == "staging" || a.deployType == "prod") && IsRelease(a.versionRef) && IsSha(a.sha)
    && a.runUrl != "" && CanonicalNumber(a.runUrl, RUN_KIND, parse) == Some(a.runId)
    && (if a.deployType == "prod"
        then a.stagingUrl != "" && CanonicalNumber(a.stagingUrl, RUN_KIND, parse).Some?
             && a.reviewedUrl != "" && CanonicalNumber(a.reviewedUrl, PULL_KIND, parse).Some?
        else a.stagingUrl == "" && a.reviewedUrl == "")
  }

  lemma NumberIsNotEmpty(url: string, kind: string, parse: UrlParser)
    ensures CanonicalNumber(url, kind, parse) != Some("")
  {
  }

  lemma EvidencePasses(a: Args, production: bool, parse: UrlParser)
    ensures ValidateEvidence(RenderedEvidence(a), production, parse) == None
       <==> a.runUrl != "" && CanonicalNumber(a.runUrl, RUN_KIND, parse) == Some(a.runId)
            && (if production
                then a.stagingUrl != "" && CanonicalNumber(a.stagingUrl, RUN_KIND, parse).Some?
                     && a.reviewedUrl != "" && CanonicalNumber(a.reviewedUrl, PULL_KIND, parse).Some?
                else a.stagingUrl == "" && a.reviewedUrl == "")
  {
    NumberIsNotEmpty(a.runUrl, RUN_KIND, parse);
    hide CanonicalNumber;
    assert RenderedEvidence(a).Keys == EVIDENCE_FIELDS;
  }

  /** The check looks at the version only up to its numeric value, and at the request id not at all. */
  lemma RespelledPasses(a: Args, version: Json, requestId: Json, parse: UrlParser)
    ensures ValidateAuthority(Respelled(a, version, requestId), parse) == None <==> IsOne(version) && Proper(a, parse)
  {
    hide ValidateEvidence, CanonicalNumber, IsRelease, IsSha, RenderedEvidence, IsOne;
    var raw := Respelled(a, version, requestId);
    assert raw.Keys == REQUEST_FIELDS;
    EvidencePasses(a, a.deployType == "prod", parse);
  }

  /** `render_request` gets past the check exactly with proper arguments. */
  lemma RenderedPasses(a: Args, parse: UrlParser)
    ensures ValidateAuthority(Rendered(a), parse) == None <==> Proper(a, parse)
  {
    hide ValidateAuthority, Proper;
    RespelledPasses(a, Int(1), Str(a.requestId), parse);
    assert Respelled(a, Int(1), Str(a.requestId)) == Rendered(a);
  }

  lemma PassedIsRespelled(raw: Fields, parse: UrlParser) returns (a: Args)
    requires ValidateAuthority(raw, parse) == None
    ensures Proper(a, parse) && IsOne(Get(raw, "contract_version"))
    ensures raw == Respelled(a, Get(raw, "contract_version"), Get(raw, "request_id"))
  {
    hide IsRelease, IsSha, CanonicalNumber;
    var evidence := raw["evidence"].fields;
    a := Args(if Get(raw, "request_id").Str? then Get(raw, "request_id").s else "", raw["deploy_type"].s, raw["version_ref"].s,
              raw["source_sha"].s, evidence["source_run_url"].s, evidence["source_run_id"].s,
              evidence["staging_run_url"].s, evidence["reviewed_change_url"].s);
    assert evidence == RenderedEvidence(a);
  }

  /** The check accepts exactly the proper rendered mappings, up to the spelling of the version and any request id. */
  lemma AuthorityIsRenderedShape(raw: Fields, parse: UrlParser)
    ensures ValidateAuthority(raw, parse) == None
       <==> exists a, version, requestId ::
              Proper(a, parse) && IsOne(version) && raw == Respelled(a, version, requestId)
  {
    hide ValidateAuthority, Proper, IsOne, Respelled;
    if ValidateAuthority(raw, parse) == None {
      var a := PassedIsRespelled(raw, parse);
    }
    if a, version, requestId :| Proper(a, parse) && IsOne(version) && raw == Respelled(a, version, requestId) {
      RespelledPasses(a, version, requestId, parse);
    }
  }

  lemma RenderedFields(a: Args)
    ensures Get(Rendered(a), "contract_version") == Int(1) && Get(Rendered(a), "request_id") == Str(a.requestId)
  {
  }

  lemma RespelledIsRendered(a: Args, requestId: string)
    ensures Respelled(a, Int(1), Str(requestId)) == Rendered(a.(requestId := requestId))
  {
  }

  /** A mapping that passes is one `render_request` builds exactly when its version is the integer 1 and its request id a string. */
  lemma PassedIsRendered(raw: Fields, parse: UrlParser)
    requires ValidateAuthority(raw, parse) == None
    ensures (exists a :: Proper(a, parse) && raw == Rendered(a))
       <==> Get(raw, "contract_version") == Int(1) && Get(raw, "request_id").Str?
  {
    var a := PassedIsRespelled(raw, parse);
    hide ValidateAuthority, Rendered, Respelled, CanonicalNumber, IsRelease, IsSha;
    if Get(raw, "contract_version") == Int(1) && Get(raw, "request_id").Str? {
      var b := a.(requestId := Get(raw, "request_id").s);
      RespelledIsRendered(a, Get(raw, "request_id").s);
      assert Proper(b, parse) && raw == Rendered(b);
    }
    if b :| Proper(b, parse) && raw == Rendered(b) {
      RenderedFields(b);
    }
  }

  // ---- what passes and is not rendered ----

  const KNOWN_PATH := "/" + SOURCE_REPOSITORY + RUN_KIND + "7"
  const KNOWN_URL := "https://" + "github.com" + KNOWN_PATH

  function KnownRun(): Args {
    Args("r", "staging", "v1.2.3", seq(40, _ => 'a'), KNOWN_URL, "7", "", "")
  }

  /** The parser takes the URL of run 7 apart as it should. */
  ghost predicate KnowsRun(parse: UrlParser) {
    parse(KNOWN_URL) == Some(Url("https", "github.com", KNOWN_PATH, "", "", ""))
  }

  lemma KnownRunIsProper(parse: UrlParser)
    requires KnowsRun(parse)
    ensures Proper(KnownRun(), parse)
  {
    KnownReleaseRef();
    KnownNumber(parse);
    assert KNOWN_URL != "";
    hide IsRelease, CanonicalNumber;
    var sha := KnownRun().sha;
    assert |sha| == 40 && forall i :: 0 <= i < |sha| ==> sha[i] == 'a';
  }

  lemma KnownReleaseRef()
    ensures IsRelease("v1.2.3")
  {
    var s := "1.2.3";
    assert "v1.2.3"[1..] == s && s == "1" + ['.'] + "2.3" && "2.3" == "2" + ['.'] + "3";
    SplitAppend("1", '.', "2.3");
    SplitAppend("2", '.', "3");
    SplitPlain("3", '.');
    assert Split(s, '.') == ["1", "2", "3"];
  }

  lemma KnownNumber(parse: UrlParser)
    requires KnowsRun(parse)
    ensures CanonicalNumber(KNOWN_URL, RUN_KIND, parse) == Some("7")
  {
    var prefix := "/" + SOURCE_REPOSITORY + RUN_KIND;
    assert KNOWN_PATH == prefix + "7" && KNOWN_PATH[|prefix|..] == "7";
  }

  /** The float 1.0 passes for the version, and so does a request id that is no string; neither is ever rendered. */
  lemma MoreThanRenderedPasses(parse: UrlParser)
    requires KnowsRun(parse)
    ensures var raw := Respelled(KnownRun(), Float(1.0), Str("r"));
            ValidateAuthority(raw, parse) == None && forall a :: raw != Rendered(a)
    ensures var raw := Respelled(KnownRun(), Int(1), Null);
            ValidateAuthority(raw, parse) == None && forall a :: raw != Rendered(a)
  {
    KnownRunIsProper(parse);
    RespelledPasses(KnownRun(), Float(1.0), Str("r"), parse);
    RespelledPasses(KnownRun(), Int(1), Null, parse);
    hide ValidateAuthority, Proper, KnownRun;
    forall a ensures Respelled(KnownRun(), Float(1.0), Str("r")) != Rendered(a) {
      RenderedFields(a);
      assert Get(Respelled(KnownRun(), Float(1.0), Str("r")), "contract_version") == Float(1.0);
    }
    forall a ensures Respelled(KnownRun(), Int(1), Null) != Rendered(a) {
      RenderedFields(a);
      assert Get(Respelled(KnownRun(), Int(1), Null), "request_id") == Null;
    }
  }
}
