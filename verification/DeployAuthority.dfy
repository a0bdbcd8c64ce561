/**
 The authority check in plain words (tools/app_deploy_request.py): which mapping
 passes, and which error the first thing wrong with any other one leads to.
 */
module DeployAuthority {
  import opened Wrappers
  import opened Text
  import opened Json
  import opened Releases
  import opened DeployRequest

  // ---- the parts of a request ----

  /** A URL of this repository on GitHub: the scheme, the host, the path up to a number, and nothing else. */
  ghost predicate Points(url: string, kind: string, number: string, parse: UrlParser) {
    && parse(url) == Some(Url("https", "github.com", "/wangzitian0/finance_report" + kind + number, "", "", ""))
    && DigitText(number) && number[0] != '0'
  }

  lemma PrefixTaken(path: string, prefix: string, rest: string)
    ensures path == prefix + rest <==> prefix <= path && path[|prefix|..] == rest
  {
  }

  lemma NumberInPath(path: string, kind: string, number: string)
    ensures PathNumber(path, kind) == Some(number)
            <==> path == "/wangzitian0/finance_report" + kind + number && DigitText(number) && number[0] != '0'
  {
    var prefix := "/wangzitian0/finance_report" + kind;
    assert "/" + SOURCE_REPOSITORY + kind == prefix;
    PrefixTaken(path, prefix, number);
    NumberIsDigits(number);
    assert path == prefix + number && number != "" ==> path[|prefix|] == number[0];
    hide DigitText;
  }

  /** A URL is canonical exactly if it points to a run or a pull request of this repository, by number. */
  lemma CanonicalExactly(url: string, kind: string, number: string, parse: UrlParser)
    ensures CanonicalNumber(url, kind, parse) == Some(number) <==> Points(url, kind, number, parse)
  {
    if parse(url).Some? { NumberInPath(parse(url).value.path, kind, number); }
    hide PathNumber;
  }

  lemma ShaIsHex(s: string)
    ensures IsSha(s) <==> HexText(s, 40, 40)
  {
    forall c: char ensures IsHexDigit(c) <==> c in HEX_DIGITS {
      HexDigitsAreListed(c);
    }
  }

  /** The arguments of a request that passes. */
  ghost predicate IsAuthorised(a: Args, parse: UrlParser) {
    && (a.deployType == "staging" || a.deployType == "prod")
    && (exists major, minor, patch :: ReleaseOf(a.versionRef, major, minor, patch))
    && HexText(a.sha, 40, 40)
    && a.runUrl != "" && Points(a.runUrl, "/actions/runs/", a.runId, parse)
    && (a.deployType == "staging" ==> a.stagingUrl == "" && a.reviewedUrl == "")
    && (a.deployType == "prod" ==>
          && a.stagingUrl != "" && (exists number :: Points(a.stagingUrl, "/actions/runs/", number, parse))
          && a.reviewedUrl != "" && exists number :: Points(a.reviewedUrl, "/pull/", number, parse))
  }

  lemma CanonicalIfPoints(url: string, kind: string, parse: UrlParser)
    ensures CanonicalNumber(url, kind, parse).Some? <==> exists number :: Points(url, kind, number, parse)
  {
    if CanonicalNumber(url, kind, parse).Some? {
      CanonicalExactly(url, kind, CanonicalNumber(url, kind, parse).value, parse);
    }
    if number :| Points(url, kind, number, parse) {
      CanonicalExactly(url, kind, number, parse);
    }
  }

  lemma ProperIsAuthorised(a: Args, parse: UrlParser)
    ensures Proper(a, parse) <==> IsAuthorised(a, parse)
  {
    ReleaseExactly(a.versionRef);
    ShaIsHex(a.sha);
    CanonicalExactly(a.runUrl, "/actions/runs/", a.runId, parse);
    CanonicalIfPoints(a.stagingUrl, "/actions/runs/", parse);
    CanonicalIfPoints(a.reviewedUrl, "/pull/", parse);
    hide CanonicalNumber, Points, IsRelease, ReleaseOf, IsSha, HexText;
    assert RUN_KIND == "/actions/runs/" && PULL_KIND == "/pull/";
  }

  /** The mapping of a request, key by key. */
  function Mapping(a: Args, version: Json, requestId: Json): Fields {
    map["contract_version" := version, "request_id" := requestId, "operation" := Str("deploy"),
        "service" := Str("finance_report/app"), "deploy_type" := Str(a.deployType), "version_ref" := Str(a.versionRef),
        "source_repository" := Str("wangzitian0/finance_report"), "source_sha" := Str(a.sha),
        "evidence" := Obj(map["source_run_url" := Str(a.runUrl), "source_run_id" := Str(a.runId),
                              "staging_run_url" := Str(a.stagingUrl), "reviewed_change_url" := Str(a.reviewedUrl)])]
  }

  lemma RespelledIsMapping(a: Args, version: Json, requestId: Json)
    ensures Respelled(a, version, requestId) == Mapping(a, version, requestId)
  {
  }

  /** Exactly what passes: the mapping of authorised arguments, with version 1 or 1.0 and any request id. */
  lemma PassesExactly(raw: Fields, parse: UrlParser)
    ensures ValidateAuthority(raw, parse) == None
       <==> exists a, version, requestId ::
              IsAuthorised(a, parse) && (version == Int(1) || version == Float(1.0)) && raw == Mapping(a, version, requestId)
  {
    AuthorityIsRenderedShape(raw, parse);
    hide ValidateAuthority, Proper, IsAuthorised, Respelled, Mapping;
    forall a ensures Proper(a, parse) <==> IsAuthorised(a, parse) {
      ProperIsAuthorised(a, parse);
    }
    forall a, version, requestId ensures Respelled(a, version, requestId) == Mapping(a, version, requestId) {
      RespelledIsMapping(a, version, requestId);
    }
  }

  // ---- what is wrong with any other mapping ----

  function EvidenceOf(raw: Fields): Fields {
    if Get(raw, "evidence").Obj? then Get(raw, "evidence").fields else map[]
  }

  ghost predicate IsUrlOf(value: Json, kind: string, parse: UrlParser) {
    value.Str? && exists number :: Points(value.s, kind, number, parse)
  }

  predicate IsText(value: Json) {
    value.Str? && value.s != ""
  }

  function KindOf(field: string): string {
    if field == "staging_run_url" then "/actions/runs/" else "/pull/"
  }

  /** What each error says of the mapping, taken by itself. */
  ghost predicate IsWrong(e: RequestError, raw: Fields, parse: UrlParser) {
    var evidence, prod := EvidenceOf(raw), Get(raw, "deploy_type") == Str("prod");
    var runUrl, runId := Get(evidence, "source_run_url"), Get(evidence, "source_run_id");
    match e
    case WrongFields => raw.Keys != {"contract_version", "request_id", "operation", "service", "deploy_type", "version_ref",
                                     "source_repository", "source_sha", "evidence"}
    case WrongVersion => Get(raw, "contract_version") != Int(1) && Get(raw, "contract_version") != Float(1.0)
    case WrongService => Get(raw, "service") != Str("finance_report/app")
    case WrongRepository => Get(raw, "source_repository") != Str("wangzitian0/finance_report")
    case WrongOperation => Get(raw, "operation") != Str("deploy")
    case WrongDeployType => Get(raw, "deploy_type") != Str("staging") && !prod
    case WrongVersionRef => !exists tag, major, minor, patch :: Get(raw, "version_ref") == Str(tag) && ReleaseOf(tag, major, minor, patch)
    case WrongSha => !exists sha :: Get(raw, "source_sha") == Str(sha) && HexText(sha, 40, 40)
    case EvidenceNotObject => !Get(raw, "evidence").Obj?
    case WrongEvidenceFields => evidence.Keys != {"source_run_url", "source_run_id", "staging_run_url", "reviewed_change_url"}
    case NoRunUrl => !IsText(runUrl)
    case ForeignRunUrl => !IsUrlOf(runUrl, "/actions/runs/", parse)
    case NoRunId => !IsText(runId)
    case RunIdMismatch => !(runUrl.Str? && runId.Str? && Points(runUrl.s, "/actions/runs/", runId.s, parse))
    case NotEmptyForStaging(field) => !prod && Get(evidence, field) != Str("")
    case NoUrl(field) => prod && !IsText(Get(evidence, field))
    case ForeignUrl(field) => prod && !IsUrlOf(Get(evidence, field), KindOf(field), parse)
    case SdkRejects => false
  }

  /** The order of the checks. */
  function Checks(): seq<RequestError> {
    [WrongFields] + ([WrongVersion] + ([WrongService] + ([WrongRepository] + ([WrongOperation] + MoreChecks()))))
  }

  function MoreChecks(): seq<RequestError> {
    [WrongDeployType] + ([WrongVersionRef] + ([WrongSha] + ([EvidenceNotObject] + EvidenceChecks())))
  }

  function EvidenceChecks(): seq<RequestError> {
    [WrongEvidenceFields] + ([NoRunUrl] + ([ForeignRunUrl] + ([NoRunId] + ([RunIdMismatch] + UrlChecks()))))
  }

  function UrlChecks(): seq<RequestError> {
    [NotEmptyForStaging("staging_run_url")] + ([NotEmptyForStaging("reviewed_change_url")] + ProdChecks())
  }

  function ProdChecks(): seq<RequestError> {
    UrlCheck("staging_run_url") + UrlCheck("reviewed_change_url")
  }

  function UrlCheck(field: string): seq<RequestError> {
    [NoUrl(field)] + [ForeignUrl(field)]
  }

  /** The first of some checks that fails. */
  ghost function FirstWrong(checks: seq<RequestError>, raw: Fields, parse: UrlParser): Option<RequestError> {
    if |checks| == 0 then None
    else if IsWrong(checks[0], raw, parse) then Some(checks[0])
    else FirstWrong(checks[1..], raw, parse)
  }

  lemma FirstOfTwo(e: RequestError, checks: seq<RequestError>, raw: Fields, parse: UrlParser)
    ensures FirstWrong([e] + checks, raw, parse) == if IsWrong(e, raw, parse) then Some(e) else FirstWrong(checks, raw, parse)
  {
    hide IsWrong;
    assert ([e] + checks)[1..] == checks;
  }

  lemma {:induction false} FirstOfBoth(a: seq<RequestError>, b: seq<RequestError>, raw: Fields, parse: UrlParser)
    ensures FirstWrong(a + b, raw, parse)
         == if FirstWrong(a, raw, parse).Some? then FirstWrong(a, raw, parse) else FirstWrong(b, raw, parse)
  {
    hide IsWrong;
    if |a| == 0 {
      assert a + b == b;
    } else {
      FirstOfBoth(a[1..], b, raw, parse);
      assert (a + b)[1..] == a[1..] + b && (a + b)[0] == a[0];
    }
  }

  lemma UrlCheckIsFirst(raw: Fields, field: string, parse: UrlParser)
    requires Get(raw, "deploy_type") == Str("prod")
    ensures RequireUrl(Get(EvidenceOf(raw), field), field, KindOf(field), parse) == FirstWrong(UrlCheck(field), raw, parse)
  {
    var value := Get(EvidenceOf(raw), field);
    if value.Str? { CanonicalIfPoints(value.s, KindOf(field), parse); }
    UrlCheckStep(raw, field, parse);
    hide CanonicalNumber, Points, FirstWrong, UrlCheck;
  }

  lemma UrlCheckStep(raw: Fields, field: string, parse: UrlParser)
    ensures FirstWrong(UrlCheck(field), raw, parse)
         == if IsWrong(NoUrl(field), raw, parse) then Some(NoUrl(field))
            else if IsWrong(ForeignUrl(field), raw, parse) then Some(ForeignUrl(field))
            else None
  {
    hide IsWrong;
    assert [ForeignUrl(field)] + [] == [ForeignUrl(field)];
    FirstOfTwo(ForeignUrl(field), [], raw, parse);
    FirstOfTwo(NoUrl(field), [ForeignUrl(field)], raw, parse);
  }

  lemma NoProdChecks(raw: Fields, field: string, parse: UrlParser)
    requires Get(raw, "deploy_type") != Str("prod")
    ensures FirstWrong(UrlCheck(field), raw, parse) == None
  {
    UrlCheckStep(raw, field, parse);
    hide FirstWrong, UrlCheck;
  }

  lemma UrlChecksStep(raw: Fields, parse: UrlParser)
    ensures FirstWrong(UrlChecks(), raw, parse)
         == if IsWrong(NotEmptyForStaging("staging_run_url"), raw, parse) then Some(NotEmptyForStaging("staging_run_url"))
            else if IsWrong(NotEmptyForStaging("reviewed_change_url"), raw, parse) then Some(NotEmptyForStaging("reviewed_change_url"))
            else if FirstWrong(UrlCheck("staging_run_url"), raw, parse).Some? then FirstWrong(UrlCheck("staging_run_url"), raw, parse)
            else FirstWrong(UrlCheck("reviewed_change_url"), raw, parse)
  {
    hide IsWrong, FirstWrong;
    FirstOfTwo(NotEmptyForStaging("reviewed_change_url"), ProdChecks(), raw, parse);
    FirstOfTwo(NotEmptyForStaging("staging_run_url"), [NotEmptyForStaging("reviewed_change_url")] + ProdChecks(), raw, parse);
    FirstOfBoth(UrlCheck("staging_run_url"), UrlCheck("reviewed_change_url"), raw, parse);
  }

  lemma UrlsAreChecked(raw: Fields, parse: UrlParser)
    ensures ValidateUrls(EvidenceOf(raw), Get(raw, "deploy_type") == Str("prod"), parse) == FirstWrong(UrlChecks(), raw, parse)
  {
    UrlChecksStep(raw, parse);
    StagingFacts(raw, parse);
    if Get(raw, "deploy_type") == Str("prod") {
      UrlCheckIsFirst(raw, "staging_run_url", parse);
      UrlCheckIsFirst(raw, "reviewed_change_url", parse);
    } else {
      NoProdChecks(raw, "staging_run_url", parse);
      NoProdChecks(raw, "reviewed_change_url", parse);
    }
    hide IsWrong, FirstWrong, RequireUrl, UrlCheck, UrlChecks;
  }

  lemma StagingFacts(raw: Fields, parse: UrlParser)
    ensures forall field :: IsWrong(NotEmptyForStaging(field), raw, parse)
                            <==> Get(raw, "deploy_type") != Str("prod") && Get(EvidenceOf(raw), field) != Str("")
  {
  }

  lemma RunUrlIsChecked(raw: Fields, parse: UrlParser)
    requires IsText(Get(EvidenceOf(raw), "source_run_url"))
    ensures var url := Get(EvidenceOf(raw), "source_run_url").s;
            && (IsWrong(ForeignRunUrl, raw, parse) <==> CanonicalNumber(url, RUN_KIND, parse).None?)
            && (Get(EvidenceOf(raw), "source_run_id").Str? ==>
                  (IsWrong(RunIdMismatch, raw, parse)
                   <==> CanonicalNumber(url, RUN_KIND, parse) != Some(Get(EvidenceOf(raw), "source_run_id").s)))
  {
    var url, runId := Get(EvidenceOf(raw), "source_run_url").s, Get(EvidenceOf(raw), "source_run_id");
    CanonicalIfPoints(url, "/actions/runs/", parse);
    if runId.Str? { CanonicalExactly(url, "/actions/runs/", runId.s, parse); }
    assert RUN_KIND == "/actions/runs/";
    hide CanonicalNumber, Points;
  }

  lemma EvidenceStep(raw: Fields, parse: UrlParser)
    ensures FirstWrong(EvidenceChecks(), raw, parse)
         == if IsWrong(WrongEvidenceFields, raw, parse) then Some(WrongEvidenceFields)
            else if IsWrong(NoRunUrl, raw, parse) then Some(NoRunUrl)
            else if IsWrong(ForeignRunUrl, raw, parse) then Some(ForeignRunUrl)
            else if IsWrong(NoRunId, raw, parse) then Some(NoRunId)
            else if IsWrong(RunIdMismatch, raw, parse) then Some(RunIdMismatch)
            else FirstWrong(UrlChecks(), raw, parse)
  {
    hide IsWrong, FirstWrong, UrlChecks;
    var c5 := UrlChecks();
    var c4 := [RunIdMismatch] + c5;
    var c3 := [NoRunId] + c4;
    var c2 := [ForeignRunUrl] + c3;
    var c1 := [NoRunUrl] + c2;
    FirstOfTwo(RunIdMismatch, c5, raw, parse);
    FirstOfTwo(NoRunId, c4, raw, parse);
    FirstOfTwo(ForeignRunUrl, c3, raw, parse);
    FirstOfTwo(NoRunUrl, c2, raw, parse);
    FirstOfTwo(WrongEvidenceFields, c1, raw, parse);
  }

  lemma EvidenceIsChecked(raw: Fields, parse: UrlParser)
    ensures ValidateEvidence(EvidenceOf(raw), Get(raw, "deploy_type") == Str("prod"), parse)
         == FirstWrong(EvidenceChecks(), raw, parse)
  {
    EvidenceStep(raw, parse);
    UrlsAreChecked(raw, parse);
    EvidenceFacts(raw, parse);
    hide IsWrong, FirstWrong, ValidateUrls, CanonicalNumber, EvidenceChecks, UrlChecks, EvidenceOf;
    if IsText(Get(EvidenceOf(raw), "source_run_url")) { RunUrlIsChecked(raw, parse); }
  }

  lemma EvidenceFacts(raw: Fields, parse: UrlParser)
    ensures IsWrong(WrongEvidenceFields, raw, parse) <==> EvidenceOf(raw).Keys != EVIDENCE_FIELDS
    ensures IsWrong(NoRunUrl, raw, parse) <==> !IsText(Get(EvidenceOf(raw), "source_run_url"))
    ensures IsWrong(NoRunId, raw, parse) <==> !IsText(Get(EvidenceOf(raw), "source_run_id"))
  {
  }

  lemma MoreStep(raw: Fields, parse: UrlParser)
    ensures FirstWrong(MoreChecks(), raw, parse)
         == if IsWrong(WrongDeployType, raw, parse) then Some(WrongDeployType)
            else if IsWrong(WrongVersionRef, raw, parse) then Some(WrongVersionRef)
            else if IsWrong(WrongSha, raw, parse) then Some(WrongSha)
            else if IsWrong(EvidenceNotObject, raw, parse) then Some(EvidenceNotObject)
            else FirstWrong(EvidenceChecks(), raw, parse)
  {
    hide IsWrong, FirstWrong, EvidenceChecks;
    var c4 := EvidenceChecks();
    var c3 := [EvidenceNotObject] + c4;
    var c2 := [WrongSha] + c3;
    var c1 := [WrongVersionRef] + c2;
    FirstOfTwo(EvidenceNotObject, c4, raw, parse);
    FirstOfTwo(WrongSha, c3, raw, parse);
    FirstOfTwo(WrongVersionRef, c2, raw, parse);
    FirstOfTwo(WrongDeployType, c1, raw, parse);
  }

  lemma ChecksStep(raw: Fields, parse: UrlParser)
    ensures FirstWrong(Checks(), raw, parse)
         == if IsWrong(WrongFields, raw, parse) then Some(WrongFields)
            else if IsWrong(WrongVersion, raw, parse) then Some(WrongVersion)
            else if IsWrong(WrongService, raw, parse) then Some(WrongService)
            else if IsWrong(WrongRepository, raw, parse) then Some(WrongRepository)
            else if IsWrong(WrongOperation, raw, parse) then Some(WrongOperation)
            else FirstWrong(MoreChecks(), raw, parse)
  {
    hide IsWrong, FirstWrong, MoreChecks;
    var c5 := MoreChecks();
    var c4 := [WrongOperation] + c5;
    var c3 := [WrongRepository] + c4;
    var c2 := [WrongService] + c3;
    var c1 := [WrongVersion] + c2;
    FirstOfTwo(WrongOperation, c5, raw, parse);
    FirstOfTwo(WrongRepository, c4, raw, parse);
    FirstOfTwo(WrongService, c3, raw, parse);
    FirstOfTwo(WrongVersion, c2, raw, parse);
    FirstOfTwo(WrongFields, c1, raw, parse);
  }

  lemma TextsAreChecked(raw: Fields, parse: UrlParser)
    ensures var versionRef := Get(raw, "version_ref");
            IsWrong(WrongVersionRef, raw, parse) <==> !versionRef.Str? || !IsRelease(versionRef.s)
    ensures var sha := Get(raw, "source_sha"); IsWrong(WrongSha, raw, parse) <==> !sha.Str? || !IsSha(sha.s)
  {
    var versionRef, sha := Get(raw, "version_ref"), Get(raw, "source_sha");
    if versionRef.Str? { ReleaseExactly(versionRef.s); }
    if sha.Str? { ShaIsHex(sha.s); }
    hide IsRelease, ReleaseOf, IsSha, HexText;
  }

  /** The authority check reports the first of its checks that fails, and passes what none of them fails. */
  lemma ErrorIsFirst(raw: Fields, parse: UrlParser)
    ensures ValidateAuthority(raw, parse) == FirstWrong(Checks(), raw, parse)
  {
    ChecksStep(raw, parse);
    MoreStep(raw, parse);
    EvidenceIsChecked(raw, parse);
    TextsAreChecked(raw, parse);
    hide FirstWrong, ValidateEvidence, IsRelease, ReleaseOf, IsSha, HexText, Checks, MoreChecks, EvidenceChecks;
  }

  /** A request is accepted exactly if the SDK reads it and it passes as given and as the SDK gives it back. */
  lemma AcceptedExactly<R>(raw: Fields, sdk: Sdk<R>, parse: UrlParser, request: R)
    ensures RequestFromMapping(raw, sdk, parse) == Ok(request)
            <==> ValidateAuthority(raw, parse) == None && sdk.fromDict(raw) == Some(request)
                 && ValidateAuthority(sdk.toDict(request), parse) == None
  {
    hide ValidateAuthority;
  }

  /** And otherwise it is refused with the first error met. */
  lemma RefusedExactly<R>(raw: Fields, sdk: Sdk<R>, parse: UrlParser, e: RequestError)
    ensures RequestFromMapping(raw, sdk, parse) == Err(e)
            <==> FirstWrong(Checks(), raw, parse) == Some(e)
                 || (FirstWrong(Checks(), raw, parse) == None && sdk.fromDict(raw) == None && e == SdkRejects)
                 || (FirstWrong(Checks(), raw, parse) == None && sdk.fromDict(raw).Some?
                     && FirstWrong(Checks(), sdk.toDict(sdk.fromDict(raw).value), parse) == Some(e))
  {
    ErrorIsFirst(raw, parse);
    if sdk.fromDict(raw).Some? { ErrorIsFirst(sdk.toDict(sdk.fromDict(raw).value), parse); }
    hide ValidateAuthority, FirstWrong, Checks;
  }
}
