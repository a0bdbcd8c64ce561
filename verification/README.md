# Verification of the delivery tooling

This project models the parts of the repository's tooling whose mistakes would
be expensive: who gets to deploy and whose run is believed, which images are
deleted, whether a quality floor can fall, and whether generated files survive
being generated again. Each module stands for one source file, or one concern
of it. Objects that the source updates step by step are classes, loops are
loops, and each method is proved against a function; the laws are proved about
those functions, for all inputs and all runs. `dafny verify dfyconfig.toml`
checks everything.

## What is modelled

* **Deploying** (`DeployRequest`, `DeployAuthority`, `DeployTransport`,
  `DeployProtocol`, `DeployOutcomes`, `DeployAttribution`). The remote side is
  an arbitrary function of the number of calls made before, so it may answer,
  fail or change its mind at every call. `DeployProtocol` states what every run
  keeps, `DeployOutcomes` exactly how it ends, in terms of the JSON sent.
  `DeployAttribution` adds a receiver that hands out growing ids and shows its
  newest thirty runs, and proves whose run is returned while other dispatchers
  are at work.
* **Decimals** (`Digits`, `DecimalWire`, `DecimalSyntax`). A decimal is a sign,
  a coefficient and an exponent, or a non-finite value; the printer and the
  parser are written out over unbounded digits.
* **GitHub transport** (`GithubOutput`, `GithubPages`). The output writer is
  proved against a reader of the `key=value` / `key<<DELIMITER` format; the
  paginator against lists that stay and lists that grow.
* **Environment files** (`ManagedRegion`, `EnvRender`, `EnvBlock`, `EnvDocs`,
  `EnvRows`). The region rewriter as string surgery, and the three renderers of
  the settings fields, each with a reader of what it prints.
* **Image retention** (`ImageRetention`, `ImagePruning`). The classifier, and
  the delete loop over a registry in which any call may fail, with or without
  having had its effect.
* **Score floors** (`ScoreRatchet`). The raise-only merge over real scores with
  rounding to six decimals, and the migration cut short at any point.
* **API inventory** (`ApiReference`, `ApiRows`, `Tables`). Grouping, counting
  and the Markdown rows, read cell by cell with a row splitter in which a pipe
  right behind a backslash does not separate cells (section 4.10 of the GitHub
  Flavored Markdown Spec). A code span is read as the text between its ticks,
  as printed.

`Text`, `Reading`, `Sorting`, `Ordering`, `Json` and `Releases` hold what these
share: Python's string operations, reading joined lines back, its stable
`sorted`, its order on strings, decoded JSON, and the form of a release tag.

## Where the code and its description differ

* A second render of `.env.example` forgets the first one exactly when no line
  of the first block shows the END marker, and `--check` right after a write
  passes exactly when, besides, none of the three files holds a carriage
  return. With END only before BEGIN, everything behind BEGIN is dropped.
* Comments, values and group banners are printed into `.env.example` without
  regard to newlines. A further line of a description, value or group name
  that is neither white space nor a comment binds a key of its own. The table
  replaces the newlines of descriptions only, and neither ticks nor pipes in a
  key are escaped, so a key with one of them is not found in its cell.
* The merge documents that only a strictly higher score replaces a floor. A
  score that is higher by less than the rounding replaces metric and provenance
  and leaves the floor as it is. A floor that is not on the six-decimal grid can
  even drop, exactly when it lies in the lower half of its grid cell; floors
  read from the JSONL file are on the grid.
* A dry run counts what a real run at the same time deletes exactly when no
  image with selected versions is named twice.
* The reference table shows an example only where it differs from the default,
  so an empty value beside a default reads as the default.
* The API page escapes neither tags nor paths. A path with a newline, a
  backtick or a bare pipe is not shown as it is (the pipe ends its cell and
  adds one to the row), a bare pipe in a tag adds a cell to its line of the
  group table, and a tag of several lines can put a row on the page that no
  operation has.
* `contract_version` 1.0 passes the authority check like 1, and the request id
  is not checked by it at all, so more passes than `render_request` builds. The
  URL of the run returned is checked for its prefix only, not for the run's id.

## Model

| member | source | states |
|---|---|---|
| DeployRequest.RenderedPasses | tools/app_deploy_request.py:62-91 | the request `render_request` builds gets past the authority check exactly when its arguments are proper: deploy type, release tag, SHA, run URL with its number, and the evidence its deploy type asks for |
| DeployRequest.RespelledPasses | tools/app_deploy_request.py:107-201 | with version and request id replaced, a rendered request still passes exactly if it is proper and the version equals 1; the request id does not matter |
| DeployRequest.PassedIsRespelled | tools/app_deploy_request.py:107-201 | whatever passes is, field for field, a proper rendered request up to the spelling of its version and its request id |
| DeployRequest.PassedIsRendered | tools/app_deploy_request.py:62-182 | a mapping that passes is one `render_request` builds exactly when its version is the integer 1 and its request id a string |
| DeployRequest.AuthorityIsRenderedShape | tools/app_deploy_request.py:107-201 | the authority check accepts exactly the proper rendered mappings up to the spelling of the version and any request id, over all mappings and any URL parser |
| DeployRequest.MoreThanRenderedPasses | tools/app_deploy_request.py:110-112 | a mapping with version 1.0, and one with a request id that is no string, pass with a real run URL under every parser that reads that URL as it is, and are never rendered |
| Releases.ReleaseExactly | tools/app_deploy_request.py:44 | a release tag is exactly "v" and three runs of digits with points between them |
| DeployAuthority.CanonicalExactly | tools/app_deploy_request.py:45-50 | a URL is canonical with a number exactly if it is taken apart into https, github.com, the path of this repository's runs or pull requests up to that number, and nothing else; the number has no leading zero |
| DeployAuthority.PassesExactly | tools/app_deploy_request.py:107-201 | what passes, with every constant written out: the mapping of authorised arguments with version 1 or 1.0 and any request id, and no other |
| DeployAuthority.ErrorIsFirst | tools/app_deploy_request.py:107-201 | of any mapping at all: the error reported is that of the first check, in order, that fails when taken by itself, and there is none exactly when none fails |
| DeployAuthority.AcceptedExactly | tools/app_deploy_request.py:54-59 | a request is accepted exactly if the mapping passes, the SDK reads it, and what the SDK gives back passes as well |
| DeployAuthority.RefusedExactly | tools/app_deploy_request.py:54-59 | and otherwise refused with the first error met: of the mapping, of the SDK, or of what the SDK gives back |
| DeployTransport.Session.Finish | tools/app_deploy_transport.py:83-99 | the checks on a completed run, in order: conclusion, then logs, then URL; logs are fetched only for a success |
| DeployTransport.Session.Poll | tools/app_deploy_transport.py:65-103 | the poll loop has the outcome and makes the calls that the protocol prescribes from the present state on |
| DeployTransport.Session.PostAndPoll | tools/app_deploy_transport.py:59-103 | one POST, and the polls only if it is taken |
| DeployTransport.Session.DispatchAndWait | tools/app_deploy_transport.py:44-103 | a whole dispatch has the prescribed outcome and makes exactly the prescribed calls, against any remote |
| DeployProtocol.EndsAtFirstDecision | tools/app_deploy_transport.py:65-99 | the first poll that decides anything ends the run: k rounds of GET and sleep, one GET, and what that poll leads to |
| DeployProtocol.EndsByTimeout | tools/app_deploy_transport.py:73-82 | without a decision every attempt is used, with a sleep between two polls and none behind the last |
| DeployProtocol.FirstDecision | tools/app_deploy_transport.py:65-82 | the first decisive poll within the attempts, or the fact that all of them are pending |
| DeployProtocol.AcceptedPassesTwice | tools/app_deploy_request.py:54-59 | an accepted request passed the authority check as given and again as the SDK converts it back |
| DeployProtocol.SentCalls | tools/app_deploy_transport.py:56-99 | once the baseline is read, every call is in its place: POST second, GETs at even and sleeps at odd numbers, logs last |
| DeployProtocol.DispatchIsCautious | tools/app_deploy_transport.py:54-99 | whatever the environment answers: at most one POST, right behind the baseline and before every poll, made exactly when the request is accepted and the baseline readable, with an authorised payload; logs at most once and last |
| DeployProtocol.OnlyRenderedRequestsArePosted | tools/app_deploy_transport.py:55-63 | any payload ever posted is a proper rendered request up to version spelling and request id, and one that `render_request` builds exactly when these are the integer 1 and a string, even if the SDK conversion is arbitrary |
| DeployProtocol.NoCandidates | tools/app_deploy_transport.py:67 | the candidate list is empty exactly when no run shown is above the watermark |
| DeployProtocol.OneCandidate | tools/app_deploy_transport.py:67-78 | a run that stands alone above the watermark is the one candidate |
| DeployProtocol.TheCandidate | tools/app_deploy_transport.py:67-78 | a single candidate is a run that stands alone above the watermark |
| DeployProtocol.ReadyIsLoneAndFinished | tools/app_deploy_transport.py:66-83 | a poll looks at a run exactly when that run stands alone above the watermark and has completed |
| DeployProtocol.PendingIsNoneOrUnfinished | tools/app_deploy_transport.py:66-82 | a poll goes on exactly when it shows no run above the watermark, or one that has not completed |
| DeployProtocol.PollsReturnExactly | tools/app_deploy_transport.py:65-103 | the polls return a run exactly when one within the attempts shows it alone, completed, successful, named in its logs and with a canonical URL, and all before were undecided |
| DeployProtocol.DispatchReturnsExactly | tools/app_deploy_transport.py:44-103 | bounded completeness of the whole dispatch: the exact condition on request, baseline, POST and polls under which a given run is returned |
| DeployProtocol.LogsAreOfASuccess | tools/app_deploy_transport.py:78-89 | logs are fetched of no run but the one the poll just before has shown alone, completed and successful |
| DeployProtocol.AttemptsFillTimeout | tools/app_deploy_transport.py:200-204 | the ceiling division: sleeping between all attempts lies in [timeout - interval, timeout) |
| DeployProtocol.DispatchSleeps | tools/app_deploy_transport.py:65-103 | every dispatch sleeps less often than there are attempts, and a timed-out one exactly one time less |
| DeployProtocol.SleptTime | tools/app_deploy_transport.py:200-204 | however it ends, a dispatch has slept less than the timeout; if it timed out, at least the timeout less one interval |
| DeployOutcomes.RunsAreListed | tools/app_deploy_transport.py:106-112 | a run list is read exactly from an object whose "workflow_runs" is an array of objects |
| DeployOutcomes.ShownIsListed | tools/app_deploy_transport.py:66-67 | a poll shows a list exactly if its body holds it and every run in it has a positive integer id |
| DeployOutcomes.BaselineIsNewest | tools/app_deploy_transport.py:56-57 | the baseline is readable exactly if every run listed has a positive integer id, and the watermark is the largest of them, 0 for none |
| DeployOutcomes.StopsExactly | tools/app_deploy_transport.py:66-72 | a poll fails at once exactly for a failed call, no run list, a run without an id, or two and more new runs, and then reports their ids in increasing order |
| DeployOutcomes.DecisionLeadsTo | tools/app_deploy_transport.py:66-99 | each outcome of a decisive poll, in terms of the JSON and the logs the remote sent |
| DeployOutcomes.PollsEndExactly | tools/app_deploy_transport.py:65-103 | the polls end in an outcome exactly when the first decisive poll in time leads to it, or none decides and it is the timeout |
| DeployOutcomes.DispatchEndsExactly | tools/app_deploy_transport.py:44-103 | every outcome of a whole dispatch, and exactly when: request refused, baseline unreadable, POST failed, or what the polls lead to |
| DeployOutcomes.FailureIsReported | tools/app_deploy_transport.py:84-87 | a dispatch reports the conclusion of a run exactly when a poll in time is the first to decide and shows that run alone, completed, and concluded with anything but a success |
| DeployOutcomes.MissingNameIsReported | tools/app_deploy_transport.py:88-93 | it reports logs without the request id exactly when that run succeeded and its logs were fetched and do not name the request |
| DeployOutcomes.MissingUrlIsReported | tools/app_deploy_transport.py:94-98 | it reports a missing URL exactly when that run succeeded and is named in its logs, but its URL is no text with the canonical prefix |
| DeployOutcomes.FaultIsReported | tools/app_deploy_transport.py:44-103 | it ends with a failed call exactly if the baseline, the POST, the first decisive poll or the logs of its successful run failed |
| DeployOutcomes.LogsAreFetchedExactly | tools/app_deploy_transport.py:84-89 | logs of a run are fetched exactly when the first decisive poll shows it alone, completed and successful |
| DeployAttribution.PageShowsNewestId | tools/app_deploy_transport.py:56-57 | the largest id on the page of thirty is the largest id of all runs |
| DeployAttribution.CandidatesAreNewRuns | tools/app_deploy_transport.py:66-67 | the candidates on a page are the newest of the runs created since the baseline and nothing else |
| DeployAttribution.SortedCandidateIds | tools/app_deploy_transport.py:69 | the sorted ids in the ambiguity error are those runs in order of creation |
| DeployAttribution.PageIsJudgedAsWhole | tools/app_deploy_transport.py:66-82 | one truncated page is judged as the whole history would be: nothing new, one new run, or ambiguity exactly from two on |
| DeployAttribution.BaselineIsNewestId | tools/app_deploy_transport.py:56-57 | the watermark is the id of the newest run there is, and 0 if there is none |
| DeployAttribution.ReturnsExactlyTheLoneRun | tools/app_deploy_transport.py:44-103 | against a living receiver: a run is returned exactly when some poll in time is the first to show the only new run finished, with its success, its logs and its URL |
| DeployAttribution.AmbiguityEndsDispatch | tools/app_deploy_transport.py:68-72 | a second run created before the first is decided ends the dispatch with an error that lists the newest new runs, oldest first |
| DeployAttribution.AmbiguousExactly | tools/app_deploy_transport.py:65-72 | the outcome is ambiguous exactly when the POST is taken and some poll in time is the first not to wait, is answered, and shows two or more new runs |
| DeployAttribution.ReturnedRunIsOwn | tools/app_deploy_transport.py:56-99 | whatever other dispatchers do, a returned run is the run this request caused, created after the baseline, successful, and at one poll the only new run |
| DeployAttribution.ReturnedRunFollowsPost | tools/app_deploy_transport.py:59-99 | if this request had no run yet when the POST arrived, the returned run is newer than every run of that moment |
| DeployAttribution.QuietWorld | tools/app_deploy_transport.py:34-35 | the assumptions about receiver, pages and logs can be met together |
| DeployAttribution.UndisturbedDispatchReturns | tools/app_deploy_transport.py:44-99 | every accepted request can succeed: there is a remote under which its run is returned at the first poll |
| DeployAttribution.DispatchersNeverShareARun | tools/app_deploy_transport.py:44-103 | two concurrent dispatchers never return one run for two different requests |
| DecimalWire.WireIsStripped | common/audit/decimal_scalar.py:32-37 | trimming the printed text is trimming the zeros of its fraction, and dropping the sign of a zero |
| DecimalWire.FixedIsSame | common/audit/decimal_scalar.py:32 | fixed-point notation, read as digits around a point, denotes the decimal it was printed from |
| DecimalWire.StrippedIsSame | common/audit/decimal_scalar.py:33-36 | trimming keeps the number |
| DecimalWire.ParseOfParts | common/audit/decimal_scalar.py:90-96 | the parser reads every canonical text as the decimal it is written for |
| DecimalWire.CanonicalUnique | common/audit/decimal_scalar.py:29-37 | two canonical texts of equal numbers are the same text |
| DecimalWire.NonFiniteRejected | common/audit/decimal_scalar.py:90-96 | the text of an infinity or a NaN, with or without payload, is read as the value it was printed from, and refused as non-finite |
| DecimalWire.RoundTrip | common/audit/decimal_scalar.py:29-37 | parsing the wire text succeeds exactly for finite decimals, and gives an equal one |
| DecimalWire.WireIsCanonical | common/audit/decimal_scalar.py:29-37 | two finite decimals have the same wire text exactly when they are numerically equal |
| DecimalWire.WireImage | common/audit/decimal_scalar.py:29-37 | the wire texts are exactly the canonical texts, and printing undoes parsing on them |
| DecimalWire.WholeNumbersKeepZeros | common/audit/decimal_scalar.py:32-37 | with an exponent of 0 or more all digits are printed, the exponent's zeros appended and none stripped |
| DecimalWire.IntegersArePrintedPlainly | common/audit/decimal_scalar.py:60-65 | an integer is coerced without loss, and its wire text is its numeral |
| DecimalSyntax.ParseExactly | common/audit/decimal_scalar.py:78-96 | of every text: accepted exactly as the numeral it spells (sign, digits around an optional point, exponent with sign) once white space around it and underscores are gone; non-finite exactly if it names an infinity or a NaN; no decimal exactly otherwise |
| DecimalSyntax.SpelledIsRead | common/audit/decimal_scalar.py:90-91 | a numeral is read with its sign, the value of its digits as coefficient, and its exponent less the digits behind the point |
| DecimalSyntax.OnlyStringsAreParsed | common/audit/decimal_scalar.py:78-89 | anything but a string is refused as a float is |
| DecimalSyntax.CoercedExactly | common/audit/decimal_scalar.py:40-65 | construction accepts exactly decimals, finite where required, as they are, and integers as the decimal of that number |
| GithubOutput.FreshDelimiter | common/runtime/github_api.py:51-53 | the retry loop ends after at most one draw more than the value has lines, with a delimiter that is none of them |
| GithubOutput.KeyExactly | common/runtime/github_api.py:16 | a key is valid exactly if it is a letter or an underscore followed by letters, underscores and digits |
| GithubOutput.OutputFile.WriteGithubOutput | common/runtime/github_api.py:30-56 | without an output file nothing happens; the first invalid key is reported and the file left alone; otherwise the items are appended so that a reader finds them bound on top of what the file held, and no delimiter is drawn for values of one line |
| GithubOutput.DelimiterFacts | common/runtime/github_api.py:51-53 | a delimiter absent from `splitlines` is absent from the "\n"-separated lines, so it cannot close the heredoc early |
| Text.SpacesInAscii | common/runtime/github_api.py:52 | within ASCII, the characters `splitlines` breaks at, and those `strip` takes off besides |
| Text.SplitLinesExactly | common/runtime/github_api.py:52 | `splitlines` gives exactly the lines without breaks that, with a break behind each but perhaps the last, make up the text |
| GithubOutput.ShortFormExactly | common/runtime/github_api.py:46-56 | an item is written as key and value on one line exactly if its value holds neither a newline nor a carriage return |
| GithubOutput.ReadEntry | common/runtime/github_api.py:46-56 | reading one written item binds its key to exactly its value, on one line or as a heredoc |
| GithubOutput.ReadEntries | common/runtime/github_api.py:46-56 | reading all that was written binds all the items, in order |
| GithubOutput.ReadPrefix | common/runtime/github_api.py:45 | a finished, readable file is read to its end before anything appended to it |
| GithubOutput.AppendIsRead | common/runtime/github_api.py:45-56 | appending to a finished, readable file adds exactly the written items to what a reader sees |
| GithubOutput.BindIsDictionary | common/runtime/github_api.py:46 | with distinct keys the recovered bindings are the dictionary that was passed |
| GithubOutput.BindIsOverride | common/runtime/github_api.py:45-56 | later items override earlier bindings and leave the others |
| GithubOutput.TwoWritesAreRead | common/runtime/github_api.py:30-56 | round trip over two calls: the first dictionary overridden by the second |
| GithubPages.Client.ListWorkflowRuns | common/runtime/github_api.py:112-127 | the page loop returns what the pages contribute up to the first short one, and makes that many requests |
| GithubPages.PagesAreListed | common/runtime/github_api.py:112-127 | whatever the server answers: the pages up to the first that is short or no list, or all in the bound, and one request for each |
| GithubPages.StableListIsReturned | common/runtime/github_api.py:112-127 | over a list that stays: its first 100 * max_pages items in order, with min(max_pages, length / 100 + 1) requests |
| GithubPages.GrowthLosesNothing | common/runtime/github_api.py:116-126 | runs that arrive between two requests may repeat entries but never make a run of the first snapshot go missing, as long as the list has at most 100 * max_pages entries |
| ManagedRegion.EnvMarkersAreLines | tools/generate_env_reference.py:68-69 | the markers in use are single, non-empty lines |
| ManagedRegion.FrontendSection | tools/generate_env_reference.py:196-205 | the search for the hand-written section: from the comment lines directly above the first line that names it |
| ManagedRegion.RenderEnvExample | tools/generate_env_reference.py:182-208 | all branches of the rewriter give the kept head, the managed region and the kept tail |
| ManagedRegion.FrontendIsKept | tools/generate_env_reference.py:196-207 | the first render of a file without both markers: the region, a blank line, and the text from the comment lines directly above the first line that names the frontend section to the end, but for newlines at either end |
| ManagedRegion.NothingIsKept | tools/generate_env_reference.py:193-208 | without such a line, the region alone, as for a missing file |
| ManagedRegion.CloseAt | tools/generate_env_reference.py:185-189 | the END marker found again is the one just written, unless the block holds one, and then text is left over |
| ManagedRegion.FrameAgain | tools/generate_env_reference.py:187-190 | re-reading a rendered text finds the same head always, and the same tail exactly if the block holds no END marker |
| ManagedRegion.Regeneration | tools/generate_env_reference.py:182-208 | for every existing text and all blocks, rendering twice is rendering once with the second block, exactly when the first holds no END marker |
| ManagedRegion.OutsideIsPreserved | tools/generate_env_reference.py:187-190 | with END behind BEGIN the text outside the markers is kept character for character |
| ManagedRegion.UnclosedRegionSwallowsTheRest | tools/generate_env_reference.py:187-190 | with END only in front of BEGIN nothing behind BEGIN is kept |
| ManagedRegion.TailIsKeptExactly | tools/generate_env_reference.py:187-190 | of any text with both markers all but a region closed by END is kept exactly when END occurs behind the first BEGIN; otherwise all that follows BEGIN is dropped |
| ManagedRegion.LineIsRead | tools/generate_env_reference.py:309 | reading a file keeps its lines and turns each line break, of whatever kind, into a newline |
| ManagedRegion.CheckAfterWrite | tools/generate_env_reference.py:309-318 | right after a write, the comparison of `.env.example` reports no drift exactly when the block holds neither an END marker nor a carriage return |
| ManagedRegion.WholeCheckAfterWrite | tools/generate_env_reference.py:309-350 | right after a write, the whole check over the three files passes exactly when, besides, neither the table nor the manifest holds a carriage return |
| Sorting.SortIsStable | tools/generate_env_reference.py:213 | `sorted` gives an ordered permutation in which equal keys keep their order |
| Sorting.SortInsensitive | tools/generate_env_reference.py:273 | two lists sort to the same list exactly when they hold the same elements of each key in the same order |
| Sorting.GroupBy | tools/generate_env_reference.py:160-162 | filling the dictionary: its keys in order of first appearance, and under each key its elements in list order |
| Sorting.GroupedIsSorted | tools/generate_env_reference.py:165-167 | sorting the groups and then every group is one stable sort of the whole list: groups are contiguous and in order |
| EnvRender.GroupSortKeyInjective | tools/generate_env_reference.py:152-155 | two groups have the same sort key exactly when they are the same group |
| Ordering.StrLeExactly | tools/generate_env_reference.py:167 | strings are ordered by the first character in which they differ, and before their extensions |
| EnvRender.GroupsStandInOrder | tools/generate_env_reference.py:152-155 | known groups come in the order of their list, before all others, which come in the order of their names |
| EnvRender.RowOrderIsLexicographic | tools/generate_env_reference.py:213 | the table's key, a pair of group sort key and field key, orders as group first and key second |
| EnvRender.RenderBackendBlock | tools/generate_env_reference.py:158-179 | the loops print the sorted groups with their sorted fields and no blank line at the end |
| EnvBlock.BlockIsLaidOut | tools/generate_env_reference.py:158-179 | the block is the groups in order, each with its banner and its fields by key: comment (description or key, and the vault mark), assignment, aliases; one blank line between groups, none at the end |
| Reading.QuietTexts | tools/generate_env_reference.py:164-179 | what stray lines show is never made up for elsewhere: appended texts are read as their first lines are exactly when no further line shows anything |
| EnvRender.BlockFirstLines | tools/generate_env_reference.py:158-179 | the first lines of the block bind the fields in the order of the table, and no other line binds anything exactly when every comment, value and banner is quiet |
| EnvRender.ReadIsReadable | tools/generate_env_reference.py:171-174 | whatever a reader finds has a key without "=" or newline that does not start a comment, and a value of one line |
| EnvRender.BlockIsReadBack | tools/generate_env_reference.py:158-179 | for any fields: the block binds each key and alias to its value, in table order and nothing else, exactly when every key can be read, every value is one line, and no comment and no group banner runs on into a line that is neither white space nor a comment |
| EnvRender.MultilineDescriptionLeaks | tools/generate_env_reference.py:168-171 | a concrete description whose second line binds a key |
| EnvRender.MultilineValueLeaks | tools/generate_env_reference.py:172-174 | a concrete value whose second line binds a key |
| EnvRender.MultilineGroupLeaks | tools/generate_env_reference.py:166 | a concrete group name whose second line binds a key |
| EnvDocs.RenderReferenceDoc | tools/generate_env_reference.py:211-246 | the loops print the preamble, the row of each sorted field followed by its alias rows, and a final newline |
| EnvDocs.PreambleIsPlain | tools/generate_env_reference.py:214-227 | the fixed lines the table page starts with document no key |
| EnvDocs.DocListsKeys | tools/generate_env_reference.py:211-246 | for any fields: the code spans in the first cells of the table's rows are the keys and aliases of the sorted fields, in order and nothing else, exactly when every key is non-empty, one line, and without a backtick or a bare pipe, and no further line of a row has a code span in its first cell |
| EnvDocs.DocPageListsKeys | tools/generate_env_reference.py:211-246 | the same law of the page as it is printed, with its own first lines: an exact condition on the fields alone |
| EnvDocs.OneLineFieldsAreShown | tools/generate_env_reference.py:228-244 | with such keys, one-line defaults, values and groups suffice for that, whatever the description holds |
| EnvDocs.BlockListsKeys | tools/generate_env_reference.py:158-179 | for any fields: the block lists the keys and aliases of the sorted fields, in order and nothing else, exactly when every key can be read and no further line of a comment, value or banner binds anything |
| EnvDocs.RenderersListSameKeys | tools/generate_env_reference.py:158-284 | the manifest lists each key and alias as often as the fields do; the table and the block each list the same ones, in one order, exactly under their own condition on the fields |
| EnvDocs.BlockFollowsClasses | tools/generate_env_reference.py:158-179 | the block depends on the field list only through the order of fields with equal group and key |
| EnvDocs.OrderInsensitive | tools/generate_env_reference.py:158-284 | permuting fields with distinct keys changes neither the block nor the table nor the manifest |
| EnvDocs.FieldRowHasSixCells | tools/generate_env_reference.py:229-238 | a field's row has its six cells exactly when key, default, value and group hold no bare pipe; the description may |
| EnvRows.TableIsLaidOut | tools/generate_env_reference.py:211-246 | the table is its first lines, the rows of the fields in the order of group and key, and a final newline |
| EnvRows.FieldRowTells | tools/generate_env_reference.py:228-238 | what a reader of a field's six cells finds: key, default if there is one, example only where it differs, vault mark, group, and the description with pipes escaped and newlines as spaces |
| EnvRows.ValueIsTold | tools/generate_env_reference.py:231-233 | a row tells the value of its field exactly unless an empty value stands beside a default |
| EnvRows.AliasRowTells | tools/generate_env_reference.py:241-244 | each alias has a row of its own behind its field's, with the field's vault mark and group, that names the field |
| EnvRows.ManifestTells | tools/generate_env_reference.py:249-284 | the manifest has one entry for each field, stably sorted by key, with its name, key, aliases, group, vault flag and default flag |
| EnvDocs.EnvFileRegeneration | tools/generate_env_reference.py:182-208 | regenerating the env file forgets the previous fields exactly when no line of theirs shows the END marker |
| EnvDocs.EndMarkerInDescriptionStays | tools/generate_env_reference.py:168-190 | a concrete field, with the END marker as its description, that the next regeneration of the env file does not forget |
| ImageRetention.NormalizeLiveShas | common/runtime/ghcr_retention.py:74-83 | the loop collects every valid live SHA and its first seven characters |
| ImageRetention.LookupIsPairwise | common/runtime/ghcr_retention.py:74-90 | the set lookup agrees with comparing the first seven characters with every live SHA in turn |
| ImageRetention.SelectRetentionDecisions | common/runtime/ghcr_retention.py:93-141 | the classifying loop gives one decision per version with an id, in listing order |
| ImageRetention.SelectedIsStale | common/runtime/ghcr_retention.py:93-141 | a version is selected for deletion exactly if it has an id and a SHA tag, no release tag, no tag that shares seven characters with a live SHA, and a date before the window |
| ImageRetention.ReasonIsTrue | common/runtime/ghcr_retention.py:113-139 | each decision gives the one reason of six that applies to the version's tags, the live SHAs and its date |
| ImageRetention.ReasonIsActedOn | common/runtime/ghcr_retention.py:116-140 | only a stale version is deleted, only one without a readable date skipped, all others kept |
| ImageRetention.DecisionNamesVersion | common/runtime/ghcr_retention.py:109-114 | a version gets a decision exactly if its id is not blank, under that id and with its tags that are not blank |
| ImageRetention.StaleIsMonotone | common/runtime/ghcr_retention.py:93-141 | more live SHAs, more retention days or an earlier clock never add a deletion |
| ImagePruning.Registry.DeleteSelected | common/runtime/ghcr_retention.py:226-251 | the pass over the decisions deletes the selected versions in order up to the first failure, and a dry run deletes none but counts the same |
| ImagePruning.Registry.PruneImage | common/runtime/ghcr_retention.py:215-251 | one image: list, classify, delete |
| ImagePruning.Registry.PruneImages | common/runtime/ghcr_retention.py:215-251 | the image loop, with the clock read anew for every image, leaves the registry and the calls as prescribed and returns the count |
| ImagePruning.Registry.PruneShaImages | common/runtime/ghcr_retention.py:199-256 | the whole run, with both refusals, against any clock, leaves the registry and the calls as prescribed and returns the count |
| ImagePruning.DecisionsAreDoomed | common/runtime/ghcr_retention.py:221-228 | the ids the loop deletes are those of the selected versions, in listing order |
| ImagePruning.DeleteAllCalls | common/runtime/ghcr_retention.py:175-196 | the DELETE calls of one image are a prefix, in order, of its selected versions, and all of them on success |
| ImagePruning.DeleteAllShrinks | common/runtime/ghcr_retention.py:226-242 | only versions with a selected id disappear, and on success none of them is left |
| ImagePruning.KeptIsUnselected | common/runtime/ghcr_retention.py:226-242 | where the ids of a listing are distinct, what is kept is exactly what is not selected |
| ImagePruning.RunIsSafe | common/runtime/ghcr_retention.py:215-256 | image by image, whatever fails and however the choice moves between two bounds: nothing goes but a version with an id the wider choice selects, other images are left alone, and success leaves nothing the narrower choice selects |
| ImagePruning.ScheduleBetween | common/runtime/ghcr_retention.py:102-105 | while the clock moves between two times, what is selected lies between what is stale at the one and at the other |
| ImagePruning.RetryIsSafe | common/runtime/ghcr_retention.py:199-256 | the same safety over any number of runs, while the clock goes on |
| ImagePruning.FreshSurvives | common/runtime/ghcr_retention.py:199-256 | with distinct version ids, a version that is not stale when the clock stops survives every run of any number of them, whatever fails |
| ImagePruning.RunFollowsPlan | common/runtime/ghcr_retention.py:213-256 | the DELETE calls of a run over all images are a prefix, in order, of its plan for the clock it runs by; on success the whole plan, and the count is its length |
| ImagePruning.RetryConverges | common/runtime/ghcr_retention.py:199-256 | at one time, after any number of failed runs, a successful one leaves every image as one uninterrupted run would have |
| ImagePruning.SettledAfterSuccess | common/runtime/ghcr_retention.py:199-256 | as long as the clock has not passed the start of a successful run, another selects and deletes nothing |
| ImagePruning.DryRunIsPassive | common/runtime/ghcr_retention.py:228-234 | a dry run changes nothing, makes no DELETE, and counts what is selected under every name given as the clock goes by |
| ImagePruning.DryRunCount | common/runtime/ghcr_retention.py:213-256 | at one time, a dry run plans as many deletions as a real run makes exactly when no image with selected versions is named twice, and never fewer |
| ImagePruning.DryRunReports | common/runtime/ghcr_retention.py:199-256 | with the clock standing still, a finished dry run reports at least the count of a finished real run, and the same exactly when no image with selected versions is named twice |
| ImagePruning.ImageNamedTwice | common/runtime/ghcr_retention.py:213-234 | a concrete image with one stale version, named twice: the real run reports one deletion, the dry run two |
| ImagePruning.RefusesExactly | common/runtime/ghcr_retention.py:208-211 | a run is refused exactly for less than a day of retention, or else for no text among the live SHAs that is 7 to 40 hexadecimal digits; dry or real, a refused run calls nothing and changes nothing |
| ImagePruning.StopsAtFirstFault | common/runtime/ghcr_retention.py:213-256 | a run, dry or real, ends at the first call that fails, and fails only then |
| ScoreRatchet.RaiseOnlyMerge | tools/migrate_proof_index_storage.py:45-65 | the loop, in any order of the entries, gives the merge AC by AC |
| ScoreRatchet.Round6IsNearest | tools/migrate_proof_index_storage.py:60 | a score is rounded to the nearest millionth, from halfway to the even one |
| ScoreRatchet.MergeIsJoin | tools/migrate_proof_index_storage.py:45-65 | on grid floors: keys are the union, every score is the maximum of the floor and the rounded incoming score, a record whose incoming score is not higher is untouched, and a raised one takes the incoming metric and provenance |
| ScoreRatchet.FloorDropsOffGrid | tools/migrate_proof_index_storage.py:57-61 | a floor is safe from every incoming score exactly unless it lies strictly inside the lower half of its grid cell |
| ScoreRatchet.RaiseIsRounded | tools/migrate_proof_index_storage.py:57-61 | a grid floor rises exactly when the incoming score is still higher once rounded |
| ScoreRatchet.ReplacedWithoutRaise | tools/migrate_proof_index_storage.py:48-53 | a concrete score that is strictly higher, raises nothing and still replaces the provenance |
| ScoreRatchet.FoldIsMaximum | tools/migrate_proof_index_storage.py:45-65 | after any number of folds a floor is the highest of all scores that competed for it |
| ScoreRatchet.FoldOrderIrrelevant | tools/migrate_proof_index_storage.py:45-65 | the order and number of times baselines are folded in do not matter for the floors |
| ScoreRatchet.MergeIdempotent | tools/migrate_proof_index_storage.py:48-53 | merging the same baseline again changes nothing, not even metric or provenance |
| ScoreRatchet.Repository.MigrateBaseline | tools/migrate_proof_index_storage.py:68-86 | the migration, cut short before the write, before the unlink or not at all, leaves the disk as prescribed |
| ScoreRatchet.MigrationArrives | tools/migrate_proof_index_storage.py:68-86 | after a run that wrote, the JSONL file holds exactly the ACs of both files, each with the higher of its two rounded scores and the metric and provenance of the record that gave it, the old one on a tie; the legacy file goes last, and before the write nothing has changed |
| ScoreRatchet.NormalTwice | common/testing/jsonl_baseline.py:12-24 | normalising a baseline again changes nothing |
| ScoreRatchet.StopsAreHarmless | tools/migrate_proof_index_storage.py:68-86 | a complete run gives the same result after an interrupted one as without it |
| ScoreRatchet.CrashTolerance | tools/migrate_proof_index_storage.py:68-86 | any series of interrupted and repeated runs with one complete run among them ends as that one run alone |
| ApiReference.CollectEndpoints | common/platform/generate_api_reference.py:101-107 | the nested loops list the operations by path and, within a path, by method |
| ApiReference.RenderOpenapiReference | common/platform/generate_api_reference.py:98-161 | the whole page, from grouping to the last line |
| ApiReference.CountsAddUp | common/platform/generate_api_reference.py:119-130 | the counts printed per group add up to the number of endpoints printed on top |
| ApiReference.RowIsRead | common/platform/generate_api_reference.py:144-158 | a reader of cells finds the code spans of a row's first two cells and the whole line |
| ApiReference.PageIsJoined | common/platform/generate_api_reference.py:161 | cutting the page's end and adding a newline changes nothing: the page is its lines, joined |
| ApiReference.PageIsRead | common/platform/generate_api_reference.py:129-161 | what a reader finds on the page behind the heading: stray rows of the front matter, then what the tables show |
| ApiReference.PlainPageIsRead | common/platform/generate_api_reference.py:132-161 | where code spans in cells can show all paths, the page shows at least as many rows as there are endpoints, exactly as many when nothing around them can be taken for a row, and then the endpoints' own rows, sorted stably by tag |
| ApiReference.PageShowsEveryEndpoint | common/platform/generate_api_reference.py:98-161 | on the printed page, read cell by cell: each (path, method) operation is shown by exactly one row, in its own words, and nothing else is, exactly when every path is non-empty, one line, and without a backtick or a bare pipe, and neither the tags nor the front matter hold a line that reads as a row |
| ApiReference.OneLineTagsAreQuiet | common/platform/generate_api_reference.py:129-136 | one-line tags hold no such line, nor does front matter that does not imitate the heading |
| ApiReference.SpanTextsAreShown | common/platform/generate_api_reference.py:98-161 | with one-line tags the page shows each operation once exactly when every path is non-empty, one line, and without a backtick or a bare pipe |
| ApiReference.TwoLineTagFakesARow | common/platform/generate_api_reference.py:134-137 | a concrete two-line tag that puts a row on the page which is no operation's, whatever else the page starts with |
| ApiReference.EveryOperationOnce | common/platform/generate_api_reference.py:101-107 | with distinct paths every non-empty operation is exactly one endpoint, and there are no others |
| ApiReference.EscapeTableIsSafe | common/platform/generate_api_reference.py:94-95 | an escaped text holds no bare pipe and no newline, wherever its white space is cut |
| ApiReference.EndpointRowIsWellFormed | common/platform/generate_api_reference.py:142-158 | a row has seven cells exactly when its path holds no bare pipe, and is one line exactly when its path is |
| ApiReference.PipeInPathSplitsItsCell | common/platform/generate_api_reference.py:149 | a concrete path whose row does not have seven cells |
| ApiReference.PipedPathIsNotShown | common/platform/generate_api_reference.py:149 | a concrete path with a bare pipe that a reader of cells does not find, whatever else the page starts with |
| ApiReference.GroupRowHasTwoCells | common/platform/generate_api_reference.py:126-130 | a row of the group table has its two cells exactly when the tag holds no bare pipe |
| ApiRows.EndpointRowTells | common/platform/generate_api_reference.py:142-158 | what a reader of a row's seven cells finds: method, path, yes or no for authorisation, then parameters, request, responses and summary with pipes escaped, newlines as spaces and no white space around |
| ApiRows.NamesAreCapitals | common/platform/generate_api_reference.py:23 | the methods and their order, each printed in capitals |
| ApiRows.TagIsFirst | common/platform/generate_api_reference.py:106 | an endpoint stands under the first of its tags, or under "untagged" |
| ApiRows.EndpointsInOrder | common/platform/generate_api_reference.py:101-107 | endpoints are listed by path, and those of one path in the order of the methods |
| ApiRows.PageIsLaidOut | common/platform/generate_api_reference.py:98-161 | the page line by line: the number of endpoints, a line per tag with the number of its endpoints, and under one heading a table per tag in the order of the tags |
| Tables.RowCells | common/platform/generate_api_reference.py:144-158 | a row shows exactly its cells if and only if no cell text holds a bare pipe |

## Left out

- HTTP, zip archives, subprocesses, git, argparse, environment variables and the file system: calls become arbitrary replies, a trace of calls, or a character sequence.
- The text of error messages and of progress output: an error is a value that names the case and carries the ids it reports.
- `urlparse`: an arbitrary function from texts to URL components, or to an exception.
- Regular expressions: plain predicates over ASCII on the whole string; that `$` also matches before a final newline (the SHA and release patterns of the retention script) is not modelled.
- The deploy SDK (`from_dict`, `to_dict`, `request_id`): arbitrary deterministic functions.
- JSON text encoding and decoding, including the manifest's JSON text: the manifest is its list of entries.
- Byte encodings: texts, logs and request ids are sequences of characters.
- Binary floating point: scores are real numbers, rounded half to even at six decimals. A NaN score, which Python's JSON reader accepts and which compares as neither higher nor lower, is not modelled; it would replace any floor.
- Unicode digits, the limits on the exponent of Python's `Decimal`, and integers of unlimited size turned into text: digits are ASCII and exponents unbounded.
- ISO timestamps: a creation time is an optional number of seconds.
- A failing page request: the paginator's exception ends the call without a result.
- The legacy baseline with an "acs" entry that is not a mapping of records, and unreadable JSONL files: both raise before anything is written.
- Atomicity: a write or an unlink happens completely or not at all.
- The introductory lines of the API page, with its title and version, and `GROUP_ORDER`: parameters, for which the laws hold whatever they are.
- How Markdown renders the text of a code span (one space cut at either end, `\|` shown as a pipe): spans are compared as printed.
- The schema, parameter and response texts of an operation (`_schema_name` and its callers): arbitrary texts, so the row laws hold for whatever those helpers print.
- A carriage return in an API path, which would also end a line in Markdown, and Windows newline translation when writing.
- `request_from_mapping`'s callers besides the transport, the command-line `main` functions, and the `--check` of the API page, a plain comparison.
- The ledger, extraction, audit, identity and observability contracts: prose about code that is not part of this model.
