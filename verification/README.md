# Verified models of the acceptance and documentation tooling

This project models the algorithms and protocols that the repository's own
scripts and tests spell out in full, and proves what they are for. Each module
follows one source file.

| module | what it models |
|---|---|
| `GreedyCover`, `OptionPairs`, `OptionCounts` | the greedy pairwise covering array over arbitrary axes, and its nine-axis instance |
| `Sequences`, `Ordering`, `CycleFinder` | the depth-first cycle search over the import graph |
| `Publication` | publishing a documentation site with rollback, under interruption and another writer |
| `Extraction` | the two-pass archive extraction |
| `StdioFraming` | the newline-framed JSON-RPC client (stdio section of "Transports" of the MCP specification 2025-03-26) |
| `PatchStack` | unwinding, composing, reversing and recomposing activation patches |
| `Options`, `Text`, `Replacing`, `Cutting`, `ContractNormal` | searching, replacing and splitting strings, and contract normalisation |
| `TagManifest` | taking a signed tag apart |
| `Maturity` | the maturity classifier of a PEP 440 version |
| `Requirements`, `Declarations` | project names, requirement strings and the merge of declarations |
| `Anchors` | resolution of handbook anchors |
| `EvidenceLedger`, `Campaign` | the case ledger, the campaign loop and the exit verdict |
| `NearestRank`, `PresetBenchmark` | the nearest-rank percentile and the benchmark loop around it |

How the environment appears:

- Interruption, I/O failure, another writer, a deadline, the size of each chunk
  read and the success of a write are nondeterministic choices, so every
  contract holds for all of them. An `undisturbed` world or pipe has no failure and
  no other writer; a pipe with a `pace` also fixes the size of the chunks.
- `World.faults` counts the file operations that could have succeeded and did not
  complete, whether or not they had their effect.
- `World.history` records the state after every atomic file operation and after
  every move of the other writer; "at any moment" means at every entry of it.
  The other writer may create `output` whenever nothing is there, and the name
  that `mkdtemp` draws is a parameter, fresh and different from `output`.
- A patch is a pair of partial functions, one the inverse of the other.
- JSON, tar and HTML parsing have happened: the models start from documents,
  members and keys. `decode` of `StdioClient` is any function from a line to an id.
- Bytes of tag payloads are characters; letter case is that of ASCII.

Where the code and what is said about it differ:

- `publish` assumes that the published site is a directory. If a file is at
  `output`, the new site takes its place, `rmtree` then refuses the file in the
  backup, and the call raises although the site is published
  (`Publication.PublishOverFile`); `Publication.Publish` gives the exact condition.
- `StdioClient`: a frame within the limit can be refused, when the read that
  completes it takes in enough of what follows to pass the limit
  (`StdioFraming.RefuseShortLine`). A line that ends at least one chunk before the
  limit never is; for a pipe with a pace the condition is exact
  (`StdioFraming.Demands`).
- `StdioClient`: a frame longer than the limit can be returned, by a request
  made after a "frame limit exceeded" error that left exactly that frame in the
  buffer (`StdioFraming.ReturnLongLine`). After such an error without a newline in
  the buffer no request reads anything any more: unless it fails otherwise, it
  reports a closed channel although the channel is open
  (`StdioFraming.CloseOpenChannel`). Neither happens in a run that stops at its
  first failure (`StdioFraming.Converse`).
- `extract_state` checks where a member ends up, not the directories on the way;
  a name that leaves the destination and comes back is extracted and makes a
  directory beside it (`Extraction.ExtractDetour`). `Extraction.CreatesOnlyInside`
  says exactly when nothing is made outside.
- `_normalize_contract` is idempotent on all documents if and only if the
  workspace path is the placeholder itself or cannot come back where text and
  placeholder meet (`ContractNormal.NormalizeIsIdempotent`). An absolute path
  without "<" cannot; one that ends in its only "<" does
  (`ContractNormal.PathEndingInAngle`).
- The controller of the interface matrix keeps a recorded error that is the empty
  string, and then accepts a failed worker (`Campaign.ControllerAccepts`). No
  category of the script is empty, so this does not arise from its own worker
  (`Campaign.Accept`).
- A case whose report cannot be written is decided all the same; the campaign ends
  there, and the report on the disk still shows the case as blocked until the
  worker's last report (`Campaign.Runner.Execute`).
- A base dependency declared twice keeps the later range without an error
  (`Declarations.MergeTwice`).

## Model

| member | source | states |
|---|---|---|
| OptionPairs.CoveringArray | tests/test_acceptance_option_pairs.py:52-63 | the loop ends and its assertion never fails; its selection covers exactly the denominator, each choice has the greatest gain and among the tuples of that gain comes first in the order of the product, gains never rise, no tuple repeats, and the selection is within H(C(k,2)) of every covering subfamily and no shorter than the pairs divided by C(k,2), nor than the number of pairs between any two axes |
| OptionCounts.RestrictedCoveringArray | tests/test_acceptance_option_pairs.py:39-63 | with one restricted pair of axes, closed forms of the returned denominator and feasible count, beside full coverage and the harmonic bound; the selection is no shorter than the product of any two axes that do not restrict each other |
| GreedyCover.GreedyIsNearlyOptimal | tests/test_acceptance_option_pairs.py:56-62 | the greedy selection is at most H(width) times as long as any subfamily of the candidates that covers the same elements |
| GreedyCover.GreedyIsPaidFor | tests/test_acceptance_option_pairs.py:58-62 | every step of the loop is paid for by what any covering subfamily owes |
| GreedyCover.GreedyPicks | tests/test_acceptance_option_pairs.py:58-62 | every pick of a run is the best candidate over what the earlier picks left, with positive gain, and nothing is left at the end |
| GreedyCover.Best | tests/test_acceptance_option_pairs.py:59 | the earliest index of greatest gain |
| OptionPairs.ProductContains | tests/test_acceptance_option_pairs.py:53 | the product holds exactly the tuples that take one value of each axis |
| OptionPairs.PrependEachAt | tests/test_acceptance_option_pairs.py:53 | the last axis varies fastest: position i * n + j holds value i of the first axis with tail j |
| OptionPairs.ProductInOrder | tests/test_acceptance_option_pairs.py:53 | of two tuples the product lists the one first that has the earlier value on the first axis where they differ |
| OptionPairs.CandidatesInOrder | tests/test_acceptance_option_pairs.py:53 | the feasible tuples keep that order |
| OptionPairs.BeforeIsStrict | tests/test_acceptance_option_pairs.py:53 | on axes without repeated values that order is strict |
| OptionPairs.PairsPerTuple | tests/test_acceptance_option_pairs.py:46-48 | a tuple over k axes covers exactly C(k,2) pairs |
| OptionCounts.DenominatorClosedForm | tests/test_acceptance_option_pairs.py:53-55 | the denominator is all cross-axis pairs minus the excluded ones if and only if every value of the two restricted axes has a partner |
| OptionCounts.DenominatorSize | tests/test_acceptance_option_pairs.py:55 | the number of feasible pairs from the axis sizes and the number of allowed combinations |
| OptionCounts.FeasibleCount | tests/test_acceptance_option_pairs.py:53-63 | the feasible count is the number of allowed combinations times the sizes of the free axes |
| OptionCounts.NineAxesFeasible | tests/test_acceptance_option_pairs.py:22-43 | 18560 feasible combinations for the nine axes |
| OptionCounts.NineAxesDenominator | tests/test_acceptance_option_pairs.py:22-55 | 464 feasible pairs for the nine axes |
| OptionCounts.NineAxesNeedFifty | tests/test_acceptance_option_pairs.py:22-63 | no family of fewer than 50 combinations covers the denominator of the nine axes |
| OptionPairs.CoveringIsNotTooShort | tests/test_acceptance_option_pairs.py:46-63 | whatever covers the pairs has at least as many tuples as there are pairs between any two axes |
| CycleFinder.FindCycle | tests/test_application_architecture.py:186-209 | no cycle is reported if and only if no closed walk exists and every dependency is known; a reported cycle is a simple cycle, on the path that leads from the least harmful module always to the least harmful dependency; the order of entry into `visited` is topological; at most one visit per module and per edge, exactly that many when nothing is found |
| CycleFinder.FirstFindingIsUnique | tests/test_application_architecture.py:190-208 | there is only one finding on such a path, so sorting fixes which cycle is reported |
| CycleFinder.Search.Visit | tests/test_application_architecture.py:190-203 | a cleared visit restores the stack and leaves `visited` closed and in topological order; any other leaves a path that took the least unfinished dependency at each step |
| CycleFinder.Search.VisitDependencies | tests/test_application_architecture.py:197-200 | the loop over the dependencies clears all of them or stops at the first finding |
| CycleFinder.TopologicalIsAcyclic | tests/test_application_architecture.py:201-203 | a topological order of all modules excludes closed walks and unknown names |
| CycleFinder.SearchIsBounded | tests/test_application_architecture.py:190-209 | finished and active modules together have at most all edges of the graph |
| Ordering.Sorted | tests/test_application_architecture.py:197 | the strictly increasing listing of a set of names |
| Ordering.PrecedesExactly | tests/test_application_architecture.py:197 | a name comes first if it is a proper prefix or has the lower character where the two first differ |
| Publication.Publish | scripts/build_documentation.py:105-124 | at every moment the new site is at `output`, or it is still staged and every site seen at `output` is there or in the backup; after at most one failure a site is at `output` if one was, whatever the other writer does, and without another writer the directory is the initial or the new one, the backup apart; without failures and other writers it returns if and only if `output` was absent or a directory; a normal return leaves exactly the initial directory with the staged site moved; once the handling clauses complete the backup directory is there if and only if it holds something |
| Publication.PublishOverFile | scripts/build_documentation.py:110-124 | with a file at `output` the call raises, with the new site published and the file in the backup |
| Publication.MoveAside | scripts/build_documentation.py:110-111 | it fails only by a failure, and without another writer leaves `output` free |
| Publication.Replace | scripts/build_documentation.py:109-112 | the try clause keeps both sites at every moment, settles the new one when it completes, and fails only by one failure or because another writer occupied `output` |
| Publication.Unwind | scripts/build_documentation.py:113-118 | the except clause never loses a site; without a failure in it a site is at `output` or nothing is in the backup, and it completes unless another writer interfered |
| Publication.Discard | scripts/build_documentation.py:119-121 | the else clause removes only the backup, and without a failure does so if and only if the backup is a directory or absent |
| Publication.CleanUp | scripts/build_documentation.py:122-124 | the finally clause completes if and only if no step of it fails, and then leaves the backup directory if and only if `previous` exists; it changes nothing else |
| Publication.PublishFromStaging | scripts/build_documentation.py:220-329 | the staging directory is removed whatever happened, unless that removal itself fails, and loses no site; one failure in all leaves a site at `output`; a calm run leaves the initial directory with the new site and without the staging directory |
| Publication.PublishOverSite | scripts/build_documentation.py:105-329 | an undisturbed run over a published directory leaves the new site and nothing else |
| Publication.PutBack | scripts/build_documentation.py:114-115 | moving the backup to `output` keeps every site, even when it replaces what another writer put there |
| Publication.PutInPlace | scripts/build_documentation.py:112 | moving the staged site into place gives the initial directory with the site replaced |
| Publication.InterferenceIsHarmless | scripts/build_documentation.py:114-117 | another writer creating `output` breaks none of the phases |
| Extraction.Extract | scripts/build_documentation.py:135-151 | it fails at once if and only if the destination cannot be created; an unsafe member means that nothing is written; it stops in writing if and only if some member meets a file where a directory is needed or a directory where a file is; everything new was made by a member, and a faithful archive is mirrored exactly |
| Extraction.StopsForGood | scripts/build_documentation.py:143-151 | the members written one after the other fail if and only if a first one of them does |
| Extraction.CreatesOnlyInside | scripts/build_documentation.py:138-151 | a completed extraction creates nothing outside the destination if and only if no member leads through a missing outside directory |
| Extraction.DetourIsSafeButOutside | scripts/build_documentation.py:138-148 | a family of members that pass the check and lead outside |
| Extraction.ExtractDetour | scripts/build_documentation.py:135-151 | extracting such a member succeeds and leaves a directory beside the destination |
| Extraction.PlainStaysInside | scripts/build_documentation.py:143-151 | names without ".." stay inside |
| Extraction.PlainNamesAreSafe | scripts/build_documentation.py:138-142 | an absolute plain name ends up where it says and is refused unless that is inside, a relative one ends up inside |
| Extraction.UpUndoes | scripts/build_documentation.py:138 | a step up takes back the last step, and stays where there is none |
| Extraction.AfterMember | scripts/build_documentation.py:143-151 | one iteration of the writing loop keeps the mirror of the members so far |
| StdioFraming.StdioClient.Request | scripts/accept_container_workloads.py:82-105 | consumed lines are the first lines of the whole stream for every chunking, no byte is lost, ids count up; a line longer than the limit is returned only when it fills the buffer over it; a closed channel means a full buffer without a newline or a stream that ends within the limit without one, and on an undisturbed pipe follows from it; there a line that ends one chunk before the limit is delivered, one that does not fit is refused, and with a pace refusal has an exact condition; reading stops with the read that brings the newline, and a request that times out has no line in its buffer; the number of reads; a reply in lock step exactly when all earlier requests took a line |
| StdioFraming.StdioClient.Fill | scripts/accept_container_workloads.py:91-100 | the read loop stops as soon as a newline is in the buffer, or for the right failure |
| StdioFraming.StdioClient.Receive | scripts/accept_container_workloads.py:88-105 | after the write exactly the first line is taken, or none |
| StdioFraming.Converse | scripts/accept_container_workloads.py:141-165 | in a run that stops at its first failure reply k is line k, no reply is over the limit, and a closed channel is exhausted; on an undisturbed pipe, with a server in lock step and lines that end one chunk before the limit, every request is answered |
| StdioFraming.RefuseShortLine | scripts/accept_container_workloads.py:96-100 | a line within the limit is refused when a read takes in too much after it |
| StdioFraming.ReturnLongLine | scripts/accept_container_workloads.py:99-102 | a line over the limit fails one request and is returned by the next |
| StdioFraming.CloseOpenChannel | scripts/accept_container_workloads.py:96-100 | every request after a line without end reports an open channel as closed |
| StdioFraming.NextLine | scripts/accept_container_workloads.py:101-102 | the next line of the stream is the first line of what is buffered or to come |
| StdioFraming.LinesOfJoined | scripts/accept_container_workloads.py:101-102 | splitting undoes joining |
| StdioFraming.TakeLine | scripts/accept_container_workloads.py:101-102 | cutting the first line off the buffer keeps the account of all bytes |
| PatchStack.Checkout.Compose | tests/test_activation_patches.py:44-60 | composition fails only in the unwinding or in the first pass; the closing reversal, repetition and comparison never fail |
| PatchStack.ComposeFromStage | tests/test_activation_patches.py:44-53 | from a checkout with m patches composition succeeds if and only if none or all of the registrations are there, and then always gives the fully patched tree |
| PatchStack.UnwindsFrom | tests/test_activation_patches.py:44-51 | unwinding reaches the base from every admitted start and stops at an assertion from the others |
| PatchStack.ComposedIsPatch | tests/test_activation_patches.py:55-59 | reversing the whole list is the inverse of applying it |
| ContractNormal.NormalizeIsIdempotent | scripts/contract_fixtures.py:331-355 | normalising is idempotent on all documents if and only if the workspace path is the placeholder or cannot come back across its edges |
| ContractNormal.NormalizeTwice | scripts/contract_fixtures.py:331-355 | under that condition the second normalisation changes nothing |
| ContractNormal.AbsoluteRootNeverReappears | scripts/contract_fixtures.py:354 | absolute paths without "<" meet the condition |
| ContractNormal.PathEndingInAngle | scripts/contract_fixtures.py:354 | every path that ends in its only "<" violates the condition |
| ContractNormal.NormalizeAlike | scripts/contract_fixtures.py:331-355 | two documents from any two workspaces normalise alike if and only if they differ only in masked values and their strings have the same pieces between mentions of workspace and placeholder |
| ContractNormal.SameWorkspace | scripts/contract_fixtures.py:331-355 | in one workspace documents without the placeholder normalise alike if and only if they are equal outside masked values |
| ContractNormal.OtherWorkspace | scripts/contract_fixtures.py:331-355 | in two workspaces they do if and only if each kept string mentions the one workspace where its counterpart mentions the other |
| Cutting.ReplacedAlike | scripts/contract_fixtures.py:354 | two texts become equal by replacing if and only if they have the same pieces |
| Cutting.ReplaceIsInjective | scripts/contract_fixtures.py:354 | texts without the placeholder become equal if and only if they are |
| Cutting.ReplacedMoved | scripts/contract_fixtures.py:354 | with two paths they become equal if and only if one text is the other with the path exchanged |
| ContractNormal.NormalForm | scripts/contract_fixtures.py:331-355 | for every workspace path but the placeholder itself, normalising changes exactly the documents with an unmasked value or a mention of the workspace |
| ContractNormal.WorkspaceDoesNotMatter | scripts/contract_fixtures.py:353-354 | a document built in two workspaces, mentioned only in the gaps of the strings that are kept, normalises to the same contract |
| Replacing.ReplaceIsIdempotent | scripts/contract_fixtures.py:354 | replacing one string by another is idempotent on all texts if and only if they are equal or the first never comes back around the second |
| Replacing.ReplaceRemoves | scripts/contract_fixtures.py:354 | under that condition the replaced string occurs no more |
| TagManifest.SplitInvertsAssemble | scripts/check_release_acceptance.py:96-99 | a payload splits into a header, a manifest and a signature if and only if it is their assembly and they are clean |
| TagManifest.HeaderEnds | scripts/check_release_acceptance.py:96 | the blank line is found at the end of the header if and only if the header has none in it and does not end in a newline |
| TagManifest.ManifestEnds | scripts/check_release_acceptance.py:21-97 | the marker is found at the end of the manifest if and only if it does not occur in the manifest followed by a newline |
| TagManifest.SplitRefuses | scripts/check_release_acceptance.py:98-99 | a payload is refused if and only if it is the assembly of no clean tag |
| Maturity.BetaExactly | scripts/check_pypi_artifacts.py:28-33 | for every PEP 440 version, letters in either case, the classifier is Beta if and only if there is a pre-release or a developmental segment |
| Maturity.SearchFinds | scripts/check_pypi_artifacts.py:21-31 | the search succeeds if and only if some position holds a marker |
| Requirements.NormalizedAlike | scripts/check_dependency_compatibility.py:23-24 | two names normalise alike if and only if they denote one project |
| Requirements.NormalizedNameTwice | scripts/check_dependency_compatibility.py:23-24 | normalising is idempotent |
| Requirements.NormalizedNameIsNormal | scripts/check_dependency_compatibility.py:23-24 | lower case, no "_" or ".", no two hyphens in a row |
| Requirements.NormalizedNameSplits | scripts/check_dependency_compatibility.py:23-24 | a run of separators becomes one hyphen between the lowered parts |
| Requirements.PlainNameIsLowered | scripts/check_dependency_compatibility.py:23-24 | a name without separators is only lowered |
| Requirements.ParseInvertsPrint | scripts/check_dependency_compatibility.py:27-36 | parsing a printed requirement gives the normalised name and its range |
| Requirements.ParseAccepts | scripts/check_dependency_compatibility.py:13-30 | exactly the printed requirements are accepted |
| Declarations.MergeDeclarations | scripts/check_dependency_compatibility.py:62-79 | the merge succeeds if and only if all declarations parse and agree, and lists for every name exactly the extras that declare it and their range; otherwise it names the first declaration that does not parse or does not agree with those before it |
| Declarations.MergeExtra | scripts/check_dependency_compatibility.py:66-79 | one extra extends the inventory by exactly its declarations |
| Declarations.MergeIsOrderFree | scripts/check_dependency_compatibility.py:66-79 | declarations with the same elements agree alike and have one inventory |
| Declarations.EntriesOfPermutation | scripts/check_dependency_compatibility.py:66-72 | permuted extras declare the same requirements |
| Declarations.MergeInBothOrders | scripts/check_dependency_compatibility.py:62-79 | neither success nor the inventory depends on the order of the extras |
| Declarations.MergeTwice | scripts/check_dependency_compatibility.py:62-65 | a base name declared twice keeps the later range |
| Anchors.ResolveIsLongest | scripts/documentation_hooks.py:143-154 | the resolved key is the longest matching one, and there is one if and only if some key matches |
| Anchors.ResolveIsOrderFree | scripts/documentation_hooks.py:146 | the order of the page dictionary does not matter |
| Anchors.ResolveUndoesAnchor | scripts/documentation_hooks.py:143-155 | key and fragment are recovered if and only if no longer key matches |
| Anchors.ResolvePage | scripts/documentation_hooks.py:143-155 | an anchor that is itself a page key resolves to that page, whatever other keys it extends |
| Anchors.MatchesExactly | scripts/documentation_hooks.py:143-150 | a key matches itself and what continues it with a hyphen, and nothing else |
| Anchors.LongerWordIsOther | scripts/documentation_hooks.py:143-150 | a longer word that begins with a key does not resolve to its page |
| EvidenceLedger.LedgerIds | scripts/accept_cross_interface_matrix.py:66-71 | case ids are distinct if and only if no axis repeats a value |
| EvidenceLedger.LedgerSize | scripts/accept_cross_interface_matrix.py:66-71 | one case per combination |
| EvidenceLedger.LedgerContains | scripts/accept_cross_interface_matrix.py:66-71 | there is a case for a combination if and only if each value is on its axis |
| EvidenceLedger.LedgerIsProduct | scripts/accept_cross_interface_matrix.py:66-71 | the cases stand for the combinations in the order of the nested loops, none of them decided |
| EvidenceLedger.IdOfCase | scripts/accept_cross_interface_matrix.py:67 | the id spells out source, output, mode and interface |
| EvidenceLedger.KeysFollowCombinations | scripts/accept_cross_interface_matrix.py:263-327 | two cases are compared if and only if they differ at most in the interface |
| Campaign.Runner.Execute | scripts/accept_cross_interface_matrix.py:257-336 | every decided case passes if and only if its two runs agree with each other and with the earliest stable evidence for its source, output and mode; report k holds exactly the first k + 1 cases decided; the loop ends early exactly at a case that is aborted or whose report cannot be written |
| Campaign.RunCampaign | scripts/accept_cross_interface_matrix.py:257-336 | over a whole campaign from the ledger, ids are those of the ledger, every two passed cases whose combinations share source, output and mode agree, and report k holds the first k + 1 cases decided and the rest of the ledger blocked |
| Campaign.PassedCasesAgree | scripts/accept_cross_interface_matrix.py:326-331 | passed cases with one source, output and mode carry the same evidence |
| Campaign.BaselineStays | scripts/accept_cross_interface_matrix.py:327-330 | the earliest stable evidence of a key stays the same as more cases are run |
| Campaign.BaselinesGrow | scripts/accept_cross_interface_matrix.py:327-330 | the runner's baselines after more cases keep every baseline there was |
| Campaign.Runner.RunCase | scripts/accept_cross_interface_matrix.py:283-336 | one case is decided by its two runs and the baselines, and no baseline that is there changes |
| Campaign.CountsAddUp | scripts/accept_cross_interface_matrix.py:74-75 | the saved counts sum to the number of cases |
| Campaign.ReportCountsCases | scripts/accept_cross_interface_matrix.py:74-75 | each count of a saved report is the number of cases with that status |
| Campaign.ControllerAccepts | scripts/accept_cross_interface_matrix.py:440-454 | the exit code is 0 if and only if every case passed and the worker ended cleanly, or failed after recording an empty error |
| Campaign.ControllerIsSound | scripts/accept_cross_interface_matrix.py:440-454 | without empty errors a zero exit means a clean end and only passed cases |
| Campaign.AllPassedIsAllStable | scripts/accept_cross_interface_matrix.py:326-331 | all cases pass if and only if every case was produced twice alike and cases with one source, output and mode alike |
| Campaign.Work | scripts/accept_cross_interface_matrix.py:404-416 | the worker exits with 0 if and only if it went through the whole ledger, wrote every report, and all cases were stable and agreed |
| Campaign.Accept | scripts/accept_cross_interface_matrix.py:417-454 | the script exits with 0 if and only if nothing stopped the worker, it went through the whole ledger, the server was gone where one was used, every combination was produced twice alike, and combinations that share source, output and mode alike |
| Campaign.RejectDisagreement | scripts/accept_cross_interface_matrix.py:326-454 | two interfaces that disagree on one combination make the script fail |
| NearestRank.PercentileIsBetween | scripts/benchmark_openai_advisor_presets.py:332-334 | at least n*p samples are up to the percentile and fewer than n*p are below it |
| NearestRank.PercentileIsUnique | scripts/benchmark_openai_advisor_presets.py:332-334 | only one value lies there |
| NearestRank.CountIsOfPositions | scripts/benchmark_openai_advisor_presets.py:332-334 | samples are counted by position |
| NearestRank.PercentileMonotone | scripts/benchmark_openai_advisor_presets.py:332-334 | a larger percentile is no smaller a sample |
| NearestRank.PercentileIsOrderFree | scripts/benchmark_openai_advisor_presets.py:332-334 | permuting the samples changes nothing |
| PresetBenchmark.RunBenchmark | scripts/benchmark_openai_advisor_presets.py:353-438 | refused exactly outside the bounds, stopped if and only if some run is interrupted, and otherwise one true report for each preset |
| PresetBenchmark.RunPreset | scripts/benchmark_openai_advisor_presets.py:365-395 | the loop counts and sums exactly the runs of the preset, its median and 95th percentile have half and 95 percent of the latencies up to them and fewer below, and its runs take turns over the profiles: none is asked more than once more often than another, and none is left out |
| PresetBenchmark.ReportAddsUp | scripts/benchmark_openai_advisor_presets.py:396-436 | proposals and errors, and the statuses, account for all runs; safe proposals are valid and timeouts are errors; retries are reported if and only if every run reported them; the median is not above the 95th percentile |
| PresetBenchmark.TotalIsRuns | scripts/benchmark_openai_advisor_presets.py:390 | status counts sum to the number of runs |

## Left out

- NearestRank.PercentileIsBetween: the percentile is an exact fraction; the rounding of `len * percentile` in floating point is not modelled.
- Requirements.NormalizedNameIsNormal: letter case is that of ASCII, which is all the requirement pattern admits.
- EvidenceLedger.LedgerIds: axis values contain no slash, as all declared values do.
- The number 52 of selected cases, which only running the selection gives.
- CycleFinder.FindCycle: the limit Python sets on the depth of recursion, which ends the search with an error on dependency chains of about a thousand modules.
- Symbolic links, permissions and concurrent changes by others than the creation of `output`.
- The means, rates and costs of a benchmark report, which are rounded quotients.
- The alias loop of the parser surface, the neighbour cutting of the navigation, the manifest and artifact validators.
- The parts of the contract scripts that call the product package, whose code is not part of this model.
- Subprocess supervision, signals, Docker, Git, the network, clocks and hashes.
