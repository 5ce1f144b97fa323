# Axignal: verified models of the repository's algorithms and protocols

This project models the parts of the Axignal scripts that hold real algorithms, protocols or arithmetic, and
proves what they promise for all inputs. `dafny verify dfyconfig.toml` checks everything.

| file | models |
|---|---|
| `Clipping.dfy`, `Stitching.dfy`, `Shapefile.dfy` | the landing-page geometry pipeline: reading shapefiles, clipping segments to a rectangle, stitching the pieces into rounded polylines |
| `Rollback.dfy` | the P02, P21 and P13 rollback checks on file trees |
| `Download.dfy` | the fail-closed asset download |
| `CoverageGate.dfy` | the Gate 7 coverage evaluator and its report |
| `Wilson.dfy`, `Study.dfy`, `Ordering.dfy`, `Timestamps.dfy` | the controlled-study analysis: score intervals, session screening, the stable sort underneath, and what start strings denote |
| `LockFile.dfy`, `FromLines.dfy`, `ImageAudit.dfy`, `AuditFindings.dfy` | the supply-chain audit of lock files, project requirements, Dockerfile FROM lines and container images |
| `AuthorityExtraction.dfy` | the latest typed authority decision in issue comments, and the output file |
| `Lifecycle.dfy`, `Commercial.dfy`, `ServiceLevels.dfy` | opportunity lifecycle runs, money and margin rounding, error-budget arithmetic |
| `Common.dfy`, `Text.dfy` | result types, small shared facts, and string operations |

Loops and objects of the source are methods with invariants and classes with fields. Each of them is proved equal to a
specification function, and the lemmas prove what that function means, without referring to how it computes.

Modelling decisions that hold throughout:

- Coordinates, rates and score bounds are exact reals; money and margins are exact rationals. Floating-point and 28-digit
  decimal error is not part of the model. Rounding to five decimals is half-even on the 1e-5 grid.
- Digests are an arbitrary function from contents to strings. Where a result needs different contents to have different
  digests, the lemma asks for that on the contents concerned.
- A tree is a map from path to content. The worktree is clean before a rollback, the baseline is an ancestor of HEAD, and
  `git diff` against the worktree sees tracked paths only.
- The download's server, resolver and file system are arbitrary: a `World` fixes what each of them does at every step, and
  the theorems hold for every `World`. URL parsing, IDNA, IP parsing and hashing are arbitrary functions (`Platform`).
- Patterns are written out as predicates on strings. The sort of the standard library is a stable insertion sort, proved
  sorted, complete and stable.
- An exception is an `Err` or `None`; where the source distinguishes raising from returning false, so does the model.

Places where code and expectation part, with the exact condition proved:

- Gate 7 (`scripts/verify_gate7_global_coverage.py:478`): the `not missing_files` conjunct looks redundant because a
  placeholder never passes. It is not: it keeps the evaluation of an earlier library from raising.
  `TestForMissingFilesMatters` gives a complete index with one evidence file for which the report is IN_PROGRESS with the
  conjunct and an error without it. `TestRedundantExactly` says when the two differ, for every index: a file is missing
  and the first library that does not meet its conditions breaks on one. Conditions are stated on the record
  (`ConditionOf`), and `LibraryOutcome` proves them exact: a library raises if and only if the first condition it does not
  meet holds a repeated name or an unparsable time or date that is reached.
- P13 (`scripts/verify_p13_rollback.py:69-84`): both git comparisons ignore untracked files, so a run can pass and leave a
  restored file outside the scope behind (`UntrackedFileGoesUnnoticed`). The tree differs from HEAD on exactly the scope if
  and only if every restored path is tracked at HEAD (`FrameNeedsTrackedPaths`). With an empty scope the second comparison
  has no path arguments and covers the whole tree. `ScopePlanPassesExactly` says of every plan whether it passes.
- P02 (`scripts/verify_p02_rollback.py:75-93`): some plan passes if and only if no file was deleted since the baseline
  (`PassingPlanExists`). P21 can always roll back, deleted files included (`RestoringPlanExists`).
- Shapefiles (`scripts/prepare_landing_assets.py:78-85`): the length of a part is checked on its declared bounds, so a
  malformed part table can add an empty line (`OutOfRangePart` gives two files). A file yields only lines of at least two
  points if and only if the bounds of every part are still two apart after clamping to the points there are
  (`FileLinesLongEnough`).
- The study sorts sessions by the start string (`scripts/analyse_f1_controlled_study.py:55-58`), so it need not keep the
  earliest session of a participant and task: of two sessions whose strings are ordered against their instants it keeps the
  later (`LaterSessionKept`). Every data set keeps the earliest if and only if string order never runs against time on the
  strings that can occur (`EarliestKeptExactly`). For date-time strings that is so if and only if all zones have one offset
  and, where `Z` is among them, all fractions have one length (`EarliestKeptForForm`). The export of
  `infra/postgres/063-f1-controlled-study-export.sql:37` writes a numeric zone and up to six fraction digits; it meets the
  condition as long as the database session's offset does not change within one data set, and then keeps exactly the
  earliest session (`EarliestSessionKept`).
- The study manifest (`studies/f1/controlled-study-v1/manifest.json`) lists a wrong protocol version as a reason to exclude a
  session. The analysis aborts instead (`scripts/analyse_f1_controlled_study.py:68-72`): it returns if and only if every
  session, whatever its profile, is acceptable (`EligibleSessions`).

## Model

| member | source | states |
|---|---|---|
| Clipping.ClipSegment | scripts/prepare_landing_assets.py:90-124 | the four-edge loop with its early returns computes `Clip` |
| Clipping.ClipExact | scripts/prepare_landing_assets.py:97-119 | a point of the segment at t in [0, 1] is in the rectangle exactly when lower <= t <= upper, and nothing is returned exactly when no point is inside |
| Clipping.VisibleWindowUnique | scripts/prepare_landing_assets.py:97-119 | exactness determines the answer: any window that is exact is the computed one |
| Clipping.ClipInside | scripts/prepare_landing_assets.py:121-124 | both ends of a clipped segment are inside |
| Clipping.InsideUnclipped | scripts/prepare_landing_assets.py:90-124 | a segment with both ends inside is returned unchanged |
| Clipping.ClipIdempotent | scripts/prepare_landing_assets.py:90-124 | clipping twice is clipping once |
| Clipping.ClipReversed | scripts/prepare_landing_assets.py:90-124 | clipping commutes with reversing the segment |
| Clipping.ClipIntersection | scripts/prepare_landing_assets.py:90-124 | clipping to one rectangle and then another is clipping to their intersection |
| Stitching.RoundPointInside | scripts/prepare_landing_assets.py:143-144 | rounding keeps a point inside bounds that are multiples of 1e-5 |
| Stitching.Round5Nearest | scripts/prepare_landing_assets.py:143-144 | rounding gives the nearest multiple of 0.00001, at most 0.000005 away, and of two equally near ones the even multiple |
| Stitching.ClippedLines | scripts/prepare_landing_assets.py:127-158 | the two nested loops over `current` and `clipped` compute `StitchLines` |
| Stitching.EdgesConserved | scripts/prepare_landing_assets.py:127-158 | the edges of all output polylines, in order, are exactly the rounded clipped segments whose ends differ; every polyline has two vertices or more and no repeated neighbour |
| Stitching.VerticesWithin | scripts/prepare_landing_assets.py:127-158 | every output vertex is within grid-aligned bounds |
| Stitching.VerticesNear | scripts/prepare_landing_assets.py:127-158 | every output vertex lies within 0.000005 per coordinate of an end of a clipped segment of some input line |
| Stitching.InsideLineKept | scripts/prepare_landing_assets.py:132-157 | a line wholly inside comes back as one polyline without consecutive repeats, or not at all exactly when all its vertices round to one point |
| Shapefile.ReadShape | scripts/prepare_landing_assets.py:66-85 | the point and part loops of one record compute `ShapeLines`, unpacking errors included |
| Shapefile.ReadLines | scripts/prepare_landing_assets.py:56-87 | the record loop computes `FileLines` and ends on every byte string, each accepted record advancing by at least twelve |
| Shapefile.ReadsBack | scripts/prepare_landing_assets.py:56-87 | after a header of 100 bytes, reading the encoded records gives exactly the parts with at least two points, in order; shapes of types other than 3, 5, 13 and 15, the header and a short trailer leave no trace |
| Shapefile.ByteOrders | scripts/prepare_landing_assets.py:59-73 | the two encodings of an integer are its base-256 digits, two's complement below zero, least significant first and last |
| Shapefile.SliceSelects | scripts/prepare_landing_assets.py:84-85 | a slice selects the positions between its bounds, negative ones counted from the end and all clamped |
| Shapefile.ShapeReadBack | scripts/prepare_landing_assets.py:66-85 | one encoded multi-part record reads back as its parts with at least two points |
| Shapefile.CutParts | scripts/prepare_landing_assets.py:78-85 | cutting the points at the part starts gives the parts back |
| Shapefile.FieldsReadBack | scripts/prepare_landing_assets.py:66-85 | a record content reads back as its part table says, also when the table or the count is wrong |
| Shapefile.LinesLongEnough | scripts/prepare_landing_assets.py:78-85 | for any part table and any count, all lines have two points or more exactly when the bounds of every part hold after clamping |
| Shapefile.FileLinesLongEnough | scripts/prepare_landing_assets.py:56-87 | all lines of a file have two points or more exactly when this is so in each of its multi-part shapes |
| Shapefile.OutOfRangePart | scripts/prepare_landing_assets.py:56-87 | two files from which an empty line is read: a start outside the points, and a negative count |
| Rollback.Worktree.RemoveAll | scripts/verify_p02_rollback.py:110-116 | the remove loop succeeds exactly when the listed paths are distinct and present, and removes just them |
| Rollback.Worktree.RestoreAll | scripts/verify_p02_rollback.py:118-123 | the restore loop succeeds exactly when every path is in the baseline, and makes just those paths as there |
| Rollback.LoopOrderIrrelevant | scripts/verify_p02_rollback.py:110-123 | with disjoint lists the two loops commute: the removals can be made before exactly when they can be made after, and the tree is the same |
| Rollback.CheckTreePlan | scripts/verify_p02_rollback.py:66-98 | the path checks succeed exactly when the declared conditions hold |
| Rollback.VerifyTreeRollback | scripts/verify_p02_rollback.py:66-139 | the P02 script passes exactly when checks, distinctness and manifest equality hold |
| Rollback.RollbackReachesBaseline | scripts/verify_p02_rollback.py:66-139 | for a checked plan the lists are disjoint, and the result is the baseline exactly when every changed path is listed |
| Rollback.TreePlanPassesExactly | scripts/verify_p02_rollback.py:66-139 | P02 passes exactly on checked plans that list no removal twice and cover every changed path |
| Rollback.DeletedPathBlocks | scripts/verify_p02_rollback.py:75-93 | a path deleted since the baseline makes every plan fail |
| Rollback.PassingPlanExists | scripts/verify_p02_rollback.py:66-139 | some plan passes exactly when no file was deleted since the baseline |
| Rollback.RemoveArtifacts | scripts/verify_p21_rollback.py:59-63 | the P21 removal loop succeeds exactly on distinct artifacts present now and absent at the baseline |
| Rollback.CollectResidual | scripts/verify_p21_rollback.py:78-92 | the residual loop lists exactly the declared paths that disagree with the baseline |
| Rollback.VerifyPathRollback | scripts/verify_p21_rollback.py:39-93 | the P21 script in place: when it raises, the tree it leaves, and the residual it requires to be empty |
| Rollback.EmptyResidualIsWholeTree | scripts/verify_p21_rollback.py:41-93 | an empty residual means the whole tree equals the baseline, and is reached exactly when every changed path is listed |
| Rollback.RestoringPlanExists | scripts/verify_p21_rollback.py:41-93 | for every baseline and HEAD some P21 plan passes its checks and restores the baseline |
| Rollback.VerifyScopedRollback | scripts/verify_p13_rollback.py:27-84 | the P13 script in place: it passes exactly under `ScopePlanPasses`, and the tree it leaves |
| Rollback.ScopedRollbackFrame | scripts/verify_p13_rollback.py:49-84 | after a passing run, scope paths are tracked, changed and equal to the baseline, and every other tracked path is as at HEAD |
| Rollback.FrameNeedsTrackedPaths | scripts/verify_p13_rollback.py:69-84 | after a passing run the whole tree differs from HEAD on exactly the scope if and only if every restored path is tracked |
| Rollback.UntrackedFileGoesUnnoticed | scripts/verify_p13_rollback.py:54-84 | a passing run that leaves an untracked file outside the scope |
| Rollback.ScopePlanPassesExactly | scripts/verify_p13_rollback.py:29-84 | P13 passes exactly on plans whose scope is what they mutate, with the conditions on removals, restored and preserved paths spelled out |
| Rollback.IntendedScopePlanPasses | scripts/verify_p13_rollback.py:29-84 | a plan of new artifacts and restored tracked files that make up the scope passes, except that an empty scope needs an unchanged tree |
| Download.MakePolicy | scripts/asset_download_security.py:35-55 | a policy is made exactly from non-empty hosts and types, a positive limit, zero to five redirects and a digest; it holds the limits given, the folded digest and types, and the normal forms of the hosts |
| Download.DigestExactly | scripts/asset_download_security.py:49-52 | a digest is 64 lower-case hexadecimal digits |
| Download.ValidatedExactly | scripts/asset_download_security.py:108-136 | a URL is validated exactly when it has no control character, splits, is https with an allowed host, no user information or fragment and the default port, and every resolved address is public; the result is those addresses |
| Download.UrlAllowedExactly | scripts/asset_download_security.py:114-132 | the part of the validation before the lookup, and the normalised host it gives |
| Download.PeerExactly | scripts/asset_download_security.py:139-149 | a peer is accepted exactly when its address is public and among the expected ones |
| Download.Client.Navigate | scripts/asset_download_security.py:190-225 | the redirect loop computes `Locate`, makes at most max_redirects + 1 requests, and uses only responses to allowed https URLs whose peer is a public address of the lookup that validated them |
| Download.Client.Receive | scripts/asset_download_security.py:226-245 | the chunk loop never lets the temporary file exceed the limit and ends with the joined chunks |
| Download.Client.DownloadAsset | scripts/asset_download_security.py:171-264 | for every World: at most six requests, peers found in the validating resolution, a temporary file left behind exactly when it was created, not moved and not removable, destination replaced once by the complete pinned bytes or untouched, and an error after the replacement only from closing the connection |
| Download.DownloadSucceedsExactly | scripts/asset_download_security.py:171-264 | a download succeeds if and only if a chain of allowed URLs, each answered by a validated peer with status 301, 302, 303, 307 or 308 and a location, ends at a 2xx response of an allowed type with a complete body within the limit and the pinned digest, and the file operations and the closing of the connection succeed |
| Download.AssetDescribed | scripts/asset_download_security.py:248-264 | the reported asset names the last URL of the chain, its media type, the size of its body, the digest and the number of redirects |
| Download.BodyReceivedExactly | scripts/asset_download_security.py:236-245 | the body is received exactly when it fits and neither stream nor file operation fails |
| CoverageGate.ValidateSourceBoundaries | scripts/verify_gate7_global_coverage.py:225-250 | the three-bucket loop raises exactly when `BoundariesHold` fails |
| CoverageGate.AcceptanceIsConvex | scripts/verify_gate7_global_coverage.py:208-401 | a library passing at two instants passes at every instant between |
| CoverageGate.LapsedForGood | scripts/verify_gate7_global_coverage.py:366-401 | a library that passed and then lapsed never passes again unchanged |
| CoverageGate.PassExcludesRejection | scripts/verify_gate7_global_coverage.py:366-416 | no library both passes and is rejected |
| CoverageGate.LibraryOutcome | scripts/verify_gate7_global_coverage.py:208-401 | a library passes exactly when its record meets every condition, and raises exactly when the first unmet condition cannot be evaluated |
| CoverageGate.PassIsEvidenced | scripts/verify_gate7_global_coverage.py:253-302 | a passing library has active sources, all admitted, a complete current journey for every required language, and a current signed approval by every required authority |
| CoverageGate.PlaceholderIsNeutral | scripts/verify_gate7_global_coverage.py:149-205 | a placeholder neither passes nor is rejected at any time |
| CoverageGate.PlaceholderMeets | scripts/verify_gate7_global_coverage.py:149-205 | which conditions a placeholder meets: the source boundaries and the absence of synthetic data, and no other as long as languages and authorities are required |
| CoverageGate.IdsExactly | scripts/verify_gate7_global_coverage.py:20-23 | the sixteen expected ids, character by character |
| CoverageGate.LoadLibraries | scripts/verify_gate7_global_coverage.py:442-468 | the loading loop accepts exactly the indexes whose entries all match, and collects libraries and missing files |
| CoverageGate.BuildReport | scripts/verify_gate7_global_coverage.py:437-513 | the report raises or decides as `ReportDecision` says; it is REJECTED exactly when some record says REJECTED, REJECT or FAIL, IN_PROGRESS exactly when none does and some library does not meet every condition; all claims are true exactly when every library meets every condition |
| CoverageGate.DecisionExactly | scripts/verify_gate7_global_coverage.py:404-416 | REJECTED and IN_PROGRESS in terms of the records alone, for every index and instant |
| CoverageGate.PassMeansAllMeet | scripts/verify_gate7_global_coverage.py:477-487 | the decision is PASS exactly when the index is accepted and every library meets every condition, with or without the test for missing files |
| CoverageGate.AllPassOutcome | scripts/verify_gate7_global_coverage.py:478-486 | evaluating all libraries gives true exactly when each meets its conditions, and raises exactly when some library breaks and all before it meet theirs |
| CoverageGate.TestRedundantExactly | scripts/verify_gate7_global_coverage.py:478 | leaving out the test for missing files changes the report exactly when the index is accepted, a file is missing, and the first library that does not meet its conditions breaks |
| CoverageGate.CleanNeverRaises | scripts/verify_gate7_global_coverage.py:366-401 | a library within its boundaries, without repeated names or unparsable values, never raises |
| CoverageGate.TestRedundantForClean | scripts/verify_gate7_global_coverage.py:478 | for such libraries the test for missing files is redundant |
| CoverageGate.TestForMissingFilesMatters | scripts/verify_gate7_global_coverage.py:478 | a complete accepted index for which the report is IN_PROGRESS and would raise without the test |
| Wilson.ScoreSign | scripts/analyse_f1_controlled_study.py:23-35 | the endpoints are exactly the two solutions of total (p - x)^2 = z^2 x (1 - x), and between them the score is at most zero |
| Wilson.BoundsBracketRate | scripts/analyse_f1_controlled_study.py:23-35 | 0 <= low <= p <= high <= 1, so both clamps are redundant |
| Wilson.SwapReflects | scripts/analyse_f1_controlled_study.py:23-35 | swapping successes for failures reflects the interval about one half |
| Wilson.BoundsMonotone | scripts/analyse_f1_controlled_study.py:23-35 | both endpoints are nondecreasing in the successes |
| Ordering.StableOrderSorted | scripts/analyse_f1_controlled_study.py:55-58 | the sort orders by key, ties by original position |
| Ordering.StableOrderMembers | scripts/analyse_f1_controlled_study.py:55-58 | the sort keeps every position |
| Ordering.LessExactly | scripts/analyse_f1_controlled_study.py:57 | one string is less than another exactly when it is a proper prefix or has the smaller character where they first differ |
| Study.EligibleSessions | scripts/analyse_f1_controlled_study.py:47-99 | the screening loop raises exactly when a session's identifier, condition, task, protocol or study is not as required, and otherwise computes `Retained` |
| Study.RetainedExactly | scripts/analyse_f1_controlled_study.py:55-99 | in record terms, the sessions retained: an allowed profile, no technical failure, and before all such sessions of the same participant and task |
| Study.ExclusionsExactly | scripts/analyse_f1_controlled_study.py:73-98 | the exclusions name, in processing order, exactly the sessions not retained, each with its reason |
| Study.NothingLost | scripts/analyse_f1_controlled_study.py:60-99 | retained and excluded counts add up to the input count |
| Study.LeastStartKept | scripts/analyse_f1_controlled_study.py:55-99 | a session is retained exactly when it has the least start string among the qualified, non-failed ones of its participant and task, ties by input order |
| Study.SomeSessionKept | scripts/analyse_f1_controlled_study.py:60-99 | every countable session has a retained one of its participant and task with a start string no greater |
| Study.LaterSessionKept | scripts/analyse_f1_controlled_study.py:55-99 | of two sessions of one participant and task the one with the lesser string is kept and the other dropped, also when its instant is later |
| Study.OffsetsMislead | scripts/analyse_f1_controlled_study.py:55-99 | any two zones with different offsets give two stamps and a data set of which the later session is kept |
| Study.EarliestKeptExactly | scripts/analyse_f1_controlled_study.py:55-99 | whatever the strings denote, all data sets keep the earliest sessions exactly when string order never runs against time |
| Study.EarliestKeptForForm | scripts/analyse_f1_controlled_study.py:55-99 | for date-time strings this is so exactly when all zones have one offset and, with `Z`, all fractions one length |
| Study.EarliestSessionKept | scripts/analyse_f1_controlled_study.py:55-99 | for stamps of one form, the exported one included, a session is retained exactly when it is the earliest of its participant and task, ties by input order |
| Timestamps.CalendarExactly | infra/postgres/063-f1-controlled-study-export.sql:37 | a date is valid exactly when the Gregorian calendar has it |
| Timestamps.InstantOfWritten | infra/postgres/063-f1-controlled-study-export.sql:37 | a written stamp is one, and denotes its counted days and time of day, less what its zone is ahead, and a fraction of a second |
| Timestamps.FractionExactly | infra/postgres/063-f1-controlled-study-export.sql:37 | each digit of a fraction adds what it says at its place |
| Timestamps.FormFollowsTimeExactly | scripts/analyse_f1_controlled_study.py:55-58 | string order follows time on given zones and fraction lengths exactly under that condition |
| Timestamps.FormOrder | infra/postgres/063-f1-controlled-study-export.sql:37 | within the exported form string order is time order, and equal instants have equal strings |
| Study.KeysDistinct | scripts/analyse_f1_controlled_study.py:89-98 | no two retained sessions share participant and task |
| Study.EligibleBounded | scripts/analyse_f1_controlled_study.py:47-99 | eligible sessions are at most distinct participants times tasks |
| Study.GroupByCondition | scripts/analyse_f1_controlled_study.py:149-151 | the grouping loop collects each condition's sessions in order |
| Study.ConditionsPartition | scripts/analyse_f1_controlled_study.py:149-155 | the two conditions partition the retained sessions |
| Study.CountSuccesses | scripts/analyse_f1_controlled_study.py:108-116 | the counting loop counts the sessions whose outcome has the metric |
| Study.SuccessesExactly | scripts/analyse_f1_controlled_study.py:109-112 | the count is the number of sessions whose outcome says the metric is true |
| Study.ReportedRateInInterval | scripts/analyse_f1_controlled_study.py:102-121 | the reported rate lies in the reported interval, and that in [0, 1], for empty groups too |
| Text.SpacesListed | scripts/verify_g6_supply_chain.py:78 | the white-space characters, one by one |
| Text.TrimExactly | scripts/verify_g6_supply_chain.py:78 | trimming takes away all white space at both ends and nothing else |
| Text.ContainsExactly | scripts/verify_g6_supply_chain.py:125 | a part is contained exactly when the string is something, the part, and something |
| Text.Sha256Exactly | scripts/verify_g6_supply_chain.py:24 | a digest text is `sha256:` and 64 lower-case hexadecimal digits |
| LockFile.LogicalLockStatements | scripts/verify_g6_supply_chain.py:73-92 | the continuation-line loop computes `Statements`; its last guard discards nothing |
| LockFile.SkippableExactly | scripts/verify_g6_supply_chain.py:78-80 | a line is skipped outside a statement exactly when it is blank or its first other character is '#' |
| LockFile.ContinuesExactly | scripts/verify_g6_supply_chain.py:84-85 | a line continues exactly when only white space follows a backslash |
| LockFile.JoinExactly | scripts/verify_g6_supply_chain.py:86 | joining puts one space between the parts |
| LockFile.StatementKept | scripts/verify_g6_supply_chain.py:86-89 | the text of a statement is never empty and never a comment |
| LockFile.NothingLost | scripts/verify_g6_supply_chain.py:73-92 | every line is blank or a comment outside all statements or in exactly one span; a statement is the joined run to the first line that does not continue; numbers strictly increase |
| LockFile.NormaliseIsNormalised | scripts/verify_g6_supply_chain.py:62-63 | a normalised name has no '_', '.', upper-case letter or double hyphen |
| LockFile.NormaliseParts | scripts/verify_g6_supply_chain.py:62-63 | what every name becomes: a whole run of '-', '_' and '.' becomes one hyphen, any other character its lower case |
| LockFile.NormaliseIdempotent | scripts/verify_g6_supply_chain.py:62-63 | normalising twice is normalising once |
| LockFile.InspectLock | scripts/verify_g6_supply_chain.py:95-134 | the audit loop appends exactly `LockFindings` and returns the pinned packages |
| LockFile.PinnedExactly | scripts/verify_g6_supply_chain.py:25-27 | a statement pins a name exactly when it is written as a name, optional extras in brackets, `==` and a version |
| LockFile.HashedExactly | scripts/verify_g6_supply_chain.py:117 | a statement has a hash exactly when `--hash=sha256:` and 64 hexadecimal digits occur in it |
| LockFile.FromElsewhereExactly | scripts/verify_g6_supply_chain.py:125 | the three marks of a source other than the registry, by where they occur |
| LockFile.RequirementExactly | scripts/verify_g6_supply_chain.py:66-70 | the package of a requirement is the normal form of the longest name after leading white space |
| LockFile.PackageExactly | scripts/verify_g6_supply_chain.py:106-116 | a sound statement adds exactly the normal form of the name it pins |
| LockFile.CleanLockExactly | scripts/verify_g6_supply_chain.py:95-134 | a lock adds no finding exactly when it has statements and all are exact, hashed registry pins |
| LockFile.InspectRequirements | scripts/verify_g6_supply_chain.py:147-189 | a requirement loop raises exactly on an unnamed requirement and otherwise appends exactly `ListFindings` |
| LockFile.InspectProject | scripts/verify_g6_supply_chain.py:137-189 | the three requirement loops raise exactly on an unnamed requirement and otherwise append exactly `ProjectFindings` |
| LockFile.ProjectPinnedExactly | scripts/verify_g6_supply_chain.py:95-189 | with clean locks the project adds no finding exactly when every runtime requirement is pinned with a hash in both locks, every development and build requirement in the development lock, and every build requirement is exact |
| ImageAudit.LoadImageLock | scripts/verify_g6_supply_chain.py:192-241 | the loading loops append exactly `LockFindings` and build the reference map |
| ImageAudit.CleanImageLock | scripts/verify_g6_supply_chain.py:192-241 | no finding exactly when the lock was read, names the toolchain and maps distinct references to valid digests; then the map holds every entry and nothing else |
| ImageAudit.VerifyImageReference | scripts/verify_g6_supply_chain.py:244-286 | the reference rules append exactly `ReferenceFindings` and report the release form |
| ImageAudit.ReferenceCleanExactly | scripts/verify_g6_supply_chain.py:244-286 | a reference adds no finding exactly when it is scratch, an allowed variable form, or a tagged name joined to the digest the lock gives it |
| ImageAudit.LockedExactly | scripts/verify_g6_supply_chain.py:244-286 | a reference is locked exactly when it is a tagged name of the lock joined by '@' to the digest the lock gives it |
| FromLines.FromRead | scripts/verify_g6_supply_chain.py:28-31 | whatever the white space, letter case and further words, a written FROM line is read as its image and alias |
| FromLines.ReadIsFromLine | scripts/verify_g6_supply_chain.py:28-31 | every line that is read at all is written so, with that image and alias |
| FromLines.FromLinesExactly | scripts/verify_g6_supply_chain.py:28-31 | a line is recognised exactly when it is a written FROM line |
| FromLines.WordsOfWritten | scripts/verify_g6_supply_chain.py:28-31 | splitting a line at white space undoes writing its words with any gaps |
| FromLines.EveryLineWritten | scripts/verify_g6_supply_chain.py:28-31 | every line is a writing of its words |
| ImageAudit.InspectDockerfile | scripts/verify_g6_supply_chain.py:301-312 | the line loop with its growing aliases appends exactly `FileFindings` and counts the FROM lines whose image is no earlier alias |
| ImageAudit.InspectDockerfiles | scripts/verify_g6_supply_chain.py:298-313 | the loop over files appends exactly `DockerFindings` and counts the verified references |
| ImageAudit.DockerCleanExactly | scripts/verify_g6_supply_chain.py:298-313 | no finding exactly when, in every written FROM line, the image is an alias declared above it in the same file or governed |
| ImageAudit.AuditSound | scripts/verify_g6_supply_chain.py:192-313 | however a FROM line is written, its image in a clean audit is an alias declared above it, scratch, an allowed variable form, or pinned by an entry of the lock file |
| AuthorityExtraction.FlattenComments | scripts/extract_gate7_o01_typed_authority.py:43-51 | the flattening loop computes `Flatten` |
| AuthorityExtraction.NestingIgnored | scripts/extract_gate7_o01_typed_authority.py:43-51 | wrapping a stretch of comments in a nested array changes nothing |
| AuthorityExtraction.FlattenCongruent | scripts/extract_gate7_o01_typed_authority.py:43-51 | an item may be replaced by one that flattens alike, so the wrapping can be at any depth |
| AuthorityExtraction.ExtractLatestDecision | scripts/extract_gate7_o01_typed_authority.py:89-137 | scanning, stable sort and taking the last gives `Latest` of the matches |
| AuthorityExtraction.EligibleExactly | scripts/extract_gate7_o01_typed_authority.py:99-123 | the conditions on a candidate and its comment, one by one |
| AuthorityExtraction.SortByIdCorrect | scripts/extract_gate7_o01_typed_authority.py:135 | the sort orders by comment id and keeps every match |
| AuthorityExtraction.LatestIsGreatest | scripts/extract_gate7_o01_typed_authority.py:135-137 | the result has the greatest comment id and is the last in scan order among ties |
| AuthorityExtraction.LatestDecisionIsGreatest | scripts/extract_gate7_o01_typed_authority.py:98-137 | there is a result exactly when a comment offers an accepted candidate, and none with a greater id is offered |
| AuthorityExtraction.InvalidCommentIgnored | scripts/extract_gate7_o01_typed_authority.py:99-137 | comments without an accepted candidate can be added anywhere |
| AuthorityExtraction.ReorderingIgnored | scripts/extract_gate7_o01_typed_authority.py:99-137 | reordering comments with distinct ids does not change the result |
| AuthorityExtraction.LaterNeverOlder | scripts/extract_gate7_o01_typed_authority.py:115-118 | as the clock or the latest expiry advances the decision does not disappear and its id never decreases |
| AuthorityExtraction.OutputFile.Extract | scripts/extract_gate7_o01_typed_authority.py:140-204 | the output file exists afterwards exactly when both authorities were found, and then holds one decision of each for a well-formed head and digest; stale output is removed; building the envelope never raises |
| Lifecycle.EdgesExactly | scripts/p07_opportunity_operations_reference.py:9-31 | the edges, one by one: no transition is missing and none is added |
| Lifecycle.RunBounded | scripts/p07_opportunity_operations_reference.py:9-31 | a run of n steps with k reworks has n <= 9 + 3k, less what is still possible |
| Lifecycle.BoundAttained | scripts/p07_opportunity_operations_reference.py:9-31 | the bound is attained for every k |
| Lifecycle.SubmissionApproved | scripts/p07_opportunity_operations_reference.py:9-31 | submission is immediately preceded by a pending decision, its approval and execution |
| Lifecycle.OnlyLearningIsTerminal | scripts/p07_opportunity_operations_reference.py:9-31 | only the last listed state is terminal |
| Lifecycle.LearningReachable | scripts/p07_opportunity_operations_reference.py:9-31 | learning can be captured from every listed state |
| Commercial.MinorMonotone | scripts/p21_commercial_reference.py:32-37 | counting minor units is monotone |
| Commercial.MinorOdd | scripts/p21_commercial_reference.py:32-37 | counting minor units is odd |
| Commercial.MinorNearest | scripts/p21_commercial_reference.py:32-37 | exponents zero to four are accepted; the count is the nearest to the value made ten times as large that often, ties away from zero, and whole minor units are kept |
| Commercial.MarginDecision | scripts/p21_commercial_reference.py:155-179 | the decision in whole numbers: at least (2f - 1) r for a positive floor, strictly more otherwise |
| Commercial.MarginReported | scripts/p21_commercial_reference.py:155-179 | revenue, summed costs, what remains, and its share in basis points rounded to the nearest, ties away from zero |
| Commercial.MarginPermuted | scripts/p21_commercial_reference.py:163-170 | the order of the costs does not matter |
| Commercial.MarginMonotone | scripts/p21_commercial_reference.py:155-179 | raising a cost never raises the margin and never turns a block into a pass |
| ServiceLevels.RatesExactly | scripts/p22_production_reference.py:8-22 | when the two rates raise, the availability as the whole part of the share, and the burn rate as failed over allowed events |
| ServiceLevels.AlertsExactly | scripts/p22_production_reference.py:25-32 | PAGE and TICKET in whole numbers, and that the rule for one hour never decides |
| ServiceLevels.ObjectiveMetExactly | scripts/p22_production_reference.py:8-22 | the floored availability meets the objective exactly when the burn rate is at most one |
| ServiceLevels.SilenceExactly | scripts/p22_production_reference.py:8-32 | within 72 hours no alert is raised exactly when error budget is left over, and the objective is then met |
| ServiceLevels.MergedBurnRate | scripts/p22_production_reference.py:18-22 | the burn rate of two merged samples lies between their own |

## Left out

- Geometry: choosing the `.shp` member of the archive, projection, map rendering and all image processing in `scripts/prepare_landing_assets.py`; floating-point error of clipping and rounding.
- Shapefile.Point: the eight bytes of a coordinate are kept as they are; which number they denote is not modelled.
- Rollback: rename detection, file modes, symbolic links, directories and missing parent directories, and the programs `git` and `tar` themselves; the rollback scripts of the other phases repeat these three.
- Download: HTTP, sockets, DNS and timeouts; a process killed in the middle of a run; file-system errors outside the temporary file and the replacement; errors while the response of a redirect is closed; the message an error carries, for which `Failure` only tells the failures apart.
- Coverage gate: JSON Schema validation (records are well-typed by construction), the wording of the public claim and of a placeholder's limitations, Markdown rendering, the attestation files and the adversarial self-checks.
- Timestamps: leap seconds, offsets with seconds, and ISO 8601 spellings other than `YYYY-MM-DDThh:mm:ss`, an optional point and digits, and `Z` or a signed `hh:mm`; for these `EarliestKeptExactly` holds with any reading of the strings.
- Study: the single threshold comparisons, the mean confidence and the recommendation of `evaluate`; the square root is any number whose square is the variance.
- Supply chain: YAML image lines, workflow actions, release-build token checks, the text of messages, and the case folding of non-ASCII package names, which the lock pattern rules out.
- Authority extraction: finding and decoding JSON fences in a comment body and the discovery of the latest admissible expiry.
- Lifecycle, commercial and service-level scripts: their other functions are single decisions and would add easy members only.
