# Verified model of the study coach's engines

A Dafny 4.11 model of the deterministic parts of a FastAPI study coach for an accountancy exam: the
study-plan generator, the prerequisite tracer, refresh-token rotation, problem recommendation, the exam
text splitter, the resumable explanation batch, the practice list's cursor, and the term graph with its
index. `dafny verify dfyconfig.toml` checks the whole project.

## How the model is built

- **Shape.** Code that changes things step by step is an imperative method (arrays changed in place,
  loops with invariants, two classes for the token service and the file workspace, one for the term
  index), proved equal to a specification function; the guarantees are lemmas about that function.
  `AuthService`, `Workspace` and `TermIndex` are the classes; each request handler is one atomic step.
- **Arithmetic is exact.** Hours are integer hundredths, scores integer ten-thousandths, everything in
  between is `real`. Rounding is a parameter `rnd`, constrained only by `Nearest`: some nearest integer,
  with any treatment of ties. The results therefore hold for round-half-even and for any other.
- **Meaning, apart from the code.** Each component's specification functions follow the code; beside them
  a second module (`…InFigures`, `…InWords`, `ConceptMatching`, `TraceOrder`, `SessionReplies`,
  `ExamBlocks`) states with literal figures and plain texts what these must yield, and proves that they do.
- **The outside world is a parameter.** The clock, newly drawn token digests, the password check, the
  solver's answers and the weekly total (already rounded to hundredths) come in as arguments.
- **Sorting.** `sorted(..., key=...)` is a stable insertion sort by key (`Order.SortBy`); that equal keys
  force equal results is proved once and used for every "same input, same output" claim.

| file | component |
|---|---|
| `Wrappers.dfy`, `Order.dfy`, `Filters.dfy`, `Sums.dfy`, `Arithmetic.dfy`, `Rounding.dfy`, `Text.dfy` | optional values, string order and sort keys, parts of sequences, sums, products, rounding, substrings |
| `StageWeeks.dfy` | weeks per study stage, by largest remainder |
| `Hours.dfy`, `HoursLaws.dfy`, `HoursInFigures.dfy` | weekly hours per subject, what they guarantee, and who gets what |
| `Tutorials.dfy`, `TutorialsInFigures.dfy` | tutorials laid over the teaching weeks; loads and order |
| `Plan.dfy`, `PlanInFigures.dfy` | calendar, duplicate subjects, the whole plan; its weeks one by one |
| `LearningPath.dfy`, `ConceptMatching.dfy`, `TraceOrder.dfy` | matching concepts, breadth-first trace, truncation and order; what they mean for texts and lists; in which order and why terms are visited |
| `Sessions.dfy`, `SessionReplies.dfy` | refresh tokens: rotation and reuse detection; who gets in, and what each request leaves behind |
| `Recommend.dfy`, `RecommendInFigures.dfy` | scores, ranking, skips, cold-start round robin; each in figures |
| `ExamText.dfy`, `ExamRendering.dfy`, `ExamClarity.dfy`, `ExamBlocks.dfy` | splitting exam text into questions; taking a printed exam apart again; which exams that works for; what any block yields |
| `Explanations.dfy`, `BatchInFigures.dfy` | retries, checkpoints, resuming a batch; records and counters one by one |
| `Practice.dfy`, `PageInFigures.dfy` | filters and cursor pagination; one page question by question |
| `TermGraph.dfy`, `GraphInWords.dfy` | edges, one per key, and the inverted index; the stored graph in terms of names and texts |

## Where the code does not do what its comments say

- **Weekly hours do not always add up** (`cpa_first/engine/study_plan.py:187` says they do). The last
  clamp at line 251 can hand out too much. `HoursAddUp` gives the exact condition, `Overdrawn`;
  `EnoughHoursAreConserved` rules it out from (n-1)(n-2)/2 hundredths on; `TinyWeeksOverspend` is a
  whole family where the total comes out as n-2 instead of H.
- **The fallback plan can hand out negative time** (lines 489-493): of all non-negative weekly totals for
  0.03 hours and no other, `FallbackNegativeIff`. The allocation for known subjects never does.
- **The 15% floor is not always kept** (lines 109 and 191). The drift step takes back from the top
  subject whatever the donors could not pay. `Debt` is the part of that which pushes the top subject
  below the floor: `FloorKept` bounds every fail-risk subject from below by floor minus rounding minus
  debt, `FloorBroken` shows that a debt beyond rounding really breaks the promise, and
  `SevenFailRiskSubjectsBreakTheFloor` that seven fail-risk subjects always do. `FloorKeptIff` is exact:
  the floor is kept up to rounding for everybody if and only if the drift step leaves enough for the one
  subject that was rounded highest (`DriftBreaksFloor`).
- **The plan does not cover every remaining day** when the weeks needed exceed `max_weeks`;
  `WholeHorizonCovered` states the exact condition, and `CoverageIsExact` which days are covered. The
  default cap of 52 weeks, meant for a plan of one year (lines 86-88), leaves the last day of a D-365 plan
  in no week: `OneYearPlanMissesTheLastDay`.
- **The splitter's gap tolerance can take a line for the next question** (lines 250-258 of
  `scripts/parse_real_exams.py`): `RenderThenSplit` states exactly which exams are split back.
- **Cursor pagination skips questions** when a page ends between two of the same id, which nothing in the
  endpoint rules out: `WalkCompleteIff`. If the first page ends in an empty id the client is sent back to
  it for ever: `EmptyIdTurnsBack`.
- **Fail-risk is not always ahead** (`cpa_first/engine/recommend.py:8-9`). An attempted fail-risk question
  is never behind an untried other one, and ties with it exactly when both are within rounding of the
  fail line, the first with nothing else in its favour and the second with everything:
  `FailRiskTiesIff`. In the ranking such a tie goes to the smaller id: `FailRiskRanksFirstIff`.

## Model

| member | source | states |
|---|---|---|
| `Order.SortBySorts` | cpa_first/engine/learning_path.py:205-209 | a sort by key is a rearrangement of its input and in key order |
| `Order.SortByIgnoresOrder` | cpa_first/engine/recommend.py:177 | with distinct keys the sorted result does not depend on the order of the input |
| `Order.StrLeMeans` | cpa_first/engine/recommend.py:177 | of two strings a prefix comes first, otherwise the first differing character decides |
| `Order.SortByIsStable` | cpa_first/api/main.py:463-465 | elements with the same key stay in the order they came in |
| `Text.ContainsMeans` | cpa_first/engine/recommend.py:90 | a substring is what can be cut out of the text |
| `StageWeeks.DistributeStageWeeks` | cpa_first/engine/study_plan.py:138-158 | the in-place hand-out of weeks computes the specified distribution |
| `StageWeeks.HandOut` | cpa_first/engine/study_plan.py:149-157 | the loop over the first left-over stages adds exactly one week to each |
| `StageWeeks.LeftOverIsSmall` | cpa_first/engine/study_plan.py:152-154 | after rounding all quotas down, at least zero and fewer weeks than stages are left |
| `StageWeeks.WeeksAddUp` | cpa_first/engine/study_plan.py:149-158 | with more weeks than stages the counts sum to the total |
| `StageWeeks.QuotaRule` | cpa_first/engine/study_plan.py:142-157 | a count less its guaranteed week is the exact quota rounded down or up, and left-over weeks go to the largest fractions, ties to the later stage |
| `StageWeeks.HeavierStageGetsMore` | cpa_first/engine/study_plan.py:150-157 | a heavier stage never gets fewer weeks than a lighter one; of equal ones the later never does |
| `StageWeeks.HeavierStageInPlan` | cpa_first/engine/study_plan.py:30-38 | the same for the stages of a plan with the engine's weights |
| `StageWeeks.PastExamRotationLeads` | cpa_first/engine/study_plan.py:30-38 | the past-exam rotation gets the largest share of all remaining stages |
| `StageWeeks.RemainingByName` | cpa_first/engine/study_plan.py:132-135 | the stages ahead of each current stage, by name, and all of them for an unknown one |
| `StageWeeks.WholeJourneyInProportion` | cpa_first/engine/study_plan.py:30-38 | with 13 weeks per round a whole journey is laid out as 1:2:3:4:2:1, by name, on top of one week each |
| `StageWeeks.StagesByWeeks` | cpa_first/engine/study_plan.py:30-38 | the stages by name in the order of the weeks they get: none gets more than one before it |
| `StageWeeks.DistributionKeepsEveryWeek` | cpa_first/engine/study_plan.py:141-158 | for any stages: sum equals the total iff there is a stage to give to, every kept stage has a week, scarce weeks keep the last stages in order |
| `Hours.RaiseToFloor` | cpa_first/engine/study_plan.py:218-226 | the in-place raise lifts each fail-risk subject by exactly its deficit and returns their sum |
| `Hours.DonorCapacity` | cpa_first/engine/study_plan.py:228-229 | the loop returns the sum of what donors have above maintenance |
| `Hours.CollectFromDonors` | cpa_first/engine/study_plan.py:230-233 | the in-place loop takes the same fraction of every donor's spare hours and nothing from others |
| `Hours.Balance` | cpa_first/engine/study_plan.py:205-233 | shares, raise and collection over one array give the specified hours before rounding |
| `Hours.AllocateSubjectHours` | cpa_first/engine/study_plan.py:186-260 | the whole allocation, subject by subject, equals its specification, the zero-hours branch included |
| `HoursLaws.SharesAddUp` | cpa_first/engine/study_plan.py:205-216 | the weighted shares hand out exactly the week, with or without weak subjects, for any number of subjects |
| `HoursLaws.ExcessIsUnpaidRaise` | cpa_first/engine/study_plan.py:218-233 | before rounding, what is handed out beyond the week is exactly the raise the donors do not pay |
| `HoursLaws.WeakerGetsMore` | cpa_first/engine/study_plan.py:161-168 | lower accuracy never means fewer hours, through both weight jumps, raise and donor payment |
| `HoursLaws.StableGetsUpkeepOnly` | cpa_first/engine/study_plan.py:161-164 | while any subject is weak, a stable one gets its maintenance share and nothing else |
| `HoursLaws.BalancedSigns` | cpa_first/engine/study_plan.py:205-233 | before rounding every subject keeps at least the maintenance hours |
| `HoursLaws.HoursAreNonNegative` | cpa_first/engine/study_plan.py:235-251 | the allocation gives no subject negative time, for any accuracies, total and rounding |
| `HoursLaws.HoursAddUp` | cpa_first/engine/study_plan.py:187-251 | the hours sum to the week iff the last clamp does not bite; otherwise too much is handed out |
| `HoursLaws.EnoughHoursAreConserved` | cpa_first/engine/study_plan.py:235-251 | from (n-1)(n-2)/2 hundredths on the clamp never bites and the sum is exact |
| `HoursLaws.TinyWeeksOverspend` | cpa_first/engine/study_plan.py:243-251 | with n stable subjects and n/2 < H < n-2 the code hands out n-2 hundredths |
| `HoursLaws.FloorKept` | cpa_first/engine/study_plan.py:218-239 | every fail-risk subject ends within (n+1)/2 hundredths and the debt of the 15% floor |
| `HoursLaws.CoveredFloorKept` | cpa_first/engine/study_plan.py:227-239 | where the donors can pay the raises the floor is kept up to rounding |
| `HoursLaws.FloorBroken` | cpa_first/engine/study_plan.py:235-251 | for any weekly total a debt beyond rounding leaves some fail-risk subject below the floor |
| `HoursLaws.FloorKeptIff` | cpa_first/engine/study_plan.py:235-251 | all fail-risk subjects keep the floor up to (n+1)/2 hundredths iff the drift step does not take it from the subject rounded highest, debts small and large |
| `HoursLaws.FiveSubjectsNeedNoRaise` | cpa_first/engine/study_plan.py:211-226 | with at most five subjects the weighted share alone reaches 15% and the raise never fires |
| `HoursLaws.SixSubjectsMayNeedTheRaise` | cpa_first/engine/study_plan.py:211-226 | with six subjects it can fire |
| `HoursLaws.SevenFailRiskSubjectsBreakTheFloor` | cpa_first/engine/study_plan.py:191-239 | with seven fail-risk subjects one of them ends below 15%, for every weekly total and rounding |
| `HoursInFigures.UpkeepInFigures` | cpa_first/engine/study_plan.py:205-209 | 5% of the week each for up to twenty subjects, an even split and nothing to share for more |
| `HoursInFigures.SharesInProportion` | cpa_first/engine/study_plan.py:161-168 | what is shared beyond upkeep is in proportion to 1.5 less the accuracy below 40%, 1 less the accuracy below 70%, nothing above |
| `HoursInFigures.SharesInFigures` | cpa_first/engine/study_plan.py:211-216 | the same for any two weak subjects on either side of the fail line, written out in their accuracies |
| `HoursInFigures.WeakerSharesMore` | cpa_first/engine/study_plan.py:211-216 | of two subjects of which the weaker is below 70%, that one has strictly more before raise and payment |
| `HoursInFigures.StableShareEvenly` | cpa_first/engine/study_plan.py:213-214 | while nobody is weak the rest is split evenly |
| `HoursInFigures.BalanceInFigures` | cpa_first/engine/study_plan.py:218-233 | a fail-risk subject is raised to 15% of the week and no further; all others keep the same fraction above upkeep |
| `HoursInFigures.DonorsPay` | cpa_first/engine/study_plan.py:222-233 | a donor pays its part of the total raise in proportion to what it has above upkeep, at most all of it, and nothing where a total is within 1e-9 hours |
| `HoursInFigures.AllocationInFigures` | cpa_first/engine/study_plan.py:235-251 | everybody gets the rounded hours and the first highest what is left of the week; only if less than nothing is left it counts as zero and the rest is scaled to the week and rounded again, the highest taking the difference |
| `HoursInFigures.NothingToShare` | cpa_first/engine/study_plan.py:195-203 | no weekly hours, no hours for anybody |
| `Tutorials.AssignSubject` | cpa_first/engine/study_plan.py:422-436 | the slot loop, its overflow break included, appends exactly the chunk of each teaching week |
| `Tutorials.AssignTutorials` | cpa_first/engine/study_plan.py:406-436 | the nested loops fill every week as specified |
| `Tutorials.EveryTutorialOnce` | cpa_first/engine/study_plan.py:375-436 | with a teaching week, a planned subject's tutorials over all weeks are its sorted catalogue: each once, in order |
| `Tutorials.WeeklyLoad` | cpa_first/engine/study_plan.py:417-436 | only teaching weeks and planned subjects, and at most ceil(m/T) tutorials of a subject a week |
| `TutorialsInFigures.LoadInFigures` | cpa_first/engine/study_plan.py:417-436 | each of the T teaching weeks, those of the first three stages, holds m/T rounded up of a subject's m tutorials until they run out, other weeks none |
| `TutorialsInFigures.StudyOrder` | cpa_first/engine/study_plan.py:375-390 | introductory tutorials first, then by priority, then by id; exactly those of the subject |
| `TutorialsInFigures.SubjectsInTurn` | cpa_first/engine/study_plan.py:418-436 | within a week the tutorials come subject by subject, as the subjects are planned |
| `Plan.BuildWeeks` | cpa_first/engine/study_plan.py:565-584 | the nested loops and the final overwrite build the specified calendar |
| `Plan.CalendarShape` | cpa_first/engine/study_plan.py:560-584 | N weeks numbered 1..N with their days and hours, stages never backwards, last week final and alone with the final check |
| `Plan.CoveredByOneWeek` | cpa_first/engine/study_plan.py:125-129 | a remaining day lies in week k exactly when counting back from the first day gives k |
| `Plan.CoverageIsExact` | cpa_first/engine/study_plan.py:120-129 | which days a plan covers under the cap, and none twice |
| `Plan.WholeHorizonCovered` | cpa_first/engine/study_plan.py:120-129 | every remaining day is covered iff the weeks needed fit under `max_weeks` (or are at most one) |
| `Plan.OneYearPlanMissesTheLastDay` | cpa_first/engine/study_plan.py:86-88 | under the default cap a D-365 plan covers all days but the last |
| `Plan.KeepFirstStates` | cpa_first/engine/study_plan.py:548-555 | the dedupe loop keeps the first state of every subject |
| `Plan.FirstStatesAreFirst` | cpa_first/engine/study_plan.py:548-555 | no subject twice, none lost, each with the state it first came with, in order of first appearance |
| `Plan.FallbackHoursAddUp` | cpa_first/engine/study_plan.py:489-493 | the fallback's five entries sum to the week |
| `Plan.FallbackNegativeIff` | cpa_first/engine/study_plan.py:489-493 | they are all non-negative iff the weekly total is non-negative and not three hundredths |
| `Plan.BuildStudyPlan` | cpa_first/engine/study_plan.py:531-596 | fallback exactly when there are no subjects; otherwise calendar, hours and tutorials of the deduplicated subjects |
| `Plan.RoadmapHours` | cpa_first/engine/study_plan.py:560-578 | each week of a roadmap plans every given subject once, never negative time, and sums to the weekly total iff the last clamp does not bite |
| `Plan.RoadmapTutorials` | cpa_first/engine/study_plan.py:586 | over the weeks of a roadmap every tutorial of a planned subject comes once and in order, in teaching weeks only; none without a teaching week |
| `Plan.RoadmapKeepsItsPromises` | cpa_first/engine/study_plan.py:531-596 | the returned roadmap as a whole: no day twice, all days iff the weeks fit, every week the full total iff the clamp does not bite, every tutorial once |
| `PlanInFigures.WeeksInFigures` | cpa_first/engine/study_plan.py:120-122 | the number of weeks: at least one, more only within the cap and while days are left for the last one, and enough for all days unless the cap is reached; only that number is |
| `PlanInFigures.RoadmapWeeks` | cpa_first/engine/study_plan.py:560-584 | a roadmap has that many weeks, numbered from one, each of seven days or what is left, counted down to the exam |
| `PlanInFigures.CalendarAt` | cpa_first/engine/study_plan.py:567-584 | a stage's weeks stand behind those of the stages before it and count i of n; only the very last carries the final check |
| `PlanInFigures.StageWeeksInCalendar` | cpa_first/engine/study_plan.py:562-568 | every stage has as many weeks in the calendar as it was given, none if it was given none |
| `PlanInFigures.RoadmapAllocation` | cpa_first/engine/study_plan.py:563-577 | in every week each subject, in order of first states, has the hours allotted to its own accuracy |
| `PlanInFigures.RoadmapFocus` | cpa_first/engine/study_plan.py:586 | in every week of a roadmap the tutorials come subject by subject, as many of each as fall to that teaching week |
| `PlanInFigures.FallbackInFigures` | cpa_first/engine/study_plan.py:489-493 | each of five subjects gets a fifth of the week to the nearest hundredth, the first one the rest |
| `LearningPath.TracePrerequisites` | cpa_first/engine/learning_path.py:89-132 | terminates on any graph; finds exactly the seed terms within the depth limit, each at its least distance, with a true reason; nodes and reasons are a function of roots, terms and limit |
| `LearningPath.Expand` | cpa_first/engine/learning_path.py:111-131 | one dequeued term: its unseen seed prerequisites are recorded and queued, and the search invariant is kept |
| `LearningPath.ClosedTraceIsExact` | cpa_first/engine/learning_path.py:89-132 | soundness and closure of an emptied queue give minimal depths |
| `LearningPath.WithinMeansPath` | cpa_first/engine/learning_path.py:96-97 | being within k steps is having a prerequisite path of at most k steps from a root |
| `LearningPath.OrderPath` | cpa_first/engine/learning_path.py:204-209 | keeps as many terms as allowed, none deeper than one left out, deepest first |
| `LearningPath.TruncationKeepsParents` | cpa_first/engine/learning_path.py:202-209 | a kept term below a root has a kept parent one step closer that lists it and is studied later |
| `LearningPath.PathIsUnique` | cpa_first/engine/learning_path.py:204-209 | the same nodes always give the same path |
| `LearningPath.PathIsDetermined` | cpa_first/engine/learning_path.py:8 | the same weak concepts and terms always give the same path |
| `LearningPath.MatchConcept` | cpa_first/engine/learning_path.py:60-86 | returns the best match, and nothing only when no term answers to any variant |
| `LearningPath.BestMatchIsUnique` | cpa_first/engine/learning_path.py:60-86 | the match does not depend on the order in which terms are stored |
| `LearningPath.BestCandidateMeans` | cpa_first/engine/learning_path.py:64-68 | an equal form beats all, then the longest form inside the concept, then the shortest around it |
| `LearningPath.RootsAreFirstMatches` | cpa_first/engine/learning_path.py:190-200 | the roots are exactly the matched terms, each once, under the first label that matched it, in the order of those labels |
| `LearningPath.MatchAll` | cpa_first/engine/learning_path.py:190-200 | the loop computes those roots, and the labels without a match in order, each once |
| `LearningPath.BuildLearningPath` | cpa_first/engine/learning_path.py:176-209 | matching, exact trace with its reasons, and truncated order together |
| `ConceptMatching.VariantsAreReadings` | cpa_first/engine/learning_path.py:49-57 | a concept is tried as a whole, trimmed and with plain colons, and then as what follows its first colon, trimmed; every concept has exactly these readings |
| `ConceptMatching.MatchMeansBest` | cpa_first/engine/learning_path.py:60-86 | a concept is matched to `u` iff `u` is best for the whole, or, where no name is related to the whole, for the text behind the colon; best is the equal name, then the longest inside, then the shortest around, then the smallest id |
| `ConceptMatching.UnmatchedIff` | cpa_first/engine/learning_path.py:60-86 | a concept stays unmatched iff no name or alias equals, contains or is contained in either reading |
| `ConceptMatching.NameIsMatched` | cpa_first/engine/learning_path.py:64-68 | a concept that is a term's name or alias is matched to a term of that name, the one with the smallest id |
| `ConceptMatching.TraceFindsChains` | cpa_first/engine/learning_path.py:89-132 | found are exactly the ends of prerequisite chains of at most `max_depth` steps from a root, and the depth is the length of a shortest one |
| `TraceOrder.TraceIsBreadthFirst` | cpa_first/engine/learning_path.py:101-131 | the trace visits the roots in their order, then what each visited term lists, in the order of its list; every other term is there because of the first visited term that lists it, with that term's concept |
| `ConceptMatching.PathInFigures` | cpa_first/engine/learning_path.py:204-209 | deep terms first, equally deep ones by id; what is left out is deeper than all that is kept, or as deep with a greater id |
| `ConceptMatching.UnmatchedInOrder` | cpa_first/engine/learning_path.py:193-197 | labels without a match are listed in the order in which they first came |
| `Sessions.AuthService.RevokeAllUserRefreshTokens` | cpa_first/db/repositories.py:86-96 | the loop revokes all and only the user's unrevoked tokens |
| `Sessions.AuthService.GetActiveRefreshToken` | cpa_first/db/repositories.py:68-77 | finds a token iff it is stored, unrevoked and not past its expiry |
| `Sessions.AuthService.HandleRegister` | cpa_first/auth/router.py:117-134 | the handler is the register step |
| `Sessions.AuthService.HandleLogin` | cpa_first/auth/router.py:139-157 | the handler is the login step |
| `Sessions.AuthService.HandleRefresh` | cpa_first/auth/router.py:162-192 | the handler is the refresh step, reuse branch included |
| `Sessions.AuthService.HandleLogout` | cpa_first/auth/router.py:196-209 | the handler is the logout step |
| `Sessions.OneLiveTokenPerLineage` | cpa_first/auth/router.py:98-192 | in every reachable state each lineage of tokens holds at most one unrevoked token, and one owner |
| `Sessions.StepKeepsInvariant` | cpa_first/auth/router.py:117-209 | every request keeps that invariant |
| `Sessions.RevocationIsFinal` | cpa_first/db/repositories.py:80-96 | over any run a revocation time once set never changes and no token is lost |
| `Sessions.OneRefreshPerToken` | cpa_first/auth/router.py:168-192 | in any run a token is refreshed successfully at most once |
| `Sessions.ReplayIsDetected` | cpa_first/auth/router.py:171-183 | presenting a used token later is refused and leaves its owner without a live token |
| `Sessions.ShutOutUntilLogin` | cpa_first/auth/router.py:171-192 | until the owner logs in again no request gives it a token |
| `Sessions.RefreshGrantedIff` | cpa_first/auth/router.py:168-192 | in reachable states a refresh is granted iff the token is stored, unrevoked and unexpired, and to its own user |
| `Sessions.ReuseShutsOutOwner` | cpa_first/auth/router.py:171-183 | in any run, presenting a revoked token is refused, changes no other user's token, and leaves its owner without a live or newly issued token until the next login |
| `Sessions.GrantedTokenCanBeExchanged` | cpa_first/auth/router.py:98-112 | in any run a token just handed out can be exchanged by its user until its lifetime ends |
| `Sessions.LogoutEndsToken` | cpa_first/auth/router.py:196-209 | after logout the token is never accepted again while the clock does not run backwards |
| `SessionReplies.RegisterGrantedIff` | cpa_first/auth/router.py:117-134 | after any run a registration is granted iff nobody registered the email before, and a conflict otherwise |
| `SessionReplies.LoginGrantedIff` | cpa_first/auth/router.py:139-157 | after any run a login is granted to `u` iff the password is right and `u` registered the email; otherwise refused |
| `SessionReplies.RegisteredCanLogIn` | cpa_first/auth/router.py:139-157 | whoever registered gets in with the right password, as the same user, whatever was requested in between |
| `SessionReplies.GrantStores` | cpa_first/auth/router.py:98-112 | what is granted is stored for its user, unrevoked, until exactly one lifetime from now; a refresh revokes the presented token, and nothing else changes |
| `SessionReplies.RefusalChangesNothing` | cpa_first/auth/router.py:168-187 | a refused request that presents no revoked token leaves the store as it was |
| `SessionReplies.ReuseRevokesTheOwner` | cpa_first/auth/router.py:176-183 | a revoked token presented for refresh revokes, now, each unrevoked token of its owner and nothing else |
| `SessionReplies.LogoutRevokesItsToken` | cpa_first/auth/router.py:196-209 | a logout revokes, now, the presented token if it is unrevoked and unexpired, and nothing else |
| `Recommend.ScoreItem` | cpa_first/engine/recommend.py:96-149 | the accumulated and rounded score is the specified one |
| `Recommend.ScoreGap` | cpa_first/engine/recommend.py:40-50 | apart from attempts, above 2.1 for fail-risk questions and at most 1.6 for all others |
| `Recommend.FailRiskOutscores` | cpa_first/engine/recommend.py:40-50 | fail-risk is half a point ahead, rounding included, unless it alone was attempted, and not behind even then |
| `Recommend.FailRiskTiesIff` | cpa_first/engine/recommend.py:8-9 | attempted fail-risk against untried other: a tie exactly when both are hardly on their side of the fail line, strictly ahead otherwise, for any nearest rounding |
| `Recommend.AttemptedFailRiskMayTie` | cpa_first/engine/recommend.py:8-9 | a pair of questions that ties under every rounding |
| `Recommend.SignalsPullRight` | cpa_first/engine/recommend.py:107-149 | an attempt costs half a point, and lower accuracy never lowers the score |
| `Recommend.FailRiskRanksFirst` | cpa_first/engine/recommend.py:267-274 | in the ranking every fail-risk question precedes every other of equal attempt status |
| `Recommend.FailRiskRanksFirstIff` | cpa_first/engine/recommend.py:267-274 | at any attempt status a fail-risk question comes first in the ranking unless it ties and the other has the smaller id |
| `Recommend.FailRiskChosenFirst` | cpa_first/engine/recommend.py:267-278 | no other question is recommended while a fail-risk one of its attempt status is left out |
| `Recommend.SkipsAreStable` | cpa_first/engine/recommend.py:200-235 | as many skips as asked for or available, only of stable subjects, nothing recommended, and none passed over was more stable |
| `Recommend.UniqueItems` | cpa_first/engine/recommend.py:58-68 | the loop keeps the first item of each id |
| `Recommend.Pass` | cpa_first/engine/recommend.py:184-196 | one pass over the queues pops the next item of each subject until the quota is met |
| `Recommend.BalancedSolveEntries` | cpa_first/engine/recommend.py:174-197 | the nested loops terminate with the specified round robin |
| `Recommend.ColdStartShape` | cpa_first/engine/recommend.py:174-197 | min(n, items) entries, of each subject a prefix by id, no subject two ahead of one not exhausted |
| `Recommend.ColdStartIgnoresOrder` | cpa_first/engine/recommend.py:174-197 | with distinct ids the result does not depend on the input order |
| `Recommend.RecommendProblems` | cpa_first/engine/recommend.py:253-285 | negative counts ask for nothing; cold start exactly when no subject state exists; otherwise the top of the ranking and the skips |
| `RecommendInFigures.PointsInFigures` | cpa_first/engine/recommend.py:96-149 | the points up to rounding: weakness, 1.5 for fail-risk, 0.8 for a weak concept, 0.2 for a short question under time pressure, 0.5 off for an attempt, one half for an unknown subject; the signals stated from concepts, tags and seconds |
| `RecommendInFigures.StateOfMeans` | cpa_first/engine/recommend.py:256-258 | the state that counts for a subject is the last one given |
| `RecommendInFigures.FirstItemsAreFirst` | cpa_first/engine/recommend.py:58-68 | exactly the first item of each id is kept |
| `RecommendInFigures.RankingFollowsPoints` | cpa_first/engine/recommend.py:273-274 | the ranking holds all items, more points first and equal points by id |
| `RecommendInFigures.NothingBetterIsLeftOut` | cpa_first/engine/recommend.py:273-279 | as many as asked for or available, and nothing left out has more points than anything recommended, or as many and a smaller id |
| `RecommendInFigures.SkipsInFigures` | cpa_first/engine/recommend.py:200-235 | skipped are questions of subjects at 75% or more that are not recommended, the most stable first and then by id, and none that should come earlier is left out |
| `RecommendInFigures.ColdStartOrder` | cpa_first/engine/recommend.py:174-197 | round by round, the subjects of a round in ascending order, each with its next item by id |
| `ExamText.ExtractSharedBlocks` | scripts/parse_real_exams.py:204-224 | the search-and-cut loop terminates, leaves no heading, and equals its specification |
| `ExamText.FindStarts` | scripts/parse_real_exams.py:248-258 | the scan accepts exactly the specified markers |
| `ExamText.BlocksTile` | scripts/parse_real_exams.py:248-263 | for any text the accepted blocks tile it from the first marker to the end, numbers rising by one to four |
| `ExamText.PartsJoin` | scripts/parse_real_exams.py:264 | cutting at the circled marks loses nothing |
| `ExamRendering.ParseRendered` | scripts/parse_real_exams.py:263-280 | one rendered question is parsed back even when its stem has circled marks |
| `ExamRendering.ExtractFrom` | scripts/parse_real_exams.py:204-224 | extraction removes the shared blocks of a rendered exam question by question |
| `ExamRendering.StartsOfRendered` | scripts/parse_real_exams.py:248-258 | in a rendered exam exactly the questions' own markers are accepted, up to the first false one |
| `ExamClarity.FalseMarkerCuts` | scripts/parse_real_exams.py:248-263 | a line inside a question that starts with one of the next four numbers cuts its block short |
| `ExamClarity.ParsedIsPlain` | scripts/parse_real_exams.py:264-281 | whatever the block, its choices come out trimmed and free of circled marks |
| `ExamClarity.BlockHoldsQuestion` | scripts/parse_real_exams.py:264-281 | a block that yields five choices is at least as long as its number, stem, marks and choices together |
| `ExamClarity.RenderThenSplit` | scripts/parse_real_exams.py:240-290 | splitting a rendered exam returns numbers, choices and stems, with shared blocks and premises restored, if and only if cover and questions are clear and the numbers have gaps of at most three |
| `ExamClarity.SwallowedShows` | scripts/parse_real_exams.py:273-279 | a stem that swallowed earlier text is never equal to the true one, whatever premises and shared blocks are put in front |
| `ExamText.SplitQuestions` | scripts/parse_real_exams.py:240-290 | the whole splitter equals its specification |
| `ExamRendering.FullStemIsPrinted` | scripts/parse_real_exams.py:275-279 | the stem of each question of a printed exam is the cover's premises, then heading and data of the last block that names its number, then its own text, as printed |
| `ExamRendering.PremisesArePrinted` | scripts/parse_real_exams.py:227-237 | the premises found are those of the printed cover, in order |
| `ExamBlocks.BlockYields` | scripts/parse_real_exams.py:264-281 | any block at all: the last five circled marks are the choices if they are the five in order, otherwise the first five at most; the stem is what precedes them, and more than five marks are reported |
| `ExamBlocks.LoneHeading` | scripts/parse_real_exams.py:212-224 | a heading whose question never starts is cut out alone and stands for both its questions |
| `ExamBlocks.StripTakesBlanksOnly` | scripts/parse_real_exams.py:219 | trimming takes away blanks at the ends and nothing else |
| `Explanations.GenerateExplanation` | cpa_first/explain_gen/generator.py:58-110 | the retry loop yields the specified record |
| `Explanations.StatusMeaning` | cpa_first/explain_gen/generator.py:50-80 | verified iff some allowed call gave the key, backend error iff all failed, otherwise by the last answer |
| `Explanations.ChosenIsLastAnswer` | cpa_first/explain_gen/generator.py:67-80 | the stored choice is that of the last call that was answered, and -1 without any |
| `Explanations.Workspace.RunBatch` | cpa_first/explain_gen/generator.py:135-166 | the batch loop, skips and the stop after five failures included, equals its specification |
| `Explanations.RecordsAreFinal` | cpa_first/explain_gen/generator.py:126-134 | over any sequence of batches every write adds a file that was not there, no file is written twice, none changes afterwards, and all stay honest |
| `Explanations.RunStaysHonest` | cpa_first/explain_gen/generator.py:82-98 | no backend error is ever stored, and verified means the key was chosen |
| `Explanations.CountsAddUp` | cpa_first/explain_gen/generator.py:136-158 | a batch handles its questions in order and counts each by what happened to it; it stops exactly on the fifth backend error since the last stored record |
| `Explanations.CallsAreBounded` | cpa_first/explain_gen/generator.py:67-70 | only questions not skipped cost solver calls, each at most the allowed attempts |
| `Explanations.CleanRunIsComplete` | cpa_first/explain_gen/generator.py:126-131 | a batch without backend errors leaves a record for every question |
| `Explanations.RerunIsIdle` | cpa_first/explain_gen/generator.py:141-143 | running again over finished work changes nothing and asks the solver nothing |
| `Explanations.ResumeIsSeamless` | cpa_first/explain_gen/generator.py:126-134 | after any batches cut off or stopped by a failing backend, a batch without backend error leaves the files of one uninterrupted batch, up to the number of attempts |
| `Explanations.SteadyResumeIsExact` | cpa_first/explain_gen/generator.py:1-5 | with a backend that never fails the attempts agree as well |
| `BatchInFigures.RecordInFigures` | cpa_first/explain_gen/generator.py:58-107 | a record: calls up to the first right answer or the limit, status and choice by what those calls came to, one by one |
| `BatchInFigures.PathsTellApart` | cpa_first/explain_gen/generator.py:112-114 | two questions share a file iff they agree in id and year |
| `BatchInFigures.StoredIsExplained` | cpa_first/explain_gen/generator.py:138-159 | the record last written to a path is what the calls made at that point came to, with and without skipping |
| `BatchInFigures.NothingSkipped` | cpa_first/explain_gen/generator.py:140-142 | a batch told not to skip skips nothing |
| `BatchInFigures.CountersCountRecords` | cpa_first/explain_gen/generator.py:144 | each counter is the number of files of that status that the batch added |
| `BatchInFigures.StopsOnTheFifth` | cpa_first/explain_gen/generator.py:145-157 | a batch stops iff five questions have failed since the last stored record, and until then handles every one |
| `Practice.ListPractice` | cpa_first/api/main.py:777-805 | the scan returns the first questions past the cursor that pass the filter, and a cursor iff the page is full |
| `Practice.FollowCursor` | cpa_first/api/main.py:777-805 | following the cursor terminates and collects the specified walk |
| `Practice.WalkIsComplete` | cpa_first/api/main.py:460-462 | with distinct ids the walk returns the filtered list once and in order, in full pages plus one requests |
| `Practice.WalkCompleteIff` | cpa_first/api/main.py:788-805 | for one page size the walk is whole iff no page boundary falls between two questions of the same id |
| `Practice.WalkCompleteForAllLimits` | cpa_first/api/main.py:788-805 | it is whole for every page size iff no two questions share an id |
| `Practice.EmptyIdTurnsBack` | cpa_first/api/main.py:795-805 | the first page sends the client back to the start iff it ends in an empty id |
| `PageInFigures.PageHolds` | cpa_first/api/main.py:777-805 | a page of 1 to 50 holds, in list order and without a gap, the questions whose subject, unit, source and year agree with each filter that is set and whose id is behind the cursor; its cursor is the last id, iff it is full |
| `TermGraph.WordsMatchWhole` | scripts/build_term_graph.py:68-75 | an ASCII form is found in a text iff it is one of the text's maximal runs of letters and digits |
| `TermGraph.EdgesToRag` | scripts/build_term_graph.py:137-168 | the nested loops produce the specified edges |
| `TermGraph.EdgesConfusable` | scripts/build_term_graph.py:228-249 | the nested loops produce both directions of every pair |
| `TermGraph.Deduplicate` | scripts/build_term_graph.py:285-295 | exactly one edge per key, a heaviest one, in sort order |
| `TermGraph.HeaviestIsMax` | scripts/build_term_graph.py:285-291 | every key survives with its greatest weight and nothing is invented |
| `TermGraph.BuildEdges` | scripts/build_term_graph.py:271-295 | all matchers' edges, deduplicated and sorted |
| `TermGraph.WeightMeansKeyword` | scripts/build_term_graph.py:146-168 | a stored weight is 2 iff a keyword matched, else 1 |
| `TermGraph.ConfusableIsSymmetric` | scripts/build_term_graph.py:228-249 | confusable edges are stored in both directions |
| `TermGraph.TermIndex.constructor` | cpa_first/rag/term_index.py:115-122 | filling the tables edge by edge gives both lookups for every chunk and term |
| `TermGraph.IndexAgreesWithMatching` | cpa_first/rag/term_index.py:150-154 | the index says exactly what matching surface forms says, both ways, without repeats |
| `GraphInWords.MentionsMeansFound` | scripts/build_term_graph.py:68-75 | a form is found iff it stands in the text, and, if made of Latin letters and digits only, not inside a longer word |
| `GraphInWords.EdgeToChunk` | scripts/build_term_graph.py:137-168 | an edge iff a name or alias of two characters or more is a keyword or stands in the text; two with a keyword, else one; the evidence is the first such name |
| `GraphInWords.GraphHolds` | scripts/build_term_graph.py:271-295 | the same for the stored graph, over all terms and chunks of the given ids |
| `GraphInWords.ConfusableIsStored` | scripts/build_term_graph.py:228-249 | two terms are stored as confusable iff one declares the other, with weight one and a declared reason |
| `GraphInWords.GivenEdgesAreStored` | scripts/build_term_graph.py:277-291 | every edge of problems, tutorials and prerequisites is stored as given or as a no lighter one that agrees with it, and nothing is stored from anywhere else |
| `GraphInWords.DeduplicationKeeps` | scripts/build_term_graph.py:285-291 | kept is, of edges that agree in source, kind, target and relation, the first of the heaviest, and nothing else |
| `GraphInWords.EdgesInOrder` | scripts/build_term_graph.py:54-55 | stored edges are ordered by source, name of kind, target, name of relation |
| `GraphInWords.ChunksInOrder` | cpa_first/rag/term_index.py:119-122 | the chunks of a term are listed in ascending order |

## Left out

- IEEE floating point: hours, scores and quotas are exact, so float ties and last-digit errors are not modelled.
- Interleaving inside a request: each handler is one atomic step, so two simultaneous refreshes of one token are not modelled.
- Cookies, access tokens, password and token hashing, rate limits, email normalisation and validation, user roles: not part of this model; an email is taken as already normalised.
- Several clock readings within one handler: one time per request.
- Regular expressions: the splitter works on tokens (line-start numbers, circled marks, shared headings, premises, words, blanks); which characters form a token is not modelled, nor is the filter that tells a premise from boilerplate, nor the stray reference mark stripped from the end of a choice.
- PDF extraction, answer tables, lossy flags and record files of the exam parser.
- Practice sets, past-exam years, mock exams and wrong-answer reviews among a week's contents (lines 438-486 of `study_plan.py`): only tutorials are laid out.
- The fallback plan's week, the feasibility verdict, the strategy summary, reasons, themes and evidence references: texts and easy arithmetic.
- Resources and confusable terms attached to a learning-path entry: lookups by id; Unicode white space in concepts beyond space, tab and line ends.
- Edges to problems and tutorials, and prerequisite edges: they enter `BuildEdges` as given lists that claim no chunk definition, since their loops repeat the one for chunks.
- Query expansion over the term index; loading and writing of JSON files; time stamps, models and texts in explanation records.
- Reasons, evidence notes and units in recommendation entries.
- FloorKept: the bound carries the debt term, because the code breaks the plain 15% promise without it.
- FloorBroken: stated for debts above (n-1)/2 hundredths; below that it depends on how the other shares were rounded, and FloorKeptIff decides it.
- EnoughHoursAreConserved: sufficient, not necessary; HoursAddUp has the exact condition.
- RenderThenSplit: for exams whose headings of shared blocks stand right before their question, and whose questions have five choices.
- ResumeIsSeamless: for solvers that give the same answer whenever they answer the same question, and questions with a path of their own.
- BuildStudyPlan: the feasibility verdict, the other week contents and the texts are not part of the returned plan.
