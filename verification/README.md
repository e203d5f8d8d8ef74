# VulnerableCode: a verified model

VulnerableCode collects advisories, merges them, ties them to packages and keeps the
collecting pipelines running. This project models the parts of it that are algorithms or
state machines, and proves what they promise for every input and over every history.

Code that updates things in place is modelled by classes and methods with loops, each proved
against a function on values; the theorems are about those functions. Where a promise does
not hold, the exact condition under which it does is proved, with a concrete counterexample.

| module | models |
|---|---|
| `Connectivity`, `Listings`, `Ordering`, `Text`, `Options` | chains of overlapping sets, duplicate-free lists, sorting, strings, result types |
| `Advisories`, `AdvisoryGrouping` | the list-scan merge of advisories |
| `DisjointSets`, `AdvisoryUnionFind` | the union-find merge that replaced it |
| `AliasImport` | the alias and vulnerability tables under import |
| `PackageRelations` | the confidence rule of package relations |
| `PipelineRuns`, `RunProtocol`, `PipelineTasks` | a run's life cycle, the run protocol as a step system, the task functions over stored runs |
| `PipelineSchedules` | schedules and the scheduler jobs that fire them |
| `VersionRanks` | the stored version rank and the queries that rely on it |
| `GenericVersions`, `Constraints` | VulnTotal's versions, and the evaluators of its constraint notations |
| `GitlabClauses`, `GitlabShapes`, `GitlabIntervals` | what GitLab's operator and bracket notations mean, and on which texts |
| `ScoreBoard` | VulnTotal's score board |
| `Base32` | the custom base 32 and the VCID |
| `PageCrawl`, `NearestPatched`, `CanonicalValues` | the PostgreSQL page crawl, nearest patched packages, canonical values |

## Main results

- Both merges return exactly the connected components of "shares an identifier", whatever the
  input order; the fast one refines the slow one group by group. The list scan repeats a group
  exactly when an advisory that shares no identifier is listed twice; the fast merge lists a
  primary again exactly when a row that heads its component was loaded as two objects.
- After any import history two aliases are on one vulnerability exactly when a chain of
  overlapping calls joins them.
- A pipeline never has two live runs exactly when six things hold: the queue recognises run ids
  or no queued run is stopped, no run is stopped between being created and being queued, none
  between being picked by a worker and being started, only active schedules fire,
  `requeue_missing_jobs` does not run, and no two firings of one pipeline overlap between reading
  the status and creating the run. For each there is a trace that ends with two. Under them no
  live run is forgotten exactly when no firing dies with a created run in its hands, no worker
  dies without record, and no recorded death is forgotten by the queue server.
- Saving a schedule keeps jobs and schedules in step exactly when nothing the job depends on
  changed, or Redis being up and validation passing coincide, or the schedule neither was nor
  becomes active.
- Ranks agree with version order over all histories exactly when nobody saves a package loaded
  earlier or writes ranks computed earlier; and the rank queries answer in versions, exactly so
  also for an object loaded before its group was ranked.
- For VulnTotal's versions any two are in exactly one of less, equal and greater, and dotted
  numbers are ordered by the first numbers that differ. Less is transitive on exactly those
  kinds of components whose first disagreement is not two numbers against one text; equality
  chains through a version exactly when that is no shorter than one of the two others; and the
  two mix on exactly the kinds given.
- GitLab's bracket notation denotes the union of its items exactly when no item is an exact
  version; its operator notation denotes a disjunction of conjunctions on exactly the shapes
  where no blank is mistaken for a delimiter, or missed as one.
- Every comparison sort, whichever pairs it compares, raises on a list exactly when some two
  items do not compare; so canonical values forget order, type errors included.
- Two VCIDs are equal exactly when their prefixes and the first 60 bits of their UUIDs are, and
  those bits are what the letters of an id spell.

## Where code and comment differ

- `calculate_version_rank` says it interpolates one rank; the code ranks the whole group again.
- `canonical_value` promises a value; the code raises a TypeError when a sort meets a number
  and a tuple, as in `[1, [2]]`.
- `mark_stale_runs` says it marks runs as stale; the code stops them, which ends in STALE,
  STOPPED or FAILURE depending on the job.
- `get_vulns_for_aliases_and_get_new_aliases` says new aliases are not in the database; the code
  returns the ones in the database without a vulnerability.

## Model

| member | source | states |
|---|---|---|
| Advisories.LinkIsSharing | vulnerabilities/utils.py:916-921 | two advisories are in one index entry exactly when their ids are equal, the id of one is an alias of the other, or they have an alias in common |
| Advisories.HoldersAre | vulnerabilities/utils.py:916-921 | an identifier's entry holds exactly the advisories with that id or with that alias |
| Advisories.TogetherExactlyWhenChained | vulnerabilities/utils.py:905-909 | in the intended partition two advisories are together exactly when a chain of shared identifiers joins them |
| Advisories.MissingPrecedenceGivesWay | vulnerabilities/utils.py:956 | in every group returned, a missing precedence loses exactly to precedences above -1, and precedences compare as numbers |
| AdvisoryGrouping.IndexByIdentifier | vulnerabilities/utils.py:912-921 | the index maps each identifier that occurs to exactly the advisories carrying it |
| AdvisoryGrouping.MergeOne | vulnerabilities/utils.py:927-938 | the popping scan computes the recursive scan of the kept groups |
| AdvisoryGrouping.OnePassIsEnough | vulnerabilities/utils.py:930-936 | a single left-to-right pass ends with a group that is disjoint from everything kept and internally connected |
| AdvisoryGrouping.MergeOverlapping | vulnerabilities/utils.py:925-938 | the merged sets are pairwise disjoint and are exactly the connected components of the input sets |
| AdvisoryGrouping.GroupedExactlyWhenSharing | vulnerabilities/utils.py:923-946 | an advisory ends outside the merged groups exactly when nobody shares an identifier with it |
| AdvisoryGrouping.FinalSetsAreComponents | vulnerabilities/utils.py:923-946 | dropping one-element index entries and adding singletons later loses and adds no component |
| AdvisoryGrouping.FinalSetsDisjoint | vulnerabilities/utils.py:944-946 | the final groups overlap exactly when an ungrouped advisory is repeated in the input |
| AdvisoryGrouping.RepeatedAdvisoryOverlaps | vulnerabilities/utils.py:944-946 | for the list of one advisory twice the code appends its one-element group twice |
| AdvisoryGrouping.PickPrimary | vulnerabilities/utils.py:956 | the primary is a member of maximal precedence, None counting as -1 |
| AdvisoryGrouping.BuildGroup | vulnerabilities/utils.py:950-960 | the group has exactly the given members, their aliases, and every member but the primary once as a secondary |
| AdvisoryGrouping.GetMergedIdentifierGroups | vulnerabilities/utils.py:905-962 | for any list the member sets are the identifier components, every group is valid, and groups are disjoint exactly when no unshared advisory is repeated |
| DisjointSets.Find | vulnerabilities/pipes/group_advisories.py:196-200 | path halving returns the root and changes nobody's root |
| DisjointSets.UnionByRank | vulnerabilities/pipes/group_advisories.py:202-210 | exactly the two sets are joined and the forest stays well formed |
| AdvisoryUnionFind.LinkAll | vulnerabilities/pipes/group_advisories.py:212-220 | afterwards every carrier of an identifier is in the tree filed under it, and every tree is joined by chains |
| AdvisoryUnionFind.CollectTrees | vulnerabilities/pipes/group_advisories.py:222-224 | indices are collected by root, in list order, each root once |
| AdvisoryUnionFind.FirstMax | vulnerabilities/pipes/group_advisories.py:233-236 | the primary is the first member of maximal precedence |
| AdvisoryUnionFind.BuildGroup | vulnerabilities/pipes/group_advisories.py:228-238 | the primary is the first member of maximal precedence, the secondaries are the other objects in list order, and the primary is listed again exactly if another object of the group holds its row |
| AdvisoryUnionFind.LoadedTwiceExample | vulnerabilities/pipes/group_advisories.py:237 | for a row loaded as two objects the secondaries are the primary's row |
| AdvisoryUnionFind.GetMergedIdentifierGroups | vulnerabilities/pipes/group_advisories.py:177-240 | the member sets are the identifier components and the groups are disjoint for every list; each primary is the first of maximal precedence in its component; and all groups are valid exactly when no such row was loaded as two objects |
| AdvisoryUnionFind.FastRefinesScan | vulnerabilities/pipes/group_advisories.py:184-185 | for each group of the list scan the fast merge has one with the same members, the same aliases and a primary of the same precedence, also where rows were loaded twice |
| AliasImport.AliasDatabase.GetOrCreateAliases | vulnerabilities/pipes/advisory.py:54-57 | unknown names get rows that point nowhere, known ones keep theirs, and vulnerabilities are left alone |
| AliasImport.AliasDatabase.GetVulnsForAliasesAndGetNewAliases | vulnerabilities/import_runner.py:349-357 | the given aliases without vulnerability, and the vulnerabilities of the others |
| AliasImport.AliasDatabase.CreateVulnerabilityAndAddAliases | vulnerabilities/import_runner.py:360-372 | succeeds exactly with a free id and some alias; otherwise everything is rolled back |
| AliasImport.AliasDatabase.AssociateVulnerabilityWithAliases | vulnerabilities/import_runner.py:375-377 | exactly the given aliases are pointed to the vulnerability |
| AliasImport.AliasDatabase.GetOrCreateVulnerabilityAndAliases | vulnerabilities/import_runner.py:283-346 | the call has exactly the specified outcome on both tables |
| AliasImport.ReturnsExactly | vulnerabilities/import_runner.py:290-346 | which vulnerability a call returns, and when none, in terms of the aliases' pointers, the request and the tables |
| AliasImport.CallKeepsConsistent | vulnerabilities/import_runner.py:360-372 | pointers stay valid and every vulnerability keeps at least one alias |
| AliasImport.ReturnedCallSettles | vulnerabilities/import_runner.py:286-289 | a call that returns v leaves every given alias on v |
| AliasImport.RefusedCallChangesNothing | vulnerabilities/import_runner.py:328-344 | a call that returns None leaves the tables unchanged exactly unless it created a vulnerability whose change log then failed |
| AliasImport.FailingLogExample | vulnerabilities/import_runner.py:329-344 | one alias, a failing log: None is returned and the alias is assigned |
| AliasImport.EnsuringAddsRows | vulnerabilities/pipes/advisory.py:54-57 | the rows afterwards are the old ones, pointers included, and one pointing nowhere for each new name |
| AliasImport.EnsuredNamesAreImported | vulnerabilities/import_runner.py:283-346 | making sure of names none of which has a vulnerability and importing them returns the new id, with every name on it and nothing else changed |
| AliasImport.EmptyRequestIsNone | vulnerabilities/import_runner.py:283-346 | an empty requested id acts as none |
| AliasImport.RepeatedCallIsIdle | vulnerabilities/import_runner.py:283-346 | repeating a call that returned v returns v and changes nothing |
| AliasImport.NeverRepointed | vulnerabilities/import_runner.py:354-377 | no step moves an assigned alias |
| AliasImport.AssignedForever | vulnerabilities/import_runner.py:354-377 | an assigned alias keeps its vulnerability for the rest of any history |
| AliasImport.SameVulnerabilityExactlyWhenChained | vulnerabilities/import_runner.py:283-346 | after any history two aliases are on one vulnerability exactly when a chain of overlapping effective calls joins them |
| AliasImport.PlainHistory | vulnerabilities/import_runner.py:283-346 | without requested ids and failing logs those calls are exactly the ones that returned a vulnerability, and overlap means sharing an alias |
| PackageRelations.RelationTable.UpdateOrCreate | vulnerabilities/models.py:1218-1250 | the row of the pair is created, replaced by a more confident submission, or kept |
| PackageRelations.TableKeepsEarliestBest | vulnerabilities/models.py:1218-1250 | after any sequence a pair has a row exactly when submitted, and it is the earliest submission of the highest confidence |
| PipelineRuns.PipelineRun.GetStatus | vulnerabilities/models.py:2045-2068 | the status and the write it may cause are those of the specification |
| PipelineRuns.PipelineRun.RunFailed | vulnerabilities/models.py:2094-2112 | true for a positive exit code or a job that died, and in the latter case the end is recorded |
| PipelineRuns.PipelineRun.SetRunStarted | vulnerabilities/models.py:2161-2191 | the start date is now and every other field is as in a new run |
| PipelineRuns.PipelineRun.SetRunEnded | vulnerabilities/models.py:2167-2172 | exit code, output and end date are those given; start date and log stay |
| PipelineRuns.PipelineRun.StopRun | vulnerabilities/models.py:2193-2222 | the run, the queue and the jobs after a stop are those of the specification |
| PipelineRuns.JobServer.DequeueJob | vulnerabilities/tasks.py:154-159 | the id leaves the queue exactly if the queue recognises it |
| PipelineRuns.StatusMeans | vulnerabilities/models.py:2045-2068 | each status in terms of start date, exit code and a killed job, for every row, negative exit codes included |
| PipelineRuns.ReadingRecordsDeath | vulnerabilities/models.py:2094-2112 | reading writes exactly when it finds a killed job and no end: exit code 1, the job's exception as output and the job's end date |
| PipelineRuns.StatusIsStable | vulnerabilities/models.py:2045-2112 | reading the status again gives the same and writes nothing; a terminal status survives the job |
| PipelineRuns.LifeCycleKeepsDates | vulnerabilities/models.py:2161-2222 | the end date is set exactly when the exit code is, through every operation |
| PipelineRuns.StopReachesTerminal | vulnerabilities/models.py:2193-2222 | from every state: raises exactly when the server refuses, terminal afterwards exactly unless a live run was refused, success untouched, dequeues exactly queued runs |
| PipelineRuns.StopEndsIn | vulnerabilities/models.py:2198-2222 | which terminal status, exit code, output, log, end date and job deletion a stop leads to |
| RunProtocol.ReachableIsGood | vulnerabilities/tasks.py:31-159 | in every reachable state a live run is the newest of its pipeline, every queued id is a QUEUED run, and end dates go with exit codes |
| RunProtocol.NoRunForgotten | vulnerabilities/tasks.py:118-151 | under harmless faults every live run is about to be queued, queued, picked or executing |
| RunProtocol.NoRunForgottenExactly | vulnerabilities/tasks.py:118-151 | that holds in all runs of the system exactly under harmless faults |
| RunProtocol.LostRun | vulnerabilities/tasks.py:147-151 | a firing that dies between creating and queueing leaves a run QUEUED in no queue |
| RunProtocol.SilentDeath | vulnerabilities/models.py:2094-2112 | a worker that dies without recorded end leaves a live run with nobody |
| RunProtocol.ForgottenDeath | vulnerabilities/models.py:2094-2112 | a recorded death that the server forgets turns the run live again |
| RunProtocol.FiringCreatesExactly | vulnerabilities/tasks.py:132-151 | a firing does nothing while the newest run is live, and otherwise creates exactly one fresh queued run |
| RunProtocol.FinishSeen | vulnerabilities/tasks.py:54-60 | a run that finishes is seen as success or failure by its exit code, and a run-once pipeline becomes inactive |
| RunProtocol.StartSeen | vulnerabilities/tasks.py:36-39 | a started run is seen running unless its job is on record as killed |
| RunProtocol.FailureSeen | vulnerabilities/tasks.py:106-115 | a run whose failure is called back is seen failed, started or not |
| RunProtocol.DeathSeen | vulnerabilities/models.py:2094-2112 | a worker's death is seen as failure exactly when it is on record |
| RunProtocol.FiringIsThreeSteps | vulnerabilities/tasks.py:132-151 | reading the status, creating the run and queueing it, with nothing in between, is the whole firing |
| RunProtocol.StopTouchesExactly | vulnerabilities/models.py:2198-2222 | a stop touches one run; its id leaves the queue exactly if it was queued and ids are recognised, its job goes exactly if it took the command |
| RunProtocol.NeverTwoLiveExactly | vulnerabilities/tasks.py:132-151 | never two live runs of one pipeline, in any run of the system, exactly under the six conditions |
| RunProtocol.UnrecognisedIds | vulnerabilities/tasks.py:154-159 | if the queue does not recognise ids and queued runs can be stopped, a stopped run starts beside its successor |
| RunProtocol.StopBeforeQueueing | vulnerabilities/tasks.py:147-151 | a stop between creating a run and queueing it leads to two live runs |
| RunProtocol.StopInGap | vulnerabilities/tasks.py:36-39 | a stop between picking and starting leads to two live runs |
| RunProtocol.FiringInactive | vulnerabilities/models.py:2430-2437 | firing a disabled schedule twice creates two queued runs |
| RunProtocol.RequeueingFailed | vulnerabilities/schedules.py:147-152 | requeueing a run that failed before it started leads to two live runs |
| RunProtocol.OverlappingFirings | vulnerabilities/tasks.py:135-149 | two firings that read the status before either creates its run create two queued runs |
| RunProtocol.MarkStaleFinishesAll | vulnerabilities/schedules.py:122-136 | from any state, if no stop is refused, a started run is left unfinished exactly if it was a success without end date, and no other run is touched |
| RunProtocol.MarkStaleEndsAtRefusal | vulnerabilities/schedules.py:122-136 | it raises exactly when some unfinished run's stop is refused, and then leaves the runs older than that alone |
| RunProtocol.MarkStaleInReachable | vulnerabilities/schedules.py:122-136 | from a reachable state no started run is left without end date or exit code |
| RunProtocol.RequeueCoversAll | vulnerabilities/schedules.py:139-156 | from any state, if no stop is refused, a run that never started ends up queued, or ended if it is not the newest of its pipeline |
| RunProtocol.RequeueEndsAtRefusal | vulnerabilities/schedules.py:139-156 | it raises exactly when some missing run that is not the newest refuses its stop, and leaves started runs alone |
| PipelineTasks.TaskStore.ScheduleStatus | vulnerabilities/models.py:2430-2437 | the status of the newest run, with the write reading it may cause; DISABLED when inactive |
| PipelineTasks.TaskStore.EnqueuePipeline | vulnerabilities/tasks.py:132-151 | a run is created and queued exactly when the protocol's operation says so |
| PipelineTasks.TaskStore.StartRun | vulnerabilities/tasks.py:36-39 | one run is started and no other changes |
| PipelineTasks.TaskStore.EndRun | vulnerabilities/tasks.py:54-60 | one run is ended, and a run-once pipeline becomes inactive |
| PipelineTasks.TaskStore.SetRunFailure | vulnerabilities/tasks.py:106-115 | the run of the job is ended with exit code 1; an unknown job is ignored |
| PipelineTasks.TaskStore.MarkStaleRuns | vulnerabilities/schedules.py:122-136 | the loop does what the protocol's operation says |
| PipelineTasks.TaskStore.RequeueMissingJobs | vulnerabilities/schedules.py:139-156 | the loop does what the protocol's operation says |
| PipelineSchedules.Scheduler.CreateNewJob | vulnerabilities/models.py:2439-2452 | the old job goes, an active schedule gets a new one, and without Redis nothing happens |
| PipelineSchedules.Scheduler.SaveSchedule | vulnerabilities/models.py:2350-2361 | tables after a save, including one whose validation raises after the job was replaced |
| PipelineSchedules.Scheduler.ClearZombiePipelineSchedules | vulnerabilities/schedules.py:60-71 | the loop leaves exactly the owned jobs |
| PipelineSchedules.SaveKeepsInStepExactly | vulnerabilities/models.py:2350-2361 | one job per active schedule and no other job survives a save exactly when the save is safe |
| PipelineSchedules.SaveReplacesJob | vulnerabilities/models.py:2439-2452 | a valid save stores its fields only; unless the row has them already, the old job goes and exactly a schedule whose flag is set gets a new one; other jobs stay |
| PipelineSchedules.ClearRemovesExactlyZombies | vulnerabilities/schedules.py:60-71 | from any state exactly the jobs owned by no schedule are removed |
| PipelineSchedules.DeleteKeepsInStepExactly | vulnerabilities/schedules.py:95 | deleting schedules leaves their jobs behind, and keeps jobs and schedules in step exactly when none of them is active |
| PipelineSchedules.RunStepByStep | vulnerabilities/models.py:2350-2361 | a history is its steps one after the other, from empty tables |
| PipelineSchedules.HistoryKeepsOwned | vulnerabilities/models.py:2350-2361 | over every history of valid saves, deletions and clearings each active schedule has its own job and no inactive one has any |
| PipelineSchedules.HistoryInStep | vulnerabilities/schedules.py:60-71 | and there is no other job when every deletion was followed by a clearing |
| NearestPatched.BisectRight | vulnerabilities/utils.py:190 | the position splits the list into what is not greater and what is greater |
| NearestPatched.PairsNeverDecrease | vulnerabilities/utils.py:189-200 | later packages get later fixes, and after one without fix there is none with |
| NearestPatched.NearestPatchedPackage | vulnerabilities/utils.py:176-202 | the vulnerable packages come back as a sorted permutation, each with a resolved package of least greater version, None exactly when there is none |
| VersionRanks.PackageTable.CalculateVersionRank | vulnerabilities/models.py:3826-3847 | the group is re-ranked by version exactly when somebody has no rank; the value returned is the old one |
| VersionRanks.PackageTable.GetNonVulnerableVersions | vulnerabilities/models.py:3849-3884 | both answers are evaluated packages of the group and variant, neither vulnerable nor ghosts, and bound the ranks of all such packages ranked above the object; with rank zero, a least and a greatest such version, next being at or above the package exactly when none was below it |
| VersionRanks.HistoryKeepsAgree | vulnerabilities/models.py:3842-3846 | over every history of adding, removing and re-ranking, without other writers, non-zero ranks are distinct in a group and never contradict versions |
| VersionRanks.HistoriesAgreeExactly | vulnerabilities/models.py:3842-3846 | over all histories that holds exactly when there are no stale saves and no late ranks |
| VersionRanks.OldRankReturns | vulnerabilities/pipelines/v2_improvers/flag_ghost_packages.py:82-92 | a save of a package loaded before a re-ranking, or a re-ranking computed before another, gives two packages one rank |
| VersionRanks.RerankingIsBijection | vulnerabilities/models.py:3842-3846 | a re-ranking numbers the group from 1 to n without gap or repetition and leaves other groups alone |
| VersionRanks.RerankingOnlyWhenNeeded | vulnerabilities/models.py:3841 | nothing is written while every package of the group has a rank |
| VersionRanks.AnswersMatchVersions | vulnerabilities/models.py:3873-3884 | next and latest are evaluated packages of the group and variant, neither vulnerable nor ghosts, bound all such packages by version, and exist whenever one is greater |
| VersionRanks.StaleObjectExactly | vulnerabilities/models.py:3855-3877 | for an object loaded before ranking, next is not below the package's version exactly when, before the call, no qualifying version is; next and latest are least and greatest qualifying versions |
| VersionRanks.StaleObjectExample | vulnerabilities/models.py:3855-3877 | the next version after 2 comes out as 1 |
| GenericVersions.DecomposeJoined | vulntotal/vulntotal_utils.py:15-19 | decomposing undoes joining components with dots, with any run of v and V in front |
| GenericVersions.IntOfDecimal | vulntotal/vulntotal_utils.py:28-30 | reading a number undoes printing it in decimal |
| GenericVersions.LeadingZero | vulntotal/vulntotal_utils.py:28-30 | a leading zero changes nothing |
| GenericVersions.NumericIsDecimal | vulntotal/vulntotal_utils.py:28-30 | every numeric component is zeros followed by the decimal of its number |
| GenericVersions.TextOrder | vulntotal/vulntotal_utils.py:42-46 | texts are ordered by their first difference, a proper beginning being less |
| GenericVersions.VersionEqual | vulntotal/vulntotal_utils.py:24-33 | true exactly when the common prefix agrees |
| GenericVersions.VersionLess | vulntotal/vulntotal_utils.py:35-48 | true exactly when the first difference in the common prefix is less |
| GenericVersions.VersionTrichotomy | vulntotal/vulntotal_utils.py:24-53 | for any two versions exactly one of less, equal and greater holds, and at most is the negation of greater |
| GenericVersions.NumbersInOrder | vulntotal/vulntotal_utils.py:24-48 | versions of one number are ordered as their numbers |
| GenericVersions.DottedInOrder | vulntotal/vulntotal_utils.py:15-48 | written versions of numbers are ordered by the first numbers that differ, and equal when one begins with the other |
| GenericVersions.LessTransitiveExactly | vulntotal/vulntotal_utils.py:35-48 | less is transitive, across lengths, on exactly the kinds whose first disagreement is not two numbers against one text |
| GenericVersions.EqualTransitiveExactly | vulntotal/vulntotal_utils.py:24-33 | equality chains through a version, between all or all-digit versions of two lengths, exactly when it is no shorter than one of the lengths |
| GenericVersions.EqualThenLessExactly | vulntotal/vulntotal_utils.py:24-48 | equal then less gives less on exactly the kinds that cannot be equal, or never disagree first by two equal numbers against a text, nor end in the left version alone |
| GenericVersions.LessThenEqualExactly | vulntotal/vulntotal_utils.py:24-48 | less then equal gives less on exactly the mirrored kinds |
| GenericVersions.AllDigitLaws | vulntotal/vulntotal_utils.py:24-48 | between all-digit versions less is transitive, and equality can be put before or after it unless the version it ties is the shortest |
| GenericVersions.MixedKindsCycle | vulntotal/vulntotal_utils.py:38-45 | 9 < 10 < 1a < 9 |
| GenericVersions.PrefixEqualityNotTransitive | vulntotal/vulntotal_utils.py:27-33 | 1.1 equals 1 and 1 equals 1.2, but 1.1 does not equal 1.2 |
| Constraints.CompareVersions | vulntotal/vulntotal_utils.py:56-71 | each comparator decides its relation, with greater read off the other operand |
| Constraints.ComparatorLaws | vulntotal/vulntotal_utils.py:56-71 | complements, mirror images and brackets fit together for any two versions |
| Constraints.ParsePrint | vulntotal/vulntotal_utils.py:74-90 | parsing undoes printing for every comparator |
| Constraints.ParseReadsSymbols | vulntotal/vulntotal_utils.py:83-90 | which comparator each of the eleven symbols stands for |
| Constraints.CheckAll | vulntotal/vulntotal_utils.py:156-167 | the flag loop computes the recursive reading of a comma list |
| Constraints.GitlabConstraintsSatisfied | vulntotal/vulntotal_utils.py:130-171 | the loops compute the specified result, type errors included |
| Constraints.GithubConstraintsSatisfied | vulntotal/vulntotal_utils.py:93-108 | the loop computes the specified result, type errors included |
| Constraints.GithubIsConjunction | vulntotal/vulntotal_utils.py:93-108 | with blanks anywhere, a comma list is satisfied exactly when every constraint is |
| Constraints.GithubDecides | vulntotal/vulntotal_utils.py:93-108 | on any text, empty pieces and other white space included, all pieces must pass, and the first that does not decides between false and a type error |
| GitlabClauses.GitlabIsDisjunction | vulntotal/vulntotal_utils.py:148-171 | operator notation, with blanks around constraints and alternatives and between comparator and version, is satisfied exactly when some alternative holds throughout, on every harmless shape |
| GitlabClauses.PrintedClause | vulntotal/vulntotal_utils.py:148-159 | a clause printed with commas or with blanks is one of the texts the notation allows for it |
| GitlabShapes.GitlabIsDisjunctionExactly | vulntotal/vulntotal_utils.py:148-171 | all texts of a shape denote their disjunctions exactly when the shape is harmless: with a comma in the text, every blank list has at most one constraint or some alternative is empty; without, a blank between comparator and version comes only after an empty alternative |
| GitlabShapes.GapRaises | vulntotal/vulntotal_utils.py:152-159 | for every other shape without comma some text of it raises |
| GitlabShapes.BlankListMisread | vulntotal/vulntotal_utils.py:152-159 | for every other shape with a comma some text of it rejects a version it lists |
| GitlabShapes.BlankAfterComparatorRaises | vulntotal/vulntotal_utils.py:152-159 | a text that is one constraint with one blank between comparator and version raises for every version |
| GitlabIntervals.PairUpUndoesSplit | vulntotal/vulntotal_utils.py:142-146 | splitting at every comma and pairing up gives the printed intervals back |
| GitlabIntervals.GitlabIsUnionOfIntervals | vulntotal/vulntotal_utils.py:142-171 | bracket notation, with blanks around the bounds and next to the brackets, is satisfied exactly when some interval has both bounds satisfied, an empty bound counting as satisfied |
| GitlabIntervals.GitlabOnItemsExactly | vulntotal/vulntotal_utils.py:142-171 | lists of intervals and exact versions denote their union, for all texts of a shape and all versions, exactly when no item is an exact version |
| GitlabIntervals.ExactVersionIsMissed | vulntotal/vulntotal_utils.py:142-146 | for every shape with an exact version some text of it rejects a version it lists |
| GitlabIntervals.GitlabOnPrinted | vulntotal/vulntotal_utils.py:142-171 | the same for the printed intervals |
| GitlabIntervals.LoneBoundNeverSatisfied | vulntotal/vulntotal_utils.py:142-146 | a bracket text without comma, blanks around it or not, is never satisfied |
| GitlabIntervals.LoneBoundShifts | vulntotal/vulntotal_utils.py:142-146 | an exact version listed before an interval is paired with the interval's lower bound and the upper bound is dropped |
| GitlabIntervals.LoneBoundExample | vulntotal/vulntotal_utils.py:142-146 | [1.0],[2.0,3.0) is satisfied by 5.0 and not by 1.0 |
| Constraints.BareVersionRaises | vulntotal/vulntotal_utils.py:83-103 | a version without comparator makes both evaluators raise |
| ScoreBoard.FillBoard | vulntotal/vulntotal_cli.py:439-490 | an entry exists exactly for different sources of which one is full, and holds half a point per common list |
| ScoreBoard.EntriesAre | vulntotal/vulntotal_cli.py:466-490 | in terms of the lists: which pairs have an entry, and whether it is 0, a half or 1 |
| ScoreBoard.BoardSymmetric | vulntotal/vulntotal_cli.py:466-490 | the board is symmetric |
| ScoreBoard.BoardUnique | vulntotal/vulntotal_cli.py:466-490 | the report alone determines the board, not the order of sources |
| ScoreBoard.CveEntry.Maximum | vulntotal/vulntotal_cli.py:493 | the largest row sum, where row sums count agreeing sources |
| ScoreBoard.CveEntry.Compare | vulntotal/vulntotal_cli.py:435-502 | every source gets the score that its count of agreements and the maximum determine |
| ScoreBoard.ScoresArePercentages | vulntotal/vulntotal_cli.py:493-502 | with a positive maximum all scores are within 0 and 100, ordered as the totals, 100 exactly for the best, and somebody is best |
| ScoreBoard.ScoreIsShare | vulntotal/vulntotal_cli.py:501 | a score is the total's share of the maximum, in percent |
| ScoreBoard.NoPercentExactly | vulntotal/vulntotal_cli.py:496-500 | no percentages exactly when no comparable sources share a list; then a lone source is NA and several are TC |
| Base32.AlphabetLetters | aboutcode/hashid/__init__.py:81-83 | the 32 letters of the alphabet, one per digit |
| Base32.Base32Custom | aboutcode/hashid/__init__.py:88-115 | the loop encodes the groups of five bytes in order |
| Base32.LookUp | aboutcode/hashid/__init__.py:107-114 | four look-ups with indices below 1024 spell the forty bits |
| Base32.EncodeShape | aboutcode/hashid/__init__.py:88-115 | eight alphabet letters for every five bytes begun |
| Base32.RoundTrip | aboutcode/hashid/__init__.py:88-115 | a decoder recovers every input from its encoding and length |
| Base32.InjectiveOnLength | aboutcode/hashid/__init__.py:88-115 | on inputs of one length the encoding is injective |
| Base32.CollisionsExactly | aboutcode/hashid/__init__.py:107-108 | across lengths inputs collide exactly when they have as many groups of five bytes, the same full groups, and last groups that differ in leading zero bytes only |
| Base32.CollisionExample | aboutcode/hashid/__init__.py:107-108 | one zero byte and two zero bytes have the same encoding |
| Base32.DocumentedExample | aboutcode/hashid/__init__.py:96-98 | the bytes of abcd give abtze25e |
| Base32.VcidsEqualExactly | aboutcode/hashid/__init__.py:48-68 | two ids are equal exactly when their prefixes and the first 60 bits of their UUIDs are |
| Base32.VcidSpells | aboutcode/hashid/__init__.py:67-68 | an id is the prefix and three dashed segments of four letters, which in order spell the first 60 bits of the UUID |
| PageCrawl.Crawl | vulnerabilities/importers/postgresql.py:33-46 | on every finite site the crawl ends having fetched exactly the reachable pages, each once |
| CanonicalValues.ComparisonExtends | vulnerabilities/utils.py:633-635 | the order the sort is modelled with agrees with tuple comparison wherever that is defined |
| CanonicalValues.ComparisonMeans | vulnerabilities/utils.py:635 | numbers compare by size and never with tuples; tuples by their first difference, a proper beginning being less |
| CanonicalValues.CompareTransitive | vulnerabilities/utils.py:635 | tuple comparison is transitive: what is less than something less than a value compares with that value |
| CanonicalValues.InsertRaisesExactly | vulnerabilities/utils.py:635 | inserting into a sorted list raises exactly when the new item does not compare with some item, though it stops at the first that is not less |
| CanonicalValues.SortRaisesExactly | vulnerabilities/utils.py:635 | the sort raises exactly when some two items do not compare, and else gives the sorted list |
| CanonicalValues.NumbersAscend | vulnerabilities/utils.py:623-636 | the canonical value of a list of numbers is the numbers in ascending order |
| CanonicalValues.EveryComparisonSort | vulnerabilities/utils.py:635 | every comparison sort that sorts numbers raises on exactly the same lists and returns the same list otherwise |
| CanonicalValues.OneQuestionSorts | vulnerabilities/utils.py:635 | for two items one comparison is such a sort |
| CanonicalValues.CanonicalValueRaisesExactly | vulnerabilities/utils.py:623-636 | the canonical value raises exactly when at some depth two canonical items do not compare |
| CanonicalValues.MixedListRaises | vulnerabilities/utils.py:635 | [1, [2]] has no canonical value |
| CanonicalValues.CanonicalExactlyWhenRearranged | vulnerabilities/utils.py:623-636 | canonical forms are equal exactly when one value is the other with lists reordered at any depth |
| CanonicalValues.CanonicalValueExactly | vulnerabilities/utils.py:623-636 | a value that has a canonical form shares it, type errors considered, with exactly its rearrangements |
| CanonicalValues.RearrangedRaises | vulnerabilities/utils.py:635 | reordering at any depth neither causes nor cures a type error, although it changes which items the sort compares |
| CanonicalValues.CanonicalIdempotent | vulnerabilities/utils.py:623-636 | the canonical value of a canonical value is itself, and computing it does not raise |

## Left out

- Fetching and parsing of advisories, other importers, views, serializers, forms and settings: input, output and user interface.
- The Django ORM, Redis, rq and the version classes are replaced by maps, sets and an arbitrary strict weak order.
- The rq package is not part of this model: whether `job_id in queue.jobs` recognises a run id is the parameter `idsFound`, and whether the server takes a stop command is `accepted`.
- The high and default queues are one set of run ids; the order of jobs in a queue is not modelled.
- A firing is three steps of `RunProtocol`; reading a status, `set_run_started`, `set_run_ended`, `stop_run` and the two housekeeping jobs are one step each on the stored rows, so overlaps within them and saves of objects loaded earlier are not modelled.
- `PipelineRun.requeue` and the deletion of runs are not steps of `RunProtocol`.
- PipelineSchedules.Scheduler.SaveSchedule: the object saved carries the stored work id; an object loaded before another save, or whose row was deleted, is not modelled.
- AliasImport.AliasDatabase.GetOrCreateVulnerabilityAndAliases: summaries are not modelled, and a failing change log is one that does not abort the surrounding transaction.
- The copy of the alias code in vulnerabilities/improve_runner.py, which treats an alias without vulnerability as an existing one.
- PackageRelations.RelationTable.UpdateOrCreate: the change log is not modelled.
- AdvisoryUnionFind.GetMergedIdentifierGroups: objects loaded from one row hold equal rows, and the alias map is the one its caller builds.
- CanonicalValues.CanonicalValueExactly: values are numbers and lists of values; dictionaries are left out because a dictionary and a list of pairs can have the same canonical form.
- GenericVersions.VersionLess: digits are 0 to 9; other numeric characters, on which `int` can raise, are not modelled.
- GitlabIntervals.GitlabOnItemsExactly: versions in written constraints use none of the notation's own characters and no blanks.
- GitlabShapes.GitlabIsDisjunctionExactly: an alternative is separated by commas or by blanks; one that mixes both has no intended meaning here.
- VersionRanks.HistoriesAgreeExactly: other writers save whole packages (as vulnerabilities/pipelines/v2_improvers/flag_ghost_packages.py:92 does) or write a whole late ranking; one that writes only part of a ranking is not modelled.
- Snyk's evaluator is the same code as GitHub's and has no member of its own.
- ScoreBoard.CveEntry.Compare: percentages are exact rationals, without rounding; grouping advisories by CVE before the comparison is left out.
- Severity and weight tables, the SSVC calculator and risk scores: finite tables and one-branch facts.
