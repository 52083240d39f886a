# A verified model of the FlashOS cookbook and its shell client

This Dafny project models the parts of the repository whose behaviour is hard to see by
reading one function, and proves what they promise.

* **The cook pipeline** (`CookPipeline`, `PipelineSafety`, `PromptLaws`, `UiLaws`, `Tui`). A fetcher thread, a cooker
  thread and the UI loop share a work channel, a status channel and one atomic `prompting`
  cell. The model is a transition system. A run is any list of events, each of which lets one
  participant take one atomic step, so a statement about every event list is a statement about
  every interleaving. A channel is the log of everything sent plus a count of what was received.
  The class `Tui.TuiApp` is the UI object itself; its methods are tied to the UI part of the
  transition system. `PromptLaws` says over whole runs what each answer to a failure prompt does,
  `UiLaws` what the keys answer, that logs arrive, and when the UI loop ends.
* **Dependency collection** (`Recipes`, `RecipeEdges`, `RecipeLists`). The depth-bounded collector over an
  arbitrary, possibly cyclic, repository, the three walks built on it with their results and errors
  stated over the edges between recipes on disk, and the assembly of the list the pipeline is
  started with. `DependenciesAreOverBeforeCooking` joins both parts: it
  starts from the recipes on disk and ends in the runs of the pipeline.
* **Staged packages** (`StagedPackages`, `StagedErrors`) and **the tree commands** (`TreeWalk`): two more
  walkers over arbitrary graphs, one with a list and an overlapping error map, one with a shared
  visited set, running totals and an operation that decides where it goes on.
* **The file index** (`Text`, `FileTree`, `FileTreeText`, `FileTreeRoundTrip`, `IndexLabels`).
  The printer of a stage directory, the parser that rebuilds it, and the index over many packages.
* **Shared history** (`History`, `HistorySessions`). The escaped line format, and any number of
  sessions merging into one bounded file under a lock.
* **Identity and caches** (`Ordering`, `Workspace`, `WorkspaceSnapshot`, `PatchHash`, `Sysroot`,
  `StageMove`). The byte stream hashed for a dirty workspace, the fold over patch hashes, the
  tag-checked sysroot, and the routing of staged files into optional packages.
* **Highlighting** (`Highlight`): token segmentation against parser-invalid ranges.

Where the source changes things in place, the model has a class or a loop with the same steps,
proved equal to a function; the theorems are then about that function. In all of them the order
in which a hash set, a directory or a lock is served is arbitrary.

Four properties one would like turn out to hold only under a condition, and the condition is part of
the theorem:

* A printed name is read back from its line exactly under a condition on the name, and for a
  symlink on its target: a file's when it has no whitespace at its ends and does not begin with a
  box character (`FileNameSurvivesExactlyWhen`), a symlink's when besides neither name nor target
  has a `(` and the target has no `->` (`LinkNameSurvivesExactlyWhen`), a directory's when it
  begins with neither whitespace nor a box character and does not end in a slash
  (`DirNameSurvivesExactlyWhen`).
* A build script sees a fresh install of exactly its dependencies, in some order, exactly when
  `clean_target` is on or the sysroot is not one emptied down to these very tags; switching the
  setting off between builds breaks it (`SeenIsFreshExactlyWhen`, `TogglingShowsAnEmptiedSysroot`).
  The order is the current one as long as names keep their prefixes, and makes no difference unless
  two packages hold different contents for one path (`SortedListsSeeFreshExactlyWhen`,
  `ConflictFreeInstallIsUnique`, `ExchangedConflictKeepsTheOldOrder`).
* Strict staged mode compares two counts, so how deep a package is counts only along the way on
  which it is first reached. It accepts exactly when everything reachable is readable and nothing is
  too deep in that sense (`StrictAcceptsExactlyWhen`); `DepthLimitDependsOnOrder` is an instance in
  which `[a, b]` is accepted and `[b]` is not.
* The patch identity notices every single change (`OneChangeIsDetected`) but not every change of
  order: an exchange goes unnoticed exactly when the difference of the two hashes survives one
  rotation for each place between them (`SwapInvisibleExactlyWhen`), so always at distance four.

To verify everything: `dafny verify dfyconfig.toml`.

## Model

| member | source | states |
|---|---|---|
| PipelineSafety.NoWorkerPanics | src/bin/repo.rs:1489-1512 | in every interleaving, with any answers and any list, the prompt cell holds 0 to 4 and neither worker reaches the `unreachable!()` arm of its wait loop |
| PipelineSafety.StatusesFollowThePath | src/bin/repo.rs:1345-1421 | in every interleaving each recipe's shown status is where the legal path (Pending, Fetching, retries, Fetched, Cooking, retries, Cached or Done, or stopped at Failed with the error of the last failure) has got to, and every queued message continues that path |
| PipelineSafety.StatusNeverGoesBack | src/bin/repo.rs:1418-1420 | however a run continues, a recipe once fetched never shows Pending or Fetching again, and Cached and Done are final |
| PipelineSafety.FinishedRunsAreComplete | src/bin/repo.rs:253-266 | without an Exit answer, once the UI has consumed `CookThreadFinished`, and whenever its loop is to stop or has stopped, every recipe shows Cached, Done or Failed, so the summary's `unreachable!()` is dead |
| PipelineSafety.CookingFollowsListOrder | src/bin/repo.rs:1437-1516 | when the cooker starts a recipe, every earlier recipe in the list is cooked, given up on or dropped at fetch, and no worker sends a status about it afterwards |
| PipelineSafety.RankNeverDrops | src/bin/repo.rs:1546-1628 | along any legal message log a recipe's progress never decreases, and a settled recipe stays as it is |
| PipelineSafety.FetcherKeepsPromptSafe | src/bin/repo.rs:1586-1620 | each fetcher step, including the race between checking and swapping the prompt cell, keeps the cell in range |
| PipelineSafety.CookerKeepsPromptSafe | src/bin/repo.rs:1477-1512 | each cooker step keeps the cell in range |
| PipelineSafety.FetcherKeepsInv | src/bin/repo.rs:1546-1628 | each fetcher step (success, failure, any answer, nonstop, dead cooker) keeps the invariant linking the work channel, the program counters and every recipe's phase; which step follows which answer is in the `PromptLaws` rows |
| PipelineSafety.CookerKeepsInv | src/bin/repo.rs:1436-1520 | each cooker step keeps that invariant; leaving the loop, dropping the work channel and announcing the end are separate steps |
| PipelineSafety.UiKeepsInv | src/bin/repo.rs:1640-1929 | each step of a UI frame (draw, keys, draining the status channel, end test), after an Exit answer too, keeps that invariant |
| PipelineSafety.StepKeepsUi | src/bin/repo.rs:1918-1924 | after every step the shown statuses agree with the received part of the status channel |
| PipelineSafety.StepKeepsNothingDropped | src/bin/repo.rs:1570-1585 | as long as no thread was told to stop, a fetched recipe is on the work channel or about to be put there |
| PromptLaws.WithoutRetryOneAttempt | src/bin/repo.rs:1477-1512 | in a nonstop run, and in a run in which the prompt cell never holds Retry, each recipe is started at most once by the fetcher and at most once by the cooker |
| PromptLaws.RetryFetchesAgain | src/bin/repo.rs:1601-1605 | from any reachable state with the fetcher waiting and Retry in the cell: once it has read and acted on the answer, whatever the others do in between, its next step starts fetching that same recipe, and nothing else is sent by it before |
| PromptLaws.RetryCooksAgain | src/bin/repo.rs:1493-1500 | the same for the cooker |
| PromptLaws.SkippedFetchIsOver | src/bin/repo.rs:1606-1609 | once the fetcher has acted on Skip, no later message of any run is about that recipe |
| PromptLaws.SkippedCookIsOver | src/bin/repo.rs:1501-1505 | the same for the cooker |
| PromptLaws.ExitEndsFetching | src/bin/repo.rs:1610-1613 | once the fetcher has acted on Exit it never starts another recipe |
| PromptLaws.ExitEndsCooking | src/bin/repo.rs:1506-1509 | the same for the cooker |
| PromptLaws.NonstopExitEndsSoon | src/bin/repo.rs:1470-1488 | in nonstop mode, while the cell holds Exit, each worker starts at most one more recipe |
| PromptLaws.FailedFetchGetsItsAnswer | src/bin/repo.rs:1586-1601 | outside nonstop mode a worker whose fetch failed claims the free cell and waits, and the option the user confirms is what it then finds there; Exit also stops the UI |
| PromptLaws.FailedCookGetsItsAnswer | src/bin/repo.rs:1477-1493 | the same for the cooker |
| UiLaws.KeysChooseTheAnswer | src/bin/repo.rs:2289-2318 | a new failure is asked about with Exit selected; one step right and Enter answer Retry, two Skip, three open the log, and the quit keys answer Exit from anywhere |
| UiLaws.ArrowsUndoEachOther | src/bin/repo.rs:2300-2317 | next and previous undo each other, four steps come round, and the order is Exit, Retry, Skip, Inspect |
| UiLaws.OnlyPromptsAreAnswered | src/bin/repo.rs:2141-2167 | only Enter and the quit keys answer, only while a prompt shows and no log is inspected, with what is selected or Exit, and left undoes right |
| UiLaws.InspectingComesBack | src/bin/repo.rs:1890-1896 | opening the log of a failure and leaving it brings the same prompt back |
| UiLaws.NonstopOffersNoRetry | src/bin/repo.rs:1875-1878 | drawing turns a selected Retry into Skip in nonstop mode and changes no other prompt, so the first Enter of a frame never answers Retry there |
| UiLaws.TakenCellIsNotClaimed | src/bin/repo.rs:1477-1484 | while the prompt cell is taken no worker begins to claim it, and only the worker acting on the answer or the user changes it |
| UiLaws.FetcherLeavesExactlyWhen | src/bin/repo.rs:1546-1628 | the fetcher leaves its loop if and only if the list is used up, the cooker has hung up, it acts on Exit, or in nonstop mode the cell holds Exit after a recipe |
| UiLaws.CookerLeavesExactlyWhen | src/bin/repo.rs:1436-1512 | the cooker leaves if and only if the fetcher has ended and no work is left, or on Exit as the fetcher does |
| UiLaws.LogsAreForwarded | src/bin/repo.rs:2240-2262 | over any run the chunks of a recipe on the status channel are exactly those logged for it, in order |
| UiLaws.LoopEndsExactlyWhen | src/bin/repo.rs:1640-1929 | the UI loop ends at the check at the end of a frame and nowhere else: if and only if every message sent so far has been received and Exit was answered or the cooker's last message has arrived |
| Names.IndexOf | src/bin/repo.rs:1418 | the search from the front finds the first position, or none exactly when there is none; a status update goes there, and log and history lines are cut there |
| Tui.TuiApp.UpdateStatus | src/bin/repo.rs:1345-1421 | one message changes the UI state exactly as the transition system says, the logs exactly as the line splitter says, and the two active names |
| Tui.TuiApp.SetStatus | src/bin/repo.rs:1418-1420 | only the first recipe with the name changes |
| Tui.TuiApp.SplitChunk | src/bin/repo.rs:1366-1382 | the drain loop leaves the lines and the buffer that splitting the whole buffer at once gives |
| Tui.TuiApp.HandlePromptInput | src/bin/repo.rs:2141-2167 | a key press changes prompt and inspect mode, and answers, as the transition system says |
| Tui.SplitIsFaithful | src/bin/repo.rs:1374-1380 | lines and remainder concatenate to the input, each line ends in its only newline, the remainder has none |
| Tui.SplitConcatenation | src/bin/repo.rs:1366-1382 | splitting two chunks in turn is splitting their concatenation |
| Tui.ChunkingIsInvisible | src/bin/repo.rs:1366-1382 | for any cutting of the bytes into chunks, lines and buffer equal those of one push, and no newline stays buffered |
| Tui.LogShowsTheLatestAttempt | src/bin/repo.rs:1345-1382 | after any messages about any recipes, the log of a recipe holds exactly the lines and the unfinished rest of the bytes logged for it since its latest attempt began |
| Recipes.SucceedsExactlyWhenBounded | src/recipe.rs:315-413 | with at least one recurse flag the collector succeeds if and only if every reachable name resolves and no dependency path has more than `recursion - 1` names |
| Recipes.CollectsExactly | src/recipe.rs:315-413 | under any flags a successful walk returns without duplicates exactly the roots, if collected, and the ends of followed paths whose last edge is a collected one |
| Recipes.OrderedClosure | src/recipe.rs:315-413 | when all that is followed is collected, the result at any depth is the duplicate-free reachable closure with every recipe after what it depends on |
| RecipeEdges.BuildDepsIsTheOrderedClosure | src/recipe.rs:415-431 | `get_build_deps_recursive` succeeds if and only if every path of build edges, and with `include_dev` of dev edges, resolves and has at most 15 names; it then returns the closure along these edges, each recipe once and after what it depends on |
| RecipeEdges.AllDepsIsTheOrderedClosure | src/recipe.rs:452-460 | the same for `get_all_deps_names_recursive` over build edges, package edges and with `include_dev` dev edges |
| RecipeEdges.PackageDepsAreRuntimeEnds | src/recipe.rs:433-450 | `get_package_deps_recursive` succeeds if and only if every path of build and package edges resolves and has at most 15 names; the result is exactly the roots, if included, and every name at the end of such a path whose last edge is a package edge |
| RecipeEdges.OneRecipeInOrder | src/recipe.rs:334-409 | what one recipe brings: the results for its build, dev and package lists, as far as they are followed, in this order without repeats, then itself if collected; the first failure decides the error |
| RecipeEdges.ErrorExplainsItself | src/recipe.rs:315-413 | an error is true: it names a reachable recipe that is not on disk, or its trail read backwards is a followed path from the roots that uses up the depth |
| Recipes.HostDependenciesAreHost | src/recipe.rs:249-271 | a host recipe's mapped build dependencies are exactly the host packages among them other than itself and the host form of the unprefixed ones; target dependencies are dropped |
| Recipes.HostDependenciesInOrder | src/recipe.rs:249-271 | the mapping goes dependency by dependency and keeps their order |
| RecipeEdges.HostClosureIsHost | src/recipe.rs:246-282 | everything a host recipe builds against, however deep, is a host recipe |
| Recipes.FollowAllOk | src/recipe.rs:334-404 | the followed lists of one recipe succeed together if and only if each succeeds |
| Recipes.CollectAllDepsFirst | src/recipe.rs:331-410 | the loop over names keeps dependencies before dependents |
| RecipeLists.NewRecursive | src/recipe.rs:315-413 | the loops with their vector and set compute the collector function, errors and recursion trail included |
| RecipeLists.FollowGroups | src/recipe.rs:334-404 | the followed dependency lists of one recipe, in order, stopping at the first error |
| RecipeLists.FollowGroup | src/recipe.rs:334-356 | one dependency list appended without repeats, or its error with this recipe's name appended |
| RecipeLists.FlattenPackageNames | src/recipe.rs:604-620 | keeps, in order, the first recipe of each flattened name, with flattened names distinct |
| RecipeLists.FlattenKeepsOrder | src/recipe.rs:604-620 | whatever stood before a kept recipe is represented before it |
| RecipeLists.FlatMergesExactly | src/recipe.rs:604-620 | two recipes get one flattened name if and only if they share the base name and are both host recipes or both not; flattening again changes nothing |
| RecipeLists.ConcatenationKeepsOrder | src/bin/repo.rs:711-725 | in the concatenated source, binary and ignored lists every source or binary recipe comes after its build dependencies |
| RecipeLists.DependenciesAreOverBeforeCooking | src/bin/repo.rs:711-726 | end to end: when the cooker starts a source or binary recipe of the assembled list, each of its build dependencies is settled earlier in the log and never touched again |
| StagedPackages.NewRecursiveNonstop | src/staged_pkg.rs:98-158 | the loop over names with its list and map computes the walk function |
| StagedPackages.TakeListed | src/staged_pkg.rs:123-128 | the dependencies' list is merged in order, skipping known names |
| StagedPackages.TakeErrors | src/staged_pkg.rs:129-137 | the dependencies' errors are merged, and any error makes the package invalid, in any map order |
| StagedPackages.NewRecursive | src/staged_pkg.rs:77-94 | strict and nonstop answers; an error returned is that of the smallest failing name, and the search for it always finds one |
| StagedPackages.FindError | src/staged_pkg.rs:91 | the search through the ordered map returns the smallest name with an error |
| StagedPackages.WalkIsWellFormed | src/staged_pkg.rs:98-158 | for every graph: the list has no duplicates, listed names are keys, every other key is an error, dependencies of listed packages are keys, and a listed dependency comes strictly earlier |
| StagedPackages.KeyHasPath | src/staged_pkg.rs:98-158 | only names reachable from the request are recorded |
| StagedPackages.StrictListsAreClosed | src/staged_pkg.rs:85-89 | strict mode returns only lists that are exactly the reachable closure, readable, and dependencies first, hence acyclic |
| StagedPackages.StrictAcceptsExactlyWhen | src/staged_pkg.rs:82-158 | strict mode accepts if and only if every reachable package is readable and none is too deep: following at each level only the first name that reaches it uses up no more than the levels there are |
| StagedPackages.NotTooDeepIsListed | src/staged_pkg.rs:107-155 | a readable package that is not too deep is listed, whatever other errors there are |
| StagedPackages.TooDeepLeavesAGap | src/staged_pkg.rs:112-137 | a package that is too deep leaves something that reaches it recorded as an error and never listed |
| StagedPackages.BoundedIsAccepted | src/staged_pkg.rs:85-89 | in particular strict mode accepts whenever all reachable packages are readable and no path at all has more than `recursion` names |
| StagedPackages.NonstopAnswers | src/staged_pkg.rs:85-86 | in nonstop mode the whole list is returned as soon as one reachable package is readable and not too deep, and that package is in it |
| StagedPackages.NonstopRefuses | src/staged_pkg.rs:85-93 | in nonstop mode an error is returned when names were asked for and none of them can be read |
| StagedErrors.ErrorsExactlyWhen | src/staged_pkg.rs:98-158 | a walk records no error if and only if every reachable package is readable and no path has more names than the limit |
| StagedErrors.RequestedEntry | src/staged_pkg.rs:107-155 | the entry of a requested name that no earlier one reaches and that does not depend on itself is good if and only if its dependencies can all be read within the depth left; otherwise it is its own error or an invalid dependency |
| StagedErrors.InvalidDependencyIsMarked | src/staged_pkg.rs:129-149 | a package with a reachable dependency that is missing or too deep is recorded as having an invalid dependency |
| StagedErrors.PulledInIsGood | src/staged_pkg.rs:123-128 | a listed package that was only pulled in is recorded as good |
| StagedErrors.EntryExplainsItself | src/staged_pkg.rs:107-137 | a recorded error is true: the missing name is reached and not staged, a recursion trail is as long as the limit and, read backwards and followed by the recorded name, a path |
| StagedPackages.DepthLimitDependsOnOrder | src/staged_pkg.rs:107-155 | an instance: on a chain of three, with a limit of two, `[a, b]` is accepted although a path has three names and `[b]` is refused, with `b` both listed and in error |
| StagedPackages.SomeErrorExists | src/staged_pkg.rs:91-92 | whenever no list is returned some entry is an error, so neither `unwrap` fails |
| TreeWalk.WalkRoots | src/cook/tree.rs:41-129 | for any answers of the operation, which depend on the name and on how it is met (missing, not visited yet, visited), any graph and any child order: the visited recipes are exactly those reachable from the roots through recipes the operation lets through, each counted and weighed once; an early end is due to broken metadata of a visited recipe or to the operation failing on a name it met; a walk without errors got no failure from the operation for anything it met first and found no broken metadata in the push tree |
| TreeWalk.HandleTree | src/bin/repo.rs:1007-1026 | with the displaying operation nothing is skipped, so all that is reachable is visited unless metadata is broken |
| TreeWalk.HandlePush | src/bin/repo.rs:912-988 | with the pushing operation a run without errors visits exactly the listed recipes it did not answer "cached" for, with both totals over that set, none of the listed recipes failed, and all visited metadata can be read |
| TreeWalk.Walker.WalkTreeEntry | src/cook/tree.rs:41-129 | one call keeps the totals exact, adds only what is reachable through recipes let through, and leaves everything visited closed under children except below callers still running; a name met again changes nothing and only the operation's answer counts |
| TreeWalk.Walker.WalkChildren | src/cook/tree.rs:111-126 | the loop over the children closes the entry just visited, in any order |
| TreeWalk.PathStaysInside | src/cook/tree.rs:76-80 | a path cannot leave a set of visited recipes that is closed under children |
| TreeWalk.SumInsert | src/cook/tree.rs:81-92 | the total over a set grows by exactly the weight of a new member |
| TreeWalk.BuildTotalCountsUnbuilt | src/cook/tree.rs:82-85 | in the build tree the total is the number of visited recipes with neither an archive nor stage metadata |
| TreeWalk.PushTotalAddsArchives | src/cook/tree.rs:86-90 | in the push tree it grows by the size of each archive, and a recipe without one adds nothing |
| TreeWalk.LastEntryStays | src/bin/repo.rs:1008-1009 | of several recipes with one name the map keeps the last |
| FileTreeText.WalkFileTree | src/cook/tree.rs:149-204 | the recursive printer with its shared buffer appends exactly the lines of the tree |
| FileTreeText.WalkEntry | src/cook/tree.rs:160-200 | one entry, with the header of an empty directory taken back |
| FileTreeText.HollowPrintsNothing | src/cook/tree.rs:171-179 | a directory prints nothing if and only if it holds nothing but directories, all the way down |
| FileTreeText.ItemIsDrawn | src/cook/tree.rs:156-200 | the first line printed for an entry is its branch, its name and what it is; every line below carries on the vertical bar unless the entry is the last of its list |
| FileTreeText.OnlyTheLastIsLast | src/cook/tree.rs:156-158 | exactly the last entry of a list is drawn as the last, even when nothing is printed for it |
| FileTreeText.UnescapeOfEscape | src/cook/tree.rs:184-190 | the quoted form of a link target can be read back |
| FileTreeText.FileIndexBuilder.InsertNode | src/web/search.rs:25-60 | the walk down the nested maps inserts exactly one node, turning files in the way into directories |
| FileTreeText.FileIndexBuilder.ParseContent | src/web/search.rs:61-107 | the line loop with its path stack computes the parse function |
| FileTreeText.ScanPrefix | src/web/search.rs:69-79 | the character loop counts the leading box characters and finds the name |
| FileTreeText.ScanLine | src/web/search.rs:64-105 | what one line means: nothing, a directory or a file, at a depth |
| FileTree.InsertIsGraft | src/web/search.rs:25-60 | inserting at a path changes only the directory at that path |
| FileTree.InsertedNode | src/web/search.rs:43-59 | at the inserted name: owners of a file are joined with a comma, a file takes the place of a directory, a directory never takes the place of anything; neighbours stay |
| FileTree.MergeIsIndexed | src/web/search.rs:61-107 | merging a tree next to unrelated entries adds exactly its index |
| FileTreeRoundTrip.ParseOfPrintedTreeMerges | src/web/search.rs:61-107 | reading the printed file merges exactly that tree into whatever the index held, for all trees whose names have no newline and meet the condition for their kind of line in `DirNameSurvivesExactlyWhen`, `FileNameSurvivesExactlyWhen` or `LinkNameSurvivesExactlyWhen` |
| FileTreeRoundTrip.ParseOfPrintedTreeIsTheTree | src/bin/repo.rs:842-850 | round trip: print then parse gives the tree with hollow directories removed and every file and symlink labelled with the package |
| FileTreeRoundTrip.LinkNameSurvivesExactlyWhen | src/web/search.rs:69-104 | the line printed for a symlink with a nonempty name is read as that name at that depth if and only if the name has no whitespace at its ends and no leading box character, neither name nor target has `(` and the target has no `->` |
| FileTreeRoundTrip.FileNameSurvivesExactlyWhen | src/web/search.rs:69-104 | the line printed for a file with a nonempty name, its size without `(`, is read as that name at that depth if and only if the name has no whitespace at its ends and no leading box character |
| FileTreeRoundTrip.DirNameSurvivesExactlyWhen | src/web/search.rs:69-93 | the line printed for a directory with a nonempty name is read as that name at that depth if and only if it begins with neither whitespace nor a box character and does not end in a slash |
| FileTreeRoundTrip.AnyLeadGivesADepth | src/web/search.rs:64-88 | in any line with a visible name, whoever wrote it, every four leading box characters are a level and fewer than eight stand for the top; without any the line is skipped |
| FileTreeRoundTrip.ReadItems | src/web/search.rs:88-105 | reading the lines printed for a directory's entries merges them at that directory and leaves the path stack usable |
| IndexLabels.IndexPackages | src/web.rs:132-135 | parsing every package's printed tree in turn builds the index |
| IndexLabels.MergeAt | src/web/search.rs:43-59 | merging one package changes each path exactly as the package has it there |
| IndexLabels.LabelsNameTheOwners | src/web/search.rs:43-59 | when no path is a file in one package and a directory in another, each file path carries the comma-joined names, in order, of exactly the packages holding it, and nothing else is a file |
| History.DecodeOfEncode | components/flash/crates/flash-cli/src/history.rs:385-427 | decoding undoes encoding for every string, and the encoding has no newline, carriage return or NUL |
| History.EncodeOfDecode | components/flash/crates/flash-cli/src/history.rs:399-427 | a decodable line without raw control characters is the encoding of what it decodes to |
| History.EscapesAre | components/flash/crates/flash-cli/src/history.rs:385-397 | the four escapes, letter by letter; every other character stands for itself |
| History.LoadOfSerialize | components/flash/crates/flash-cli/src/history.rs:248-275 | any list of strings survives being written, split into lines and decoded |
| History.LoadFailsExactlyWhen | components/flash/crates/flash-cli/src/history.rs:248-254 | a file is refused if and only if some line of it does not decode |
| Text.LinesOfOpenEnd | components/flash/crates/flash-cli/src/history.rs:248-254 | text behind the last newline is one more line |
| Text.ReturnIsDropped | src/web/search.rs:64 | a carriage return before a newline belongs to the line end |
| History.EncodeEntry | components/flash/crates/flash-cli/src/history.rs:385-397 | the encoding loop |
| History.DecodeEntry | components/flash/crates/flash-cli/src/history.rs:399-427 | the decoding loop, unknown and unterminated escapes included |
| History.MergeForgetsNothing | components/flash/crates/flash-cli/src/history.rs:255-265 | merging into the last entries of a deduplicated past gives what merging into the whole past would give |
| History.DedupKeepsLast | components/flash/crates/flash-cli/src/history.rs:255-261 | deduplication keeps the newest entry newest |
| History.DedupDropsOnlyRepeats | components/flash/crates/flash-cli/src/history.rs:255-261 | only an entry that equals the one right before it is dropped |
| HistorySessions.EditorHistory.Sync | components/flash/crates/flash-cli/src/history.rs:241-283 | a sync that gets the lock and can decode the file merges, writes and clears; any other leaves file, entries and pending as they were |
| HistorySessions.EditorHistory.Record | components/flash/crates/flash-cli/src/history.rs:189-201 | returns nothing if and only if the capacity is 0, the source is empty or the newest entry already is the source, and then changes nothing; otherwise the source ends up as the newest entry, or at the end of the pending ones when the sync fails |
| HistorySessions.ReadEntries | components/flash/crates/flash-cli/src/history.rs:248-254 | decodes every line or fails as a whole |
| HistorySessions.Deduplicate | components/flash/crates/flash-cli/src/history.rs:255-261 | drops each entry that repeats the one before |
| HistorySessions.DropOldest | components/flash/crates/flash-cli/src/history.rs:262-265 | keeps the last `capacity` entries |
| HistorySessions.WriteEntries | components/flash/crates/flash-cli/src/history.rs:267-275 | writes one encoded line per entry |
| HistorySessions.FileIsTheBoundedPast | components/flash/crates/flash-cli/src/history.rs:241-283 | for any sessions and lock order, once something was written the file is, byte for byte, the encoding of the last `capacity` entries of the deduplicated concatenation of its initial contents and all entries handed over; before that it is untouched |
| HistorySessions.SyncedSessionShowsTheFile | components/flash/crates/flash-cli/src/history.rs:280-281 | the session that just synced holds exactly the file's entries and has nothing pending |
| HistorySessions.NothingIsLost | components/flash/crates/flash-cli/src/history.rs:189-201 | for every session, what it handed over followed by what is pending is what it had at first followed by what `record` accepted, whatever syncs failed |
| HistorySessions.NoSubmissionIsLost | components/flash/crates/flash-cli/src/history.rs:189-201 | for every session and run, what it handed over followed by what is pending is what it had at first followed by every submission that was not empty, not a repeat of its newest entry and not made with history disabled |
| HistorySessions.SubmissionIsNewestOrPending | components/flash/crates/flash-cli/src/history.rs:189-201 | right after such a submission it is the session's newest entry when the file can be had and decoded, and the last pending one otherwise; any other submission changes nothing |
| Ordering.SortSorts | src/cook/fetch.rs:172 | sorting gives a sorted list of the same elements |
| Ordering.DedupSorted | src/cook/fetch.rs:173 | dropping adjacent duplicates of a sorted list makes it strictly sorted with the same elements |
| Workspace.StreamIsUniquelyDecodable | src/cook/fetch.rs:188-224 | two file lists with the same byte stream agree on every path, kind, executable bits, content and link target |
| Workspace.LittleEndianReadsBack | src/cook/fetch.rs:191 | a length that fits is written as its bytes from the least significant on |
| Workspace.BitsAreMasked | src/cook/fetch.rs:209 | the executable bits hashed are the file mode masked with octal 111 |
| Workspace.RecordOfAFile | src/cook/fetch.rs:189-218 | the bytes fed for one particular executable file, one by one |
| Workspace.RecordOfALink | src/cook/fetch.rs:189-206 | the bytes fed for one particular symlink |
| WorkspaceSnapshot.SameStreamExactlyForSameFiles | src/cook/fetch.rs:172-225 | two dirty workspaces give the same bytes if and only if they show the same files, however Git lists them |
| WorkspaceSnapshot.PathsAreTheListing | src/cook/fetch.rs:147-173 | the snapshot lists exactly the existing listed paths, strictly sorted |
| WorkspaceSnapshot.RefusedExactlyWhen | src/cook/fetch.rs:219-224 | hashing fails if and only if some visible file is neither a regular file nor a symlink |
| WorkspaceSnapshot.CollectExisting | src/cook/fetch.rs:147-171 | the loop keeps the nonempty listed paths that exist |
| WorkspaceSnapshot.FeedHasher | src/cook/fetch.rs:188-224 | the hashing loop feeds exactly the stream, or stops at an unsupported file |
| WorkspaceSnapshot.Snapshot | src/cook/fetch.rs:147-225 | the whole of it: the file list and the bytes hashed when the tree is dirty |
| PatchHash.OneChangeIsDetected | src/cook/fs.rs:378-395 | changing the hash of exactly one patch or script always changes the combined identity |
| PatchHash.SwapInvisibleExactlyWhen | src/cook/fs.rs:380-395 | exchanging any two patches or scripts leaves the identity unchanged if and only if every byte of the xor of their hashes is unchanged by one rotation by two for each place between them |
| PatchHash.NeighbourSwapInvisibleExactlyWhen | src/cook/fs.rs:380-395 | for neighbours this means that every byte of the xor is 00, 55, AA or FF |
| PatchHash.SwapFourApartIsInvisible | src/cook/fs.rs:385 | for two patches four places apart it always holds |
| PatchHash.RotationGoesLeft | src/cook/fs.rs:385 | each rotation moves every bit of a byte up by two places |
| PatchHash.OneHashIsItself | src/cook/fs.rs:378-395 | the identity of a single patch or script is its own hash |
| PatchHash.MixIn | src/cook/fs.rs:384-386 | the in-place inner loop extends the fold by one hash |
| PatchHash.GetCombinedBlake3 | src/cook/fs.rs:368-398 | files first, then scripts, and no identity when there are neither |
| Sysroot.CheckFilesPresent | src/cook/fs.rs:235-257 | the counting loop answers whether exactly the expected files are there, hidden ones aside |
| Sysroot.TargetDir.BuildDeps | src/cook/cook_build.rs:602-688 | cached, reinstalled or failed, with the directory left behind in each case |
| Sysroot.TargetDir.CompareTags | src/cook/cook_build.rs:629-653 | the tag loop, which keeps reading archives after a mismatch |
| Sysroot.TargetDir.Install | src/cook/cook_build.rs:660-685 | installs into a temporary directory and moves it in place only when every package installed |
| Sysroot.TargetDir.BuildRecipe | src/cook/cook_build.rs:274-315 | the rebuild decision, what the script sees, and whether the build failed |
| Sysroot.SameTagsSameDeps | src/cook/cook_build.rs:622-656 | tags that are up to date for a list were written for exactly the same packages |
| Sysroot.BuildDepsDirIsSound | src/cook/cook_build.rs:602-688 | on a tidy directory "cached" means it belongs to exactly the current packages, and "not cached" leaves a fresh install |
| Sysroot.BuildIsSound | src/cook/cook_build.rs:274-315 | one build keeps the directory tidy and shows the script a fresh install, in the current order or that of an earlier list of the same packages, or an emptied one only with cleaning off |
| Sysroot.RebuiltExactlyWhen | src/cook/cook_build.rs:283-315 | after any history, with everything there to install from, the script is left out if and only if there is no other reason to rebuild and the tags are those of exactly the current packages; when it runs, the directory afterwards is what it saw, or emptied down to the tags if it succeeded with `clean_target` on |
| Sysroot.NothingRunsWithoutPackages | src/cook/cook_build.rs:602-688 | without the key or with an unreadable archive the build fails before the script |
| Sysroot.UntaggedIsKept | src/cook/cook_build.rs:660-688 | a directory without tags is replaced only when it is empty; otherwise the build fails and leaves it |
| Sysroot.CheckFailsExactlyWhen | src/cook/cook_build.rs:629-653 | comparing tags fails if and only if a package with a readable tag cannot be opened |
| Sysroot.LaterPackageWins | src/cook/cook_build.rs:676-682 | of several packages with a file at one path the last one installed wins |
| Sysroot.ConstantSettingSeesFresh | src/cook/cook_build.rs:299-309 | under a constant `clean_target`, through any history of builds and failures and lists in any order, a script that runs sees a fresh install of exactly its current dependencies, in the current order when cleaning is on |
| Sysroot.SeenIsFreshExactlyWhen | src/cook/cook_build.rs:512-519 | with the setting switched at will and lists in any order, the sysroot is a fresh install of exactly the current packages if and only if `clean_target` is on or it was not emptied down to these very tags |
| Sysroot.SortedListsSeeFreshExactlyWhen | src/cook/cook_build.rs:512-519 | when all lists are sorted by one order on names, it is exactly the install of the current list under the same condition |
| Sysroot.ConflictFreeInstallIsUnique | src/cook/cook_build.rs:676-682 | if no two packages hold different contents for one path, every order of installing them gives the same sysroot |
| Sysroot.ExchangedConflictKeepsTheOldOrder | src/cook/cook_build.rs:629-656 | two conflicting packages that change places in the list, as a name that gains or loses its prefix can make them, leave the install in the old order, reported as cached |
| Sysroot.TogglingShowsAnEmptiedSysroot | src/cook/cook_build.rs:690-699 | a concrete history in which a script runs in an emptied sysroot |
| StageMove.RouteFile | src/cook/cook_build.rs:497-504 | the first matching glob decides |
| StageMove.MoveDirAllInner | src/cook/fs.rs:71-104 | one directory, its entries in any order: what is left, whether it removes itself, what arrives where |
| StageMove.VisitEntries | src/cook/fs.rs:78-94 | the loop over entries: subdirectories settled, matched files noted |
| StageMove.MoveMatched | src/cook/fs.rs:95-99 | the loop over noted files moves each once |
| StageMove.SplitStage | src/cook/cook_build.rs:485-506 | every file stays or is at the same relative path in the first matching package's directory, never both, and those directories hold nothing else |
| StageMove.VanishesExactlyWhen | src/cook/fs.rs:100-102 | a node disappears if and only if no unmatched file and no originally empty directory is at or below it |
| StageMove.WhatStaysWhere | src/cook/fs.rs:71-104 | what is found at every path afterwards |
| StageMove.StageAfterwards | src/cook/fs.rs:64-104 | a file stays if and only if no glob matches; a directory stays if and only if something at or below it does; the root always stays |
| Highlight.CollectBoundaries | components/flash/crates/flash-cli/src/highlight.rs:104-111 | the loop over ranges collects the token's ends and every clipped range border |
| Highlight.HighlightKindsAre | components/flash/crates/flash-cli/src/highlight.rs:133-157 | exactly which kinds of token share each kind of highlighting |
| Highlight.BoundariesAreGood | components/flash/crates/flash-cli/src/highlight.rs:104-113 | sorted and deduplicated they increase strictly from the token's start to its end |
| Highlight.BoundariesAreBorders | components/flash/crates/flash-cli/src/highlight.rs:104-111 | there is no needless cut: every boundary is an end of the token or a border of a range that overlaps it |
| Highlight.SegmentIsUniform | components/flash/crates/flash-cli/src/highlight.rs:117-121 | between neighbouring boundaries a range covers all bytes or none, so the overlap test is right for each byte |
| Highlight.CutPaints | components/flash/crates/flash-cli/src/highlight.rs:115-130 | the windows give nonempty segments that concatenate to the token with every byte of the right kind |
| Highlight.CutAll | components/flash/crates/flash-cli/src/highlight.rs:116-130 | the loop over windows of two boundaries |
| Highlight.TokenSegments | components/flash/crates/flash-cli/src/highlight.rs:98-131 | what one token adds to the output |
| Highlight.HighlightBuffer | components/flash/crates/flash-cli/src/highlight.rs:66-79 | for tokens tiling the source: nonempty segments, concatenating to it, each byte Invalid if and only if its token is or some invalid range covers it, one segment between each two neighbouring boundaries, token by token |

## Left out

- Liveness of the prompt hand-off: the check and the swap of `prompting` are separate steps and the UI has one prompt slot, so progress is not promised; only safety is stated. The steps after an Exit answer are in the model, but `FinishedRunsAreComplete` is about runs without one. An error while drawing is not modelled.
- Rendering, scrolling, search, inspect mode beyond its flag, pty set-up, spawned processes and `kill_everything`.
- What fetching and cooking do: they succeed or fail arbitrarily. A log message may arrive at any moment with any contents, which covers more runs than the readers can produce.
- Tui.TuiApp.UpdateStatus: does not keep the scroll fields and the log pane shown, nor the recipe and error text a prompt displays, and a flushed log is not written to a file.
- UiLaws.LogsAreForwarded: from the log readers to the status channel; how the readers cut a recipe's output into chunks is arbitrary.
- Recipe bodies, `reload_recipe`, rules, pinned recipes and the fallback from binary to source: a collected recipe is determined by its name.
- The `pkg` crate is not part of this model: a package name is a prefix, a base and a suffix, recipes are found by base name, and flattening keeps only the `host` prefix. A staged package is taken to carry the name it was found by.
- RecipeLists.FollowGroup: models the three identical blocks of `new_recursive` by one method, called once for each dependency list that is followed.
- Selection of the source and binary roots by rules (src/bin/repo.rs:684-714): the roots are arbitrary in the theorems. The ignored recipes come last and make no claim.
- TreeWalk.Walker.WalkTreeEntry: 64-bit totals are unbounded here. The operation answers the same each time a name is met in the same way.
- TreeWalk.HandlePush: so a push that fails under nonstop and would succeed when its recipe is met again in the same run is not modelled.
- File trees are values: a directory is its list of entries in the order printed. The index is rebuilt along a path where the source holds a mutable reference into the nested map; the effect is the same, the aliasing is not modelled.
- FileTreeText.WalkFileTree: does not add up the sizes it returns; sorting the entries of a directory and formatting sizes come before the model.
- FileTreeText.ScanPrefix: works on characters where the source has byte offsets.
- The debug form of a link target escapes quotes, backslashes and the common control characters; other escapes of unprintable characters are not modelled. File sizes are arbitrary text without `(` or newline; names that are not UTF-8 are not modelled.
- History: the `clear` command, file permissions, path selection, and a write that fails half-way. A sync either fails before it writes or writes everything.
- The hash function is outside the model; the theorems are about the bytes and hashes given to it. Paths are ordered by an arbitrary strict total order.
- WorkspaceSnapshot.FeedHasher: lossy conversion of paths and targets that are not UTF-8 is not modelled, nor is a file that changes between its metadata and its contents.
- WorkspaceSnapshot.Snapshot: listed paths are relative already; a path that is not UTF-8 or lies outside the workspace, which the source refuses, is not modelled.
- Git itself, the identifier of a clean workspace, and copying a snapshot to its destination.
- Sysroot.TargetDir.BuildRecipe: the toolchain directory, newer sources and cached stages enter only as another reason to rebuild; crash recovery in the middle of a removal or rename is not modelled. Dependencies come in any order, with names that are distinct without prefix and not hidden, as the tag check needs.
- StagedPackages.NotTooDeepIsListed: one direction for a single package; a package that is too deep can still be listed when a later name reaches it. The condition is exact for the request as a whole (`StrictAcceptsExactlyWhen`); a nonstop list is characterised from both sides but not exactly.
- StageMove.MoveDirAllInner: directory trees are values, so failing renames and a stage directory inside the tree being moved are not modelled. Globs are arbitrary predicates on relative paths.
- Patch files or scripts that cannot be read: their hashes are inputs here.
- The lexer and parser of the shell are not part of this model: tokens are any that tile the source, ranges any at all.
- Configuration defaults, HTML templates, publishing, the other command-line modules, the language server and the test scripts: mostly single facts per function.
