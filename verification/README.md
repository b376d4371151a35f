# A verified model of Corinth

Corinth is a package manager. This project models the parts of it that hold real algorithms or
protocols, in Dafny, and proves what they promise. `dafny verify dfyconfig.toml` checks everything.

The model has five parts.

- **Solver and planner** (`src/alchemist.rs`, `src/dependency.rs`). The backtracking solver is a class
  over fixed arrays with the trail and decision frames of the original. It is proved sound, complete and
  terminating, and the model it finds is the lexicographically least one. The planner turns
  requirements, conflicts and one-version-per-package into clauses. A clause set has exactly the models
  that are valid selections, so the plan is the least valid selection, nothing in it is superfluous,
  "unsatisfiable" means that no valid selection exists, and the order puts every dependency first unless
  the chosen providers form a cycle, which is then named. The constraint builder adds a constraint whole
  or not at all.
- **Package service** (`src/service.rs`) over the **binary install store** (`src/binary.rs`). The
  service runs one step at a time against an environment that may make any step fail or stop the
  process, before or after the step took effect. The invariant of every run is that the receipts belong
  to a transaction between two sound installed sets: receipts of both kinds correspond, requirements
  are met and nothing conflicts. A recovery that completes leaves one of the two. The store moves files
  one rename at a time and undoes its own failures.
- **Ledger, generation codec and generation store** (`src/pkg.rs`, `src/generation.rs`, `src/store.rs`).
  The ledger is a class over fixed arrays with optimistic transactions and a four-slot undo history.
  Its byte image is a bijection on accepted bytes. The store is a content-addressed chain of images
  behind one pointer, under failures and crashes at every step.
- **IR passes** (`src/crucible.rs`). The instruction set has a small-step semantics. Dead code
  elimination and the loop unroller work in place on the buffer and are proved to preserve execution;
  for the unroller the exact condition is given.
- **Topological sorter** (`src/helix.rs`), with its counters and queue, and the **payload
  container** of `src/binary.rs`, whose two ends accept different things; the exact condition for a round
  trip is proved.

Four promises turn out to hold only under a condition.

- A graph that fails is undone, and a graph that is interrupted is recovered, but not always. An install
  that took effect, reported failure and whose ownership receipt then cannot be read is unknown to the
  in-process rollback. `Service.Stranded` is a function of the schedule of faults and the plan;
  `Service.PackageService.CommitGraph` shows that the receipts end old, new or recoverable if and only if
  the schedule does not strand the graph: either the rollback gets as far as clearing the journal, or the
  lost entry is an updated root and a dependency is taken away from it. `Service.LoseAnInstall` and
  `Service.LoseAnUpdatedRoot` are runs that end in the one way and in the other; in the second recovery
  refuses the journal every time.
- Unrolling cuts a loop with a count above eight to eight copies (`src/crucible.rs:415`).
  `Unroller.UnrollExact` shows for every jump-free program that the machine executes the same
  instructions if and only if no loop is cut that does something and ends before the first RET or dead
  slot.
- With jumps unrolling is wrong even for small counts, since offsets are not adjusted
  (`Unroller.JumpsMissTheirTarget`).
- The payload encoder takes upper-case digests and control characters in paths; the decoder does not
  (`Payload.EncodeThenDecode`). In the other direction the record needs valid fields
  (`Payload.DecodeThenEncode`).

Assumptions: one operation runs at a time (the lock); an atomic write or a rename is one step; the
service sees the store's install and removal as one step each, which is what the contract of
`BinaryStore.BinaryInstallStore` says of them short of a crash between two renames; hashes are arbitrary
functions, with the hash of the generation store never all zero; in the install store a failing call has
no effect and the undo renames succeed. Candidates that a repository offers are a parameter, prepared
when they are needed. CALL and every opcode that is not control flow is an arbitrary function of the
machine's data. The source gives LOOP no interpreter; the model reads a count of zero as one pass, as
the unroller does.

## Model

| member | source | states |
|---|---|---|
| Alchemist.Status | src/alchemist.rs:91-114 | a clause is satisfied, unit with its one unset literal, in conflict or unresolved exactly as its literals' values say |
| Alchemist.DpllSolver.AddClause | src/alchemist.rs:225-242 | a clause is appended exactly when there is room and its variables are in range; the active variables stay exactly those mentioned |
| Alchemist.DpllSolver.TruncateClauses | src/alchemist.rs:246-259 | keeps the first clauses only and makes the active variables exact again |
| Alchemist.DpllSolver.Assign | src/alchemist.rs:261-271 | the literal is always recorded: the trail-full guard never bites |
| Alchemist.DpllSolver.UnassignBackTo | src/alchemist.rs:273-281 | cuts the trail to the given length and unsets exactly the variables cut |
| Alchemist.DpllSolver.Propagate | src/alchemist.rs:284-307 | forces literals to a fixpoint or finds a conflict without losing a model |
| Alchemist.DpllSolver.PickBranchVar | src/alchemist.rs:311-317 | the lowest active unset variable, or none when all are set |
| Alchemist.DpllSolver.Flip | src/alchemist.rs:334-340 | with everything above it undone, the deepest frame is turned from absent to present without losing a model |
| Alchemist.DpllSolver.Backtrack | src/alchemist.rs:327-349 | goes to the deepest frame with an untried branch, or shows that no model is left |
| Alchemist.DpllSolver.Decide | src/alchemist.rs:358-371 | opens a frame absent-first without losing a model, and strictly lowers the remaining work |
| Alchemist.DpllSolver.RoomForDecision | src/alchemist.rs:358-360 | while a variable is unset there is room for another frame, so the frame-limit exit is unreachable |
| Alchemist.DpllSolver.Solve | src/alchemist.rs:320-373 | terminates; satisfiable leaves the least model of the clauses, unsatisfiable means there is none; the counters reported are those of this search |
| Search.UnitKeeps | src/alchemist.rs:284-307 | forcing a unit literal loses no model that agrees with the trail |
| Search.ConflictEmpties | src/alchemist.rs:284-307 | a conflicting clause leaves no model that agrees with the trail |
| Search.DecideKeeps | src/alchemist.rs:361-371 | deciding absent first only defers the models with the variable present |
| Search.FlipKeeps | src/alchemist.rs:334-340 | turning an exhausted branch over takes up the deferred models |
| Search.PopKeeps | src/alchemist.rs:341-344 | dropping a frame with both branches tried loses no model |
| Search.FinalIsLeast | src/alchemist.rs:320-373 | a complete conflict-free trail is the least model: all earlier ones were excluded |
| Search.DecideWorks | src/alchemist.rs:320-373 | a decision strictly lowers the remaining work, whence termination |
| Search.FlipWorks | src/alchemist.rs:320-373 | so does turning a branch over |
| Search.TrailHasRoom | src/alchemist.rs:24-28 | while a variable is unset the trail has room |
| Cnf.LeastModelUnique | src/alchemist.rs:19-20 | there is at most one least model |
| Cnf.LeastModelIsSubsetMinimal | src/alchemist.rs:19-20 | no model selects a proper subset of what the least model selects |
| Cnf.StatusUnique | src/alchemist.rs:91-114 | the four classes exclude each other |
| Constraints.VariableRegistry.Intern | src/alchemist.rs:151-169 | the same version always gets the same variable, a new one gets the next, and it fails exactly when the version is new and the registry full |
| Constraints.ConstraintBuilder.Finish | src/alchemist.rs:566-576 | a failure restores the clauses and the registry of the checkpoint |
| Constraints.ConstraintBuilder.Require | src/alchemist.rs:479-490 | built exactly when its versions have or get variables and its clauses fit, and then the models are those before in which the version is installed; a failure changes nothing |
| Constraints.ConstraintBuilder.Dependency | src/alchemist.rs:493-517 | built exactly when its versions have or get variables and its clauses fit, and then the models are those before in which the version brings one of the options along; a failure changes nothing |
| Constraints.ConstraintBuilder.Conflict | src/alchemist.rs:520-532 | built exactly when its versions have or get variables and its clauses fit, and then the models are those before that do not install both; a failure changes nothing |
| Constraints.ConstraintBuilder.AtMostOneVersion | src/alchemist.rs:536-557 | built exactly when its versions have or get variables and its clauses fit, and then the models are those before that install at most one of the versions; a failure changes nothing |
| Constraints.DependencyHolds | src/alchemist.rs:501-513 | the dependency clause says that the first version brings one of the others |
| Constraints.IncreasingThroughout | src/alchemist.rs:496-498 | a version list is taken only if each version is smaller than all behind it |
| Dependency.MinimalIsNeeded | src/dependency.rs:181-293 | a selection none of whose proper subsets is valid holds only what is reachable along requirements |
| Dependency.InsertByKey | src/dependency.rs:496-498 | sorting by package, sequence and version keeps the elements and orders them |
| Dependency.StringLessTransitive | src/dependency.rs:496-498 | the byte order on names is transitive |
| Dependency.StringLessExact | src/dependency.rs:199-207 | a name comes before another exactly if it is smaller where they first differ or is a proper beginning |
| Dependency.OfferedSatisfies | src/dependency.rs:458-474 | a constraint is satisfied exactly if the package offers a version under its name that it lists, or any if it lists none |
| Dependency.SatisfiesConstraint | src/dependency.rs:458-474 | the chain over the own version and the capabilities, run step by step, decides it |
| Dependency.PlainCandidateSatisfies | src/dependency.rs:446-456 | without capabilities it is the name and the version that count |
| Dependency.ProvidedSatisfies | src/dependency.rs:465-470 | a capability stands for its name, in the version of the package if it has none of its own |
| Dependency.RequirementMetBy | src/dependency.rs:343-350 | a requirement is met through any of its alternatives |
| InstallOrder.ChosenIsNewest | src/dependency.rs:342-357 | the provider chosen among those that meet a requirement is outranked by none of them |
| InstallOrder.ChosenHasHighestSequence | src/dependency.rs:351-356 | the provider chosen has the highest sequence, and between equal ones the first package name |
| InstallOrder.ChosenForMeets | src/dependency.rs:342-357 | whenever a selected candidate meets a requirement one is chosen, so the inner failure never fires |
| InstallOrder.Visitor.Visit | src/dependency.rs:385-424 | the search finishes the candidate after all it needs, or ends on a genuine cycle |
| InstallOrder.Visitor.TraceCycle | src/dependency.rs:395-406 | the names reported trace a cycle of the chosen edges back to its start |
| InstallOrder.ChosenEdgesOf | src/dependency.rs:338-363 | the edges of a candidate lead to the chosen provider of each requirement other than itself |
| InstallOrder.ChosenComesFirst | src/dependency.rs:332-383 | the chosen provider of a requirement precedes the candidate in the order |
| InstallOrder.OrderIsDependencyFirst | src/dependency.rs:332-383 | every prefix of the order is closed under requirements |
| InstallOrder.DependencyOrder | src/dependency.rs:332-383 | a dependency-first permutation of the selection exactly when the chosen edges are acyclic; otherwise the names trace a cycle |
| Encoding.RequirementsMean | src/dependency.rs:238-270 | the requirement clauses of a candidate hold exactly when its presence brings an option for each requirement |
| Encoding.ConflictsMean | src/dependency.rs:271-277 | the conflict clauses of a candidate hold exactly when its presence excludes everything it conflicts with |
| Encoding.PairsMean | src/dependency.rs:226-236 | the pairwise clauses of a package hold exactly when no two of its candidates are present |
| Encoding.DomainsApart | src/dependency.rs:219-236 | together they hold exactly when the selection has one candidate per package |
| Encoding.ModelsAreSelections | src/dependency.rs:213-278 | the models of the clauses are exactly the valid selections |
| Encoding.ModelSelects | src/dependency.rs:208-211 | every set of candidates is the selection of a model |
| Planner.ValidateCandidates | src/dependency.rs:295-330 | finds an error exactly when a candidate or a fixed index is invalid, and says capacity exactly when the first fault is oversized metadata |
| Planner.NameIsSpelled | src/dependency.rs:500-506 | names are spelled with lower-case letters, digits, dashes and underscores |
| Planner.VersionIsSpelled | src/dependency.rs:508-516 | versions hold no control characters, blanks or separators |
| Planner.ValidateMetadata | src/dependency.rs:118-179 | the loops over the sets seen refuse exactly oversized metadata for capacity and exactly malformed or repeated entries as invalid |
| Planner.CheckRequirements | src/dependency.rs:132-154 | no malformed requirement, no alternative twice, and no two requirements with the same alternatives |
| Planner.CheckConstraints | src/dependency.rs:169-177 | no malformed constraint and none twice |
| Planner.CheckConstraint | src/dependency.rs:476-494 | a well-formed name and ascending well-formed versions |
| Planner.CheckCapabilities | src/dependency.rs:155-168 | no malformed capability and none twice |
| Planner.NumberCandidates | src/dependency.rs:199-211 | variables are numbered in key order |
| Planner.LoadGraph | src/dependency.rs:213-278 | loads exactly the clauses of the graph, or refuses for want of room or width |
| Planner.LeastModelIsLeastSelection | src/dependency.rs:280-290 | the solver's least model is the least valid selection in key order |
| Planner.UnsatisfiableMeansNone | src/dependency.rs:280-282 | unsatisfiable clauses mean that no valid selection exists |
| Planner.LeastIsSubsetMinimal | src/dependency.rs:181-293 | no proper subset of the least selection is valid |
| Planner.LeastIsNeeded | src/dependency.rs:181-293 | every selected candidate is reachable from the required or fixed ones along requirements |
| Planner.LeastUnique | src/dependency.rs:280-290 | there is one least selection at most |
| Planner.NoBetterSwap | src/dependency.rs:199-207 | no selected candidate can be swapped for one that comes later in key order |
| Planner.LeastPicks | src/dependency.rs:199-290 | no selected version can be swapped for one of a higher sequence, and no package for one of a later name |
| Planner.SortedUnique | src/dependency.rs:219-224 | valid candidates have only one sequence in key order |
| Planner.GoodPlanIsPlannable | src/dependency.rs:280-293 | where there is a plan, no other choice of the same selection has a cycle |
| Planner.PlansAlike | src/dependency.rs:181-293 | the order of the fixed candidates decides neither whether there is a plan nor what is selected |
| Planner.SolveDependencyGraph | src/dependency.rs:181-293 | refuses exactly what is invalid or too large, and says which; otherwise the least valid selection in dependency order, in which no version can be swapped for one of a higher sequence, a named cycle of its providers, or the truth that there is no valid selection; there is a plan exactly if none of these stands against it |
| Service.RecordIsValid | src/service.rs:2677-2731 | the journal of every planned graph passes the journal's own validation |
| Service.ValidateGraphJournal | src/service.rs:2677-2731 | the validation entry by entry accepts exactly well-formed graph journals |
| Service.ValidateJournal | src/service.rs:2644-2675 | the same for the journal of a single package |
| Service.LosingTheFirstStrands | src/service.rs:805-865 | a schedule under which any graph that starts with an install loses it and still clears the journal |
| Service.LosingTheRootStrands | src/service.rs:805-865 | a schedule under which any update with a dependency loses its root and takes the dependency away |
| Service.PackageService.WriteGraphJournal | src/service.rs:1722-1736 | refused exactly when the journal is malformed or another one is pending |
| Service.PackageService.WriteJournal | src/service.rs:1706-1720 | the same for the journal of a single package |
| Service.PackageService.InstallPayload | src/binary.rs:882-1006 | as one step: takes ownership of a package in the right state, or fails; refusals over files are left to the schedule of faults |
| Service.PackageService.RemoveBinary | src/binary.rs:1018-1074 | as one step: gives up ownership of an installed package, or fails; refusals over files are left to the schedule of faults |
| Service.PackageService.WriteNewReceipts | src/service.rs:1830-1833 | completes the service receipts of a graph that is all new |
| Service.PackageService.RestoreReceipts | src/service.rs:1904-1910 | puts back the service receipts from before |
| Service.PackageService.OwnershipTells | src/service.rs:1814-1883 | the ownership on disk tells whether a graph under way is all new, and if not, whether it can be undone |
| Service.PackageService.UprootedIsUnexplained | src/service.rs:1850-1864 | an updated root that is new before its dependencies is refused |
| Service.PackageService.RemoveNew | src/service.rs:1885-1903 | gives up what the graph newly owns and nothing else, and ends with the old ownership, as it does without faults |
| Service.PackageService.GiveUp | src/service.rs:1891-1900 | done exactly if the removal succeeds, or took effect and the ownership can be read; then the package is no longer owned |
| Service.PackageService.RecoverGraphPending | src/service.rs:1807-1912 | brings every pending graph to its old or its new state and never refuses it, completing once the environment is calm; a graph under way whose root came before its dependencies it never completes and never changes |
| Service.PackageService.CompleteGraph | src/service.rs:1822-1834 | a graph that is all new ends new |
| Service.PackageService.UndoGraph | src/service.rs:1885-1911 | a pending graph that is not all new ends old |
| Service.PackageService.InstallEntry | src/service.rs:805-822 | a failed install is settled by the ownership receipt, unless that cannot be read |
| Service.PackageService.ApplyEntry | src/service.rs:800-823 | one entry done, or the state still pending, unless the run was blind |
| Service.PackageService.ApplyEntries | src/service.rs:798-825 | lists exactly what was installed, and says where sight of an install is lost exactly as the schedule does |
| Service.PackageService.RollbackGraphEntries | src/service.rs:842-865 | undoes a failed graph; the journal goes exactly when nothing failed before; with a lost install the rest can still be recovered exactly if the lost entry is not an updated root that had a dependency taken away; the refusal for a committed update cannot be reached because the root is last |
| Service.PackageService.Withdraw | src/service.rs:826-833 | a failed graph is old or still recoverable, unless an install was lost; then it is recoverable exactly while the journal is there and no dependency was taken from a new root |
| Service.PackageService.CommitGraph | src/service.rs:778-840 | old, new or recoverable if and only if the schedule of faults does not strand the graph; without faults it is done |
| Service.LoseAnInstall | src/service.rs:805-865 | a run that ends with neither the old receipts nor the new and no journal |
| Service.LoseAnUpdatedRoot | src/service.rs:1850-1864 | a run that ends with a journal that recovery refuses |
| ServiceState.MatchTellsNew | src/service.rs:2744-2749 | ownership matches the new build exactly when the slot is the new one |
| ServiceState.EntrySlots | src/service.rs:743-754 | what each entry of a graph changes in both receipt maps |
| ServiceState.OneSlotDecides | src/service.rs:1770-1805 | the slot of the one package decides the whole map |
| ServiceState.RealizedIsConsistent | src/dependency.rs:213-290 | receipts that realize a valid selection meet all requirements and are free of conflicts |
| Transactions.AfterCorresponds | src/service.rs:2751-2762 | a graph transaction keeps service and ownership receipts in step |
| Transactions.RemovalIsValid | src/service.rs:596-659 | a removal that keeps the requirements met goes from one sound set to another |
| Transactions.MissingHolds | src/service.rs:725-755 | the entries are the selected candidates that are the root or not installed |
| Transactions.PlanIsValid | src/service.rs:725-796 | the prepared entries, root last, form a graph transaction |
| Transactions.PlanRealizesSelection | src/service.rs:715-790 | what a graph leaves installed is exactly the selection |
| Transactions.PlanIsSound | src/service.rs:715-790 | planning goes from one sound installed set to another |
| Lifecycle.RecoverSinglePending | src/service.rs:1770-1805 | brings an interrupted install, update or removal to its old or its new state and never refuses it; completes once the environment is calm |
| Lifecycle.RecoverPending | src/service.rs:1754-1768 | recovers whichever journal is pending, always completing once the environment is calm; two at once cannot arise |
| Lifecycle.EnsureRemovalSafe | src/service.rs:927-949 | a package may go exactly when the requirements of the others stay met |
| Lifecycle.CheckRemoval | src/service.rs:600-614 | the package is installed and not needed; without faults nothing else stops a removal |
| Lifecycle.CommitRemoval | src/service.rs:615-648 | removed, untouched or recoverable whatever fails; which of them, and whether it is done, follows exactly from the schedule of faults |
| Lifecycle.SettleRemoval | src/service.rs:623-647 | after a reported failure the ownership receipt decides: the removal is finished, or put back |
| Lifecycle.Remove | src/service.rs:596-659 | starts from the receipts there are and drops just that package, or begins nothing; old, new or recoverable whatever fails; without faults it is done exactly when the package is installed and not needed |
| Lifecycle.FixedCandidates | src/service.rs:1188-1198 | holds fixed exactly the installed packages but the root as their provider signed them, once each, and fails only when one has no such candidate |
| Lifecycle.FixedAlike | src/service.rs:1188-1198 | which candidates are held fixed depends on what is installed only |
| Lifecycle.PlannedCanBe | src/service.rs:1176-1242 | whether there is a plan depends on what is installed and offered only |
| Lifecycle.PlannedOnce | src/service.rs:1176-1242 | and so does what is selected |
| Lifecycle.ResolvePlan | src/service.rs:1176-1242 | the order is the least valid selection that keeps what is installed; without faults it is found exactly if every installed package is still offered and there is a plan |
| Lifecycle.PrepareEntries | src/service.rs:725-755 | prepares exactly the missing candidates in order, after checking the ownership of the others; without faults only an incoherent one among them stops it |
| Lifecycle.PlanGraph | src/service.rs:715-771 | a sound graph transaction from the receipts as they are to the least selection; without faults there is one exactly if there is a plan and all it misses is coherent |
| Lifecycle.UnchangedPlan | src/service.rs:766-777 | a graph whose receipts are all there already changes nothing |
| Lifecycle.CheckRoot | src/service.rs:669-711 | installs need an absent root, updates a present one that meets the floor; without faults nothing else is refused |
| Lifecycle.EnforceUpdateFloor | src/service.rs:2362-2411 | the checks in turn let through exactly what keeps provider, channel and route, sets no counter back and changes nothing that counts without raising it |
| Lifecycle.CandidateRecordMatches | src/service.rs:2413-2455 | field by field, the same record as the one installed |
| Lifecycle.UnraisedIsTheSameRecord | src/service.rs:2362-2411 | an update sets no counter back, and with an equal sequence version, release, metadata, source lock and a native artifact are unchanged |
| Lifecycle.RaisedIsOnlyTurnedDownForThePlan | src/service.rs:669-790 | an update that raises all counters is turned down only for want of a plan or for an incoherent candidate |
| Lifecycle.InstallOrUpdate | src/service.rs:661-840 | starts from the receipts there are; done leaves exactly the least selection installed and what was installed before with both its receipts; otherwise nothing was begun, or the receipts are recoverable unless the graph was stranded; without faults it is done exactly if it is not turned down for a wrong root, signed counters that go back, no plan or an incoherent candidate |
| Lifecycle.CommitPlan | src/service.rs:766-840 | a planned graph ends old, new or recoverable exactly if it was not stranded; one whose receipts are all there changes nothing |
| Lifecycle.SightedWhenReadable | src/service.rs:811-820 | no graph is stranded if a read right after a late failure does not fail too |
| Lifecycle.Run | src/service.rs:588-840 | where no graph is stranded, over any run of requests and interrupted recoveries, from the start: every request carries on from the old or the new receipts of the one before and makes the change it asks for or none, all of it between sound sets; a complete recovery leaves the old or the new receipts of the last change and no journal |
| Lifecycle.Answer | src/service.rs:588-661 | one request carries on from what the last one left, and done means done as asked |
| Lifecycle.UnnamedStays | src/service.rs:588-840 | a package that no request of a run names keeps both its receipts throughout |
| Lifecycle.CountersNeverGoBack | src/service.rs:588-840 | from a moment at rest on, provider and channel of a package that is not dropped stay and its counters never go back, whatever fails, stops or is recovered |
| BinaryStore.InstallKeeps | src/binary.rs:882-1006 | installing keeps every receipt true and ownership disjoint |
| BinaryStore.RemoveKeeps | src/binary.rs:1018-1074 | so does removing |
| BinaryStore.ValidatePayload | src/binary.rs:1159-1186 | the checks file by file accept exactly well-formed payloads |
| BinaryStore.StoreMatchesService | src/binary.rs:976-982 | the ownership receipt written is the one the service expects of the prepared entry |
| BinaryStore.BinaryInstallStore.ValidateTargets | src/binary.rs:1101-1156 | passes only when everything in the way belongs to the build being replaced; without faults exactly then |
| BinaryStore.BinaryInstallStore.SetAsideAll | src/binary.rs:959-968 | moves exactly the files at the given paths into the backup |
| BinaryStore.BinaryInstallStore.PlaceAll | src/binary.rs:969-975 | puts the staged files in place one by one |
| BinaryStore.BinaryInstallStore.RollbackFiles | src/binary.rs:1321-1337 | restores the files from before |
| BinaryStore.BinaryInstallStore.Swap | src/binary.rs:951-1004 | the old files out, the new ones in and the receipt written, or nothing changed |
| BinaryStore.BinaryInstallStore.InstallPayload | src/binary.rs:882-1005 | everything or nothing, and the receipt names package, version, release, artifact and every file with its mode and digest; only the last read can fail after the fact; without faults it succeeds exactly when installable |
| BinaryStore.BinaryInstallStore.TakeOut | src/binary.rs:1047-1071 | owned files and receipt gone, or nothing changed |
| BinaryStore.BinaryInstallStore.Remove | src/binary.rs:1018-1074 | everything or nothing; only the last cleanup can fail after the fact; without faults it succeeds exactly when installed |
| BinaryStore.InstallLeavesAlone | src/binary.rs:1101-1156 | an install never touches a file without an owner |
| BinaryStore.RemoveLeavesAlone | src/binary.rs:1018-1074 | nor does a removal |
| BinaryStore.Run | src/binary.rs:882-1074 | over any run with any failures receipts stay true and disjoint and unowned files stay as they were |
| PayloadFormat.HexUnhex | src/binary.rs:489-511 | a digest text is written back as it was exactly when it is lower case |
| PayloadFormat.UnhexHex | src/binary.rs:489-511 | reading back a written digest gives its bytes |
| PayloadFormat.SafePathStaysInside | src/binary.rs:536-555 | a safe path is relative and no beginning of the walk along it ends above the root |
| PayloadFormat.OrdinaryPathIsSafe | src/binary.rs:536-555 | ordinary names with slashes between them are safe up to the length limit |
| PayloadFormat.SafePathExactly | src/binary.rs:536-555 | which paths are safe, told from their components |
| PayloadFormat.ComponentsSplit | src/binary.rs:541-542 | the components with slashes between them are the path |
| PayloadFormat.SplitIsComponents | src/binary.rs:541-542 | and no other components are |
| PayloadFormat.VersionIsSpelled | src/binary.rs:1410-1418 | versions hold no control characters, blanks or separators |
| PayloadFormat.NibblesAreListed | src/binary.rs:502-511 | the sixteen digits in both cases and what they count |
| PayloadFormat.DigestIsSpelled | src/binary.rs:1420-1424 | sixty-four hexadecimal digits that are not all zero |
| PayloadFormat.ContainerOpens | src/binary.rs:301-323 | the container opens with its magic, its format and its sizes, low byte first |
| Payload.MeasureFiles | src/binary.rs:271-299 | accepts exactly well-formed files with different paths that fit the limit, and measures them |
| Payload.Encode | src/binary.rs:250-323 | produces the container exactly for what is encodable, and no path in it leads outside the root |
| Payload.PayloadCursor.Take | src/binary.rs:433-444 | the next bytes exactly when there are as many |
| Payload.PayloadCursor.Number | src/binary.rs:446-466 | the next little-endian number |
| Payload.PayloadCursor.TakeText | src/binary.rs:468-482 | the next text exactly when it is valid and printable |
| Payload.DecodeFile | src/binary.rs:376-410 | the file that stands at the cursor exactly when a readable one does |
| Payload.DecodeHead | src/binary.rs:336-371 | the file count exactly when the head is that of the record |
| Payload.Decode | src/binary.rs:327-425 | accepts exactly the containers for the record that hold readable files, and no path it returns leads outside the root |
| Payload.EncodeThenDecode | src/binary.rs:250-425 | decoding an encoded payload gives back its files exactly when digests are lower case and paths printable |
| Payload.DecodeThenEncode | src/binary.rs:250-425 | encoding what was decoded gives back the bytes exactly when the record has valid fields |
| Payload.EncoderTakesControlPath | src/binary.rs:536-556 | under any valid record the encoder takes a file whose path is a line feed, and the decoder does not |
| Payload.EncoderTakesUpperCase | src/binary.rs:1420-1424 | whatever the encoder takes it also takes with a digest digit in upper case, and the decoder does not |
| PackageImages.FindName | src/pkg.rs:402-404 | the index of the name, or where it would go, decided exactly |
| PackageImages.IsCanonical | src/pkg.rs:406-413 | looking at packages and neighbours decides whether an image has no zeros and ascends |
| PackageImages.PackagesDetermine | src/pkg.rs:13-18 | a canonical image is determined by its packages, whatever the insertion order |
| PackageImages.InsertKeeps | src/pkg.rs:380-392 | inserting at the found index keeps the image canonical and adds just that package |
| PackageImages.RemoveKeeps | src/pkg.rs:394-399 | removing keeps it canonical and drops just that package |
| PackageImages.UpgradeKeeps | src/pkg.rs:304-319 | upgrading keeps it canonical and changes just that version |
| PackageImages.Delta | src/pkg.rs:426-448 | the merge walk counts exactly the names added, removed and changed |
| PackageImages.NoChangeIsEqual | src/pkg.rs:177-186 | no counted change means the same image |
| PackageTransactions.IntentsFit | src/pkg.rs:375-378 | the touched names never exceed twice the package capacity |
| PackageTransactions.PackageTransaction.PrepareIntent | src/pkg.rs:362-373 | refuses sealed transactions, the null name and names touched before |
| PackageTransactions.PackageTransaction.RecordIntent | src/pkg.rs:375-378 | there is always room for another touched name |
| PackageTransactions.PackageTransaction.InsertPackage | src/pkg.rs:380-392 | shifts the tail in place and inserts, or refuses and changes nothing |
| PackageTransactions.PackageTransaction.RemovePackage | src/pkg.rs:394-399 | shifts the tail in place and blanks the last slot |
| PackageTransactions.PackageTransaction.Install | src/pkg.rs:282-290 | adds exactly the package, or fails with the first error that applies and changes nothing |
| PackageTransactions.PackageTransaction.Remove | src/pkg.rs:292-302 | drops exactly the package at the expected version, or fails and changes nothing |
| PackageTransactions.PackageTransaction.Upgrade | src/pkg.rs:304-319 | changes exactly the version, or fails and changes nothing |
| PackageTransactions.PackageTransaction.ReconcileSelection | src/pkg.rs:324-360 | the candidate is exactly the selection and sealed, or the first bad selection restores everything |
| PackageTransactions.SelectionTaken | src/pkg.rs:335-358 | a selection is taken exactly when it has one nonzero version per nonzero name and fits |
| PackageTransactions.SelectionOrderIrrelevant | src/pkg.rs:321-323 | the registry's order cannot change the image |
| Ledger.PackageLedger.Restore | src/pkg.rs:112-124 | opens exactly canonical images within capacity that are not a filled generation 0 |
| Ledger.PackageLedger.Begin | src/pkg.rs:143-161 | a transaction opens exactly for the current authority, on the current image |
| Ledger.PackageLedger.Commit | src/pkg.rs:165-203 | a transaction of this ledger is stale exactly when the state changed since it began; otherwise only generation exhaustion stops it; the canonicity check never fails |
| Ledger.PackageLedger.PushCheckpoint | src/pkg.rs:245-258 | the slots hold the last four images |
| Ledger.PackageLedger.Rollback | src/pkg.rs:207-243 | with current authority it fails exactly on empty history or generation exhaustion, and otherwise restores the last image under a new generation |
| Ledger.PackageLedger.VersionOf | src/pkg.rs:137-141 | the installed version of a name |
| Ledger.CommitsPush | src/pkg.rs:165-203 | any number of commits leaves the last four images in the slots |
| Ledger.RollbacksUndoCommits | src/pkg.rs:165-243 | up to four commits are undone by as many rollbacks, under a larger generation |
| Ledger.FiveCommitsForgetTheFirst | src/pkg.rs:245-258 | a fifth rollback does not reach the start |
| Ledger.SlotsAreTopOfStack | src/pkg.rs:207-258 | after any steps the slots are the top of an unbounded undo stack, as many as the steps leave |
| Bytes.FromToLe | src/generation.rs:168-190 | a number that fits is read back from its bytes |
| Bytes.ToFromLe | src/generation.rs:168-190 | bytes are written back from their number |
| Bytes.ToLeAt | src/generation.rs:168-190 | the low byte comes first: byte k counts 256 to the power of k |
| Generation.Encode | src/generation.rs:64-86 | writes the image to the front of the buffer and nothing else, or refuses and changes nothing |
| Generation.RecordsRead | src/generation.rs:113-132 | the records are those of the packages exactly when each reads as its package |
| Generation.Decode | src/generation.rs:88-142 | succeeds exactly on the encodings of well-formed images and returns the image; otherwise the error names the first fault |
| Generation.UnreadableOnce | src/generation.rs:88-142 | no bytes are refused for two reasons |
| Generation.ValidatePackages | src/generation.rs:154-166 | the walk with the name before accepts exactly canonical packages |
| Generation.HeaderOpens | src/generation.rs:64-86 | an image opens with its magic, its format and its header size |
| Generation.FromLedger | src/generation.rs:27-38 | the image of a ledger is well formed and can always be restored |
| Generation.RestorableExactly | src/generation.rs:56-58 | a decoded image is refused by restore exactly when it is a filled generation 0 |
| Generation.UnrestorableImage | src/generation.rs:56-58 | such an image decodes |
| Generation.RoundTrip | src/generation.rs:27-142 | every reachable ledger survives its bytes with packages and authority |
| Pointer.HexInjective | src/store.rs:325-333 | different digests have different names |
| Pointer.EncodeDigest | src/store.rs:325-333 | the digest in lower-case hexadecimal |
| Pointer.PointerIsSpelled | src/store.rs:303-333 | a pointer is sixty-four digits in lower case and a line feed |
| Pointer.DecodePointer | src/store.rs:303-323 | accepts exactly the pointer texts of digests other than the null one |
| GenerationStore.StoreKeepsSound | src/store.rs:67-100 | storing a fitting image keeps every stored image sound |
| GenerationStore.ChainReachesFirst | src/store.rs:102-121 | parent links strictly decrease the generation and reach an image without a parent |
| GenerationStore.FilesystemGenerationStore.Active | src/store.rs:227-236 | the pointer file always decodes to the digest it was written for |
| GenerationStore.FilesystemGenerationStore.LoadGeneration | src/store.rs:123-132 | a stored image always hashes to its name and decodes |
| GenerationStore.FilesystemGenerationStore.ReplacePointer | src/store.rs:238-252 | the pointer is the old one or the new one wherever it stops; done means synced and nothing left behind |
| GenerationStore.FilesystemGenerationStore.PublishImmutable | src/store.rs:266-276 | the image is there whole or not at all; done means synced and nothing left behind |
| GenerationStore.FilesystemGenerationStore.Publish | src/store.rs:67-100 | old or new pointer, always to a stored image; without faults it succeeds exactly on a fitting image, and an error other than of the disk names what does not fit; done means no temporary is left, the pointer is synced, and so is the image if it was written now |
| GenerationStore.FilesystemGenerationStore.Rollback | src/store.rs:102-121 | old pointer or the parent's; without faults it refuses only another active image, and as such, so the parent is never missing |
| GenerationStore.FilesystemGenerationStore.PublishAndRollBack | src/store.rs:67-121 | rolling back what was just published restores the pointer there was |
| DeadCode.SearchIsComplete | src/crucible.rs:322-362 | a drained queue has marked exactly the live instructions |
| DeadCode.QueueHasRoom | src/crucible.rs:337-358 | the queue never drops a node: no instruction is queued twice |
| DeadCode.DcePass.MarkLive | src/crucible.rs:310-362 | marks exactly what is reachable from the first instruction |
| DeadCode.DcePass.Run | src/crucible.rs:305-372 | exactly the unreachable instructions become dead, counted exactly |
| DeadCode.SweepPreservesExecution | src/crucible.rs:305-372 | after any number of steps the swept program is in the same state, jumps and all |
| DeadCode.SweepTwice | src/crucible.rs:305-372 | a second sweep changes nothing |
| DeadCode.LiveIsWhatControlReaches | src/crucible.rs:328-362 | what is live is the least set that holds the entry and all that control may go on to, with jump bytes read as signed |
| Ir.OffsetIsSigned | src/crucible.rs:350-350 | a jump byte is a signed byte |
| Structured.ScanConcat | src/crucible.rs:476-491 | scanning for a loop end goes through a concatenation |
| Structured.LoopSplits | src/crucible.rs:476-491 | the end found delimits a balanced body |
| Structured.ExecIsWhatRuns | src/crucible.rs:44-90 | structured execution, which the unroller is proved against, is what the small-step machine does on every jump-free program |
| Unroller.ReplaceMiddle | src/crucible.rs:408-474 | replacing a balanced stretch by one of the same effect preserves execution |
| Unroller.UnrollPreservesExecution | src/crucible.rs:408-474 | with no such loop cut short the unrolled program finishes with the same data as the original on every machine |
| Unroller.UnrollExact | src/crucible.rs:408-474 | on every jump-free program the machine executes the same instructions if and only if no loop is cut that does something and ends before the first halt |
| Unroller.SmallCountsAreKept | src/crucible.rs:408-474 | counts within the unroll factor are never cut short |
| Unroller.NineAreCutShort | src/crucible.rs:415-415 | a loop of nine passes over one working instruction is cut short, with a RET behind it |
| Unroller.EightAreKept | src/crucible.rs:415-415 | a loop of eight passes is not |
| Unroller.CutLoopExecutesLess | src/crucible.rs:415-472 | cutting a working loop that ends before the first halt executes strictly less |
| Unroller.LiveRuns | src/crucible.rs:44-90 | a jump-free program does what it does up to its first halt |
| Unroller.UnrollUnfinished | src/crucible.rs:408-474 | unrolling a loop that control never gets out of changes nothing |
| Unroller.NothingIsCutBehindRet | src/crucible.rs:408-474 | behind a RET no loop counts as cut |
| Unroller.JumpsMissTheirTarget | src/crucible.rs:439-469 | a jump over an unrolled loop lands in its copies |
| Unroller.UnrollJumpFree | src/crucible.rs:408-474 | unrolling brings in no jump |
| UnrollerPass.Pass.FindLoopEnd | src/crucible.rs:476-491 | finds the matching end exactly when there is one |
| UnrollerPass.Pass.FindUnrollable | src/crucible.rs:411-437 | a loop is unrolled exactly when it has an end, a trip count of two or more, and a body that fits |
| UnrollerPass.Pass.ShiftTail | src/crucible.rs:450-458 | the tail moves right whole |
| UnrollerPass.Pass.Rewrite | src/crucible.rs:439-469 | markers blanked and copies inserted, as the unrolled program says |
| UnrollerPass.Pass.Run | src/crucible.rs:408-474 | terminates with the unrolled program in place and both counters exact |
| Helix.TopoSorter.Sort | src/helix.rs:290-350 | true exactly when the graph is in range and acyclic; then the order is a permutation with every dependency first |
| Helix.TopoSorter.CountEdges | src/helix.rs:303-315 | the in-degrees count the dependencies, duplicates and all, or an index is out of range |
| Helix.TopoSorter.Release | src/helix.rs:335-346 | each dependency is counted down once for each time it was counted up, never past zero |
| Helix.BuildOrderIsAcyclic | src/helix.rs:290-350 | a complete build order shows the graph acyclic |
| Helix.LeftoverHasCycle | src/helix.rs:349-349 | if nodes are left over the graph has a cycle |
| Helix.QueuedOnce | src/helix.rs:317-347 | no node is queued twice |

## Left out

- Solver bookkeeping that nothing reads (reasons, levels per variable and per trail entry), `extract_selection` and `id_of` would add only easy members.
- Statistics counters are unbounded numbers.
- Numbers of candidates, clauses and literals keep the source's constants; strings are character or byte sequences without Unicode normalisation, and the order of a `BTreeMap` over packages is either the order of first appearance or arbitrary.
- Choosing candidates from repositories, catalogs and sources (`resolve_domain` and below), fetching, building, signatures, keyrings and the clock: the candidates are a parameter.
- Service.RecordIsValid: name and receipt field validation is left out, as are all field validators of the service.
- Service.PackageService.InstallPayload: the store's own refusals over files appear as faults of the schedule; `BinaryStore` models them.
- Service.PackageService.RemoveBinary: the same for a removal.
- Structured.ExecIsWhatRuns: the source has no interpreter, so the machine is the model's own.
- Field validators for receipts, names, routes and policies, and the parts of a receipt that only they read.
- A crash between two renames inside the install store: the journal records receipts only and has no file-level recovery.
- File permissions, symbolic links, directories, file locks, fsync ordering and temporary names that outlive a crash in the install store; the target root is a flat map from paths to files.
- BinaryStore.BinaryInstallStore.SetAsideAll: the order in which files are moved aside is arbitrary, where the source goes through the sorted union of old and new paths, or the order of the receipt on removal.
- Size limits on generation files and pointers when they are read back, which stored images always meet.
- The state digest is any function of the image, not the FNV one; nothing rests on its being injective.
- Local arrays of fixed size (decision frames, queues, bitset, checkpoints) are sequences of fixed length; arrays that belong to an object are arrays.
- `InlinerPass` and `compact` in `src/crucible.rs`: neither adjusts relative jumps, so the passes as composed do not preserve execution; programs with jumps are covered for dead code elimination only.
- Unroller.UnrollPreservesExecution: covers jump-free programs, since inserting copies moves the targets of relative jumps.
- `WorkQueue::pop_priority` and the dispatcher in `src/helix.rs`, the thermal governor, importers, hardware plans, the registry and the command line.
