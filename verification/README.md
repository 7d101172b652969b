# rsbackup: a verified model

rsbackup makes rsync backups of volumes onto devices, prunes old ones and reports on them. This project models
the parts of it whose correctness is not obvious from reading one function, and proves what they promise for all
inputs, all runs and all interleavings. Nothing here runs the original program.

- **The action scheduler** (`ActionRuns`, `ActionOutcomes`, `ActionList`). Named actions with exclusive resources,
  named and glob dependencies, priorities and an optional time limit. `ActionRuns` says what a run is, with
  completions in any order; `ActionOutcomes` proves what every run comes to; `ActionList` is the list as it is
  coded, with `trigger`, `completed` and `cleanup` calling each other while an action's `go` may complete before it
  returns, and each of its methods extends a ghost trace that is such a run. In short: the final `states` is the
  unique solution of "an action succeeds iff its own outcome is success and everything it requires succeeded", and
  a list of actions can be finished iff its named dependencies exist and no cycle is among them. `JobActions` applies
  this to the lists that a backup and a prune make, and `GlobDependencies` compares the code with its documentation.
- **The concurrent backup protocol** (`BackupProtocol`, `BackupRuns`). One thread per volume, a global lock that is
  given up during rsync, a condition variable, and a limit of one job per device and per group.
- **The life of a backup on disk** (`Lifecycle`, `BackupHistory`, `JobEndings`). Its database row, its directory and
  its `.incomplete` marker are updated one after the other; the process may die between any two steps and be started
  again.
- **Pruning** (`Dates`, `DecayBuckets`, `PruneDecay`, `PruneAge`, `PruneVolume`). Day numbers, the decay policy's
  buckets, both policies, the selection of obsolete backups, and what marking them leaves of a volume.
- **The statistics cache of a volume** (`Volumes`), over shared mutable backups.
- **Data algorithms**: table compression (`CompressTable`), the order on names (`NameOrder`), splitting and quoting
  (`Words`, `LineGrammar`), list directives written and read back (`VectorDirective`, `LineFilling`), the indentation
  parser (`ConfigLayout`) and text tables (`TextTable`).

`Strings` has the order of `std::string` and the traversal of a `std::map`, `Common` a type and two functions used
throughout, and `Folding` the one predicate that lets a definition stay folded in large proofs.

What the code does and its comments do not say:

- A glob dependency always demands success, whatever its flags; `src/Action.h` 138-140 describes a glob-only
  dependency as one on order alone. `NotAsDocumented` is a list of two actions for which that makes a difference,
  `RunAsDocumentedIff` says in which runs it makes none, and `MeetsDocumentationIff` for which lists it makes none
  whatever succeeds and fails: those in which every action matched by a pattern is also needed, directly or through
  others, in the documented way. A glob that matches its own action can never be met (`SelfMatchNeverFinishes`).
- Without a limit, `go` ends normally only if the dependencies exist and have no cycle. Otherwise it throws, or goes
  round its loop for ever without a change (`Spins`).
- Day numbers count the leap day twice in a leap year after February, and once too early before, so every date of a
  leap year is one too high; a difference of dates is exact only if both or neither fall in leap years
  (`DifferenceExactIffSameLeapness`).
- The decay policy removes every backup on a device if there are two or more and all are past both its start and its
  limit (`NothingSurvivesIff`).
- The order on names is not transitive on all names. `TransitiveIff` says on which sets of names it is: those without
  three names of which one, with tokens that begin those of the other two, lies between them as a string the other way
  round than their tokens do. Names without leading zeros are such a set; `LeadingZeroCycle` gives, for every number
  without a leading zero, three names that are not.
- Compression merges neighbours only, so what it leaves depends on the order of the rows (`OrderMatters`); and it does
  not merge a row with one that it is within, although that would be right (`UnionExactIff`).
- `split` does not advance on a vertical tab or newline at the start of a word. `EndlessIffStuck` says on which lines it
  runs for ever; those with such characters only inside quotes are not among them (`TerminatesWithout`).
- A list directive does not survive being written and read back if its first word is "+", does not fit on the first
  line, or if any word has a newline in it; and `extend`, given a directive without arguments, looks for one past the
  end of the line's words (modelled as `Failed`). `VectorRoundTrip` says exactly when it does survive.
- A directory without a marker is full, but need not be a backup recorded as COMPLETE: a crash before the row is updated
  leaves UNDERWAY, an error after the marker has been removed FAILED, and a removal that has been decided but not begun
  PRUNING. `UnmarkedCompleteIff` and `UnmarkedRow` tell the row from the last steps about the backup.
- `calculate` leaves `oldest` and `newest` as they were when no complete backup is left.

## Model

| member | source | states |
|---|---|---|
| ActionRuns.StepConsistent | src/Action.cc:86-131 | one step of the scheduler keeps the running actions' resources disjoint, `resources` their union, and every action in exactly one of pending, running and done |
| ActionRuns.RunConsistent | src/Action.cc:86-142 | the same in every state of every run |
| ActionRuns.StepEffort | src/Action.cc:86-131 | every step, including one inside a re-entrant call, uses up something finite |
| ActionRuns.RunLength | src/Action.cc:50-107 | a run has at most two events per action |
| ActionOutcomes.ExplanationUnique | src/Action.cc:144-170 | with acyclic dependencies at most one assignment of success and failure satisfies "succeeded iff own outcome and all required predecessors succeeded" |
| ActionOutcomes.ReadyDependenciesDone | src/Action.cc:144-186 | an action that is not blocked has all its predecessors finished, and is failed by a dependency iff some required predecessor failed |
| ActionOutcomes.RunSettled | src/Action.cc:63-133 | at every point of a run each finished action has all its predecessors finished, and succeeded iff its own outcome and all its requirements did |
| ActionOutcomes.RunInOrder | src/Action.cc:172-186 | every action is finished after everything it depends on, glob matches included |
| ActionOutcomes.FinishedRunIsAcyclic | src/Action.cc:50-61 | a run that finished everything proves that the dependencies have no cycle: the order of completion ranks them |
| ActionOutcomes.DoneActionsKnown | src/Action.cc:172-186 | an action gets past its dependency check only if every name it depends on has a state |
| ActionOutcomes.FinishedRunExplained | src/Action.cc:113-133 | the final `states` satisfies the equation |
| ActionOutcomes.ScheduleIndependence | src/Action.cc:63-133 | two finished runs of the same actions, whatever their orders of completion, end with the same `states` |
| ActionOutcomes.NeverStartedTwice | src/Action.cc:97-106 | `go` is called at most once on each action, and on no other |
| ActionOutcomes.RunsExactlyTheEarned | src/Action.cc:63-107 | in a finished run `go` is called exactly once on an action whose requirements all succeeded and never on another |
| ActionOutcomes.LimitedRunSound | src/Action.cc:66-85 | also when a time limit cancels and kills, nothing is started without its requirements and nothing succeeds unearned |
| ActionOutcomes.TimeLimitOnlyRemoves | src/Action.cc:66-85 | compared with an undisturbed run a time limit only turns successes into failures and started actions into ones not started |
| ActionOutcomes.QuiescentMeansHeld | src/Action.cc:86-107 | when nothing can be dispatched, every pending action is held by a running action's resource or by an unfinished predecessor |
| ActionOutcomes.SomethingRuns | src/Action.cc:50-61 | no deadlock: if nothing can be dispatched and something is unfinished then something is running |
| ActionOutcomes.NextEvent | src/Action.cc:63-107 | an unfinished acyclic list always has a next event that is no cancellation |
| ActionOutcomes.RunCompletes | src/Action.cc:50-61 | every run of an acyclic list can be carried on until everything is finished |
| ActionOutcomes.FinishableIffAcyclic | src/Action.cc:50-61 | a list can be finished iff its named predecessors exist and its dependencies have no cycle |
| ActionOutcomes.SelfMatchNeverFinishes | src/Action.cc:188-199 | an action whose glob matches its own name stays pending in every run |
| GlobDependencies.CodedExplains | src/Action.cc:144-170 | the equation above is the code's reading of the dependencies |
| GlobDependencies.AsDocumentedIff | src/Action.h:127-149 | what happens is what is documented iff, by the documentation, no action succeeds although one that the code makes it depend on fails |
| GlobDependencies.RunAsDocumentedIff | src/Action.h:127-149 | the same of the `states` that a run ends with |
| GlobDependencies.NotAsDocumented | src/Action.cc:146-156 | two actions, the second to follow whatever matches the first: if the first fails the second is failed, and by the documentation it is run |
| GlobDependencies.MeetsDocumentationIff | src/Action.h:127-149 | a list behaves as documented whatever succeeds and fails iff everything that a pattern matches is also needed, directly or through others, in the documented way |
| ActionLists.DispatchIsRun | src/Action.cc:86-107 | a sequence of the dispatcher's choices is a run, so all of the above holds of it |
| ActionLists.PriorityOrder | src/Action.cc:86-106 | an action that needs nothing is dispatched before every other action of lower priority, or of the same priority and a later name |
| ActionLists.ActionList.Exclusion | src/Action.cc:86-142 | at every moment, also inside a re-entrant call, `resources` is what the running actions use, no two of them share one, and `actions` and `states` are disjoint and together have exactly the names added |
| ActionLists.ActionList.Add | src/Action.cc:40-44 | a duplicate name is refused and changes nothing; otherwise exactly that action is added |
| ActionLists.ActionList.SetLimit | src/Action.cc:46-48 | a run without a limit so far is one with a limit |
| ActionLists.ActionList.BlockedByResource | src/Action.cc:135-142 | true iff one of the action's resources is in use |
| ActionLists.ActionList.Find | src/Action.cc:188-199 | found iff some unfinished action has the name or matches the glob |
| ActionLists.ActionList.BlockedByDependency | src/Action.cc:172-186 | free iff every predecessor is finished and known; otherwise the first that is not decides between blocked and unknown |
| ActionLists.ActionList.FailedByDependency | src/Action.cc:144-170 | true iff some finished required predecessor failed |
| ActionLists.ActionList.Consider | src/Action.cc:86-100 | an action is ready iff the tests call it startable or lost; and an unknown name means the list is not closed |
| ActionLists.ActionList.Scan | src/Action.cc:86-100 | picks the first ready action that is lost, else the ready action that comes first by priority and name; picks nothing only if nothing is ready |
| ActionLists.ActionList.MarkRunning | src/Action.cc:101-104 | the chosen action's state and resources change as `Start` says, and nothing else |
| ActionLists.ActionList.RecordRan | src/Action.cc:113-126 | an action that ran gives up exactly its resources and gets its state |
| ActionLists.ActionList.RecordNotRun | src/Action.cc:125-126 | an action that did not run leaves the list as failed and changes nothing else |
| ActionLists.ActionList.Cleanup | src/Action.cc:113-133 | extends the run by this action's end, and if it ran by whatever the trigger that follows does |
| ActionLists.ActionList.Completed | src/Action.cc:109-111 | extends the run, and returns with nothing left to dispatch or with an unknown predecessor found |
| ActionLists.ActionList.CancelPending | src/Action.cc:66-85 | after the limit nothing is pending and what is running is left alone |
| ActionLists.ActionList.Trigger | src/Action.cc:63-107 | terminates, although actions complete inside it, with nothing left to dispatch; past the limit nothing is pending |
| ActionLists.ActionList.Go | src/Action.h:104-113 | starting an action that completes before it returns extends the same run |
| ActionLists.ActionList.Wait | src/Action.cc:56-59 | running actions complete in any order, and at the end nothing is running or can be dispatched |
| ActionLists.ActionList.Round | src/Action.cc:56-59 | one turn of the loop finishes a closed acyclic list |
| ActionLists.ActionList.Run | src/Action.cc:50-61 | without a limit it ends normally iff the list is closed and acyclic, and then `states` is the solution of the equation; with a limit a closed list always ends |
| JobActions.BackupJobRuns | src/MakeBackup.cc:245-326 | a backup's list always ends; rsync is run, once, iff the marker and directory could be made, and succeeds iff both do |
| JobActions.PathInjective | src/Prune.cc:67-73 | the path in an action's name tells the host, volume, device and backup, none of the first three having a slash in it |
| JobActions.BackupsName | src/Prune.cc:67-76 | the actions for different backups have different names |
| JobActions.PruneAcyclic | src/Prune.cc:67-85 | the dependencies of a prune exist and have no cycle |
| JobActions.PruneRuns | src/Prune.cc:67-85 | without a limit a prune always ends: each rm is run once, and its clean-up once, later, and even if rm failed |
| JobActions.OneRemovalPerDevice | src/Prune.cc:79-85 | at every moment at most one removal or clean-up is running on a device |
| JobActions.OneBackupPerDevice | src/Prune.cc:67-85 | of the backups on a device, by their own host, volume, device and id, at most one is being removed or cleaned up after |
| JobActions.RemovedTogetherIff | src/Prune.cc:79-85 | two backups can be being removed at the same time iff they are on different devices |
| BackupRuns.StepDevices | src/Concurrency.h:19-42 | each device's counter stays 1 less its holders, who are at most one |
| BackupRuns.StepGroups | src/Concurrency.h:19-42 | the same for concurrency groups |
| BackupRuns.StepWaiter | src/MakeBackup.cc:615-636 | no step that leaves a thread in `cond.wait` lets it take a device |
| BackupRuns.StepAttempts | src/MakeBackup.cc:610-631 | devices attempted are all those no longer in the thread's set, each once |
| BackupRuns.StepHooks | src/MakeBackup.cc:431-512 | the hook state says how often the hooks were run and whether a backup was made |
| BackupRuns.RunSound | src/MakeBackup.cc:605-714 | all of this, and the lock's exclusion, in every interleaving |
| BackupRuns.Exclusion | src/Concurrency.h:19-42 | in every interleaving at most one job has a device, at most one a group, and `unused` is 1 less the holders |
| BackupRuns.WaiterIsObstructed | src/MakeBackup.cc:615-636 | a waiting thread holds no limit and another thread holds one it needs, so no wakeup is lost |
| BackupRuns.NoDeadlock | src/MakeBackup.cc:605-638 | while a thread has not ended some thread can go on, without a spurious wakeup and without passing a device over |
| BackupRuns.StepWork | src/MakeBackup.cc:612-637 | every step but a spurious wakeup reduces the work left |
| BackupRuns.RunIsFinite | src/MakeBackup.cc:605-638 | the length of a run is bounded by the work to be done and the number of spurious wakeups |
| BackupRuns.RunCanEnd | src/MakeBackup.cc:678-714 | every run can be carried on until all threads have ended, with no device passed over from there on |
| BackupRuns.EveryDeviceAttemptedOnce | src/MakeBackup.cc:431-512 | a volume attempts every device exactly once unless its pre-hook fails; the pre-hook, if there is one, is run once if a backup was made or it failed, and otherwise not; the post-hook is run, once, iff there is one and a backup was made |
| BackupRuns.TakeableIff | src/MakeBackup.cc:615-622 | a thread with the lock can take a device iff it has still to deal with it and no thread has that device or the thread's group |
| BackupRuns.LockableIff | src/MakeBackup.cc:605-638 | a thread that is not asleep can take the lock iff no thread has it |
| BackupRuns.CanCopy | src/MakeBackup.cc:523-537 | a thread that has chosen a device can make its backup there by one step, whatever the others do |
| BackupRuns.CanDecline | src/MakeBackup.cc:431-471 | or leave the device out; and its pre-hook can fail iff there is one that has not been run |
| BackupRuns.CopyTogetherIff | src/MakeBackup.cc:313-318 | any number of backups can be running rsync at once, iff they are on different devices and of volumes in different groups |
| BackupRuns.WillingBacksUpEverywhere | src/MakeBackup.cc:605-638 | a volume that passes no device over, and whose pre-hook does not fail, has a backup on every device in the end |
| BackupRuns.EverythingBackedUp | src/MakeBackup.cc:678-714 | some run ends with a backup of every volume on every device |
| Lifecycle.StepSafeAt | src/MakeBackup.cc:218-239 | no single step, crash or restart leaves a backup claimed COMPLETE without its full directory, a partial directory unmarked, a PRUNED one present or a directory without a row |
| Lifecycle.StepOwnJob | src/MakeBackup.cc:319-427 | a step leaves the job it belongs to at a place that matches the disk |
| Lifecycle.StepOtherJob | src/Prune.cc:90-153 | a step of one backup's job does not disturb another's |
| Lifecycle.RunSound | src/MakeBackup.cc:218-427 | the same over runs from any sound state |
| Lifecycle.CrashConsistency | src/Prune.cc:315-377 | however often the program is run and dies, COMPLETE means a full unmarked directory, a directory that is not full is marked, PRUNED means no directory, and every directory has a row |
| Lifecycle.CompleteMeansCopied | src/MakeBackup.cc:319-404 | a row turns COMPLETE only after rsync reported success for it |
| Lifecycle.PrunedMeansRemoved | src/Prune.cc:90-151 | a row turns PRUNED only after rm reported success for it |
| BackupHistory.LastTold | src/MakeBackup.cc:218-427 | the last step about a backup tells its row, and what of its directory and marker is there |
| BackupHistory.UnmarkedCompleteIff | src/MakeBackup.cc:327-427 | an unmarked directory is full, and its row says COMPLETE iff the last two steps about it removed the marker without an error and updated the row, or nothing was done and it said so before |
| BackupHistory.UnmarkedRow | src/MakeBackup.cc:327-427 | otherwise it is UNDERWAY, FAILED or PRUNING, according to the last step about it, which is one of six |
| BackupHistory.UnmarkedUnderway | src/MakeBackup.cc:327-362 | a run with a crash that leaves an unmarked directory UNDERWAY |
| BackupHistory.UnmarkedFailed | src/MakeBackup.cc:327-347 | a run without a crash that leaves one FAILED |
| BackupHistory.UnmarkedPruning | src/Prune.cc:332-340 | a run without a crash that leaves one PRUNING |
| JobEndings.BackupCanEnd | src/MakeBackup.cc:352-427 | from any state, with any other jobs at any point, a backup of any name can be made, or fail in any of four ways; it leaves the stated row, directory and marker and changes nothing else |
| JobEndings.RemovalCanEnd | src/Prune.cc:90-153 | any backup that has not been removed can be, or its removal fail in any of three ways, with nothing else changed |
| JobEndings.RemovalForgotten | src/Prune.cc:366-377 | and then nothing of it need be left |
| JobEndings.BackupPossible | src/MakeBackup.cc:352-427 | from every state, after a crash at any moment, some run makes a COMPLETE, full and unmarked backup of any name and changes nothing else |
| Lifecycle.RecoveryPossible | src/Prune.cc:258-363 | from any state a crash can leave, some run leads to complete backups only, and to all of them |
| Lifecycle.QuietPruneCleans | src/Prune.cc:258-363 | and every run does that marks all backups that are not complete, has no error and finishes its jobs, whatever else it prunes |
| CompressTable.UnionCoversBoth | src/CompressTable.h:50-67 | a merged row stands for exactly the tuples of the two, if they were mergeable |
| CompressTable.UnionExactIff | src/CompressTable.h:50-67 | without empty cells, a merged row stands for exactly the tuples of the two iff they are mergeable or one is within the other |
| CompressTable.MergedMeansTheSame | src/CompressTable.h:83-96 | merging two neighbours does not change what the table stands for |
| CompressTable.Table.PushBack | src/CompressTable.h:74-80 | the new row stands for the given tuple and no other |
| CompressTable.Table.IsMergeable | src/CompressTable.h:50-58 | true iff the rows have one width and differ in at most one column |
| CompressTable.Table.Merge | src/CompressTable.h:63-67 | the column-wise union |
| CompressTable.Table.Pass | src/CompressTable.h:83-96 | one round, in which each row takes in as many of those after it as it can, keeps the meaning, changes something iff some neighbours can be merged, and then has fewer rows |
| CompressTable.Table.Compress | src/CompressTable.h:83-96 | terminates with the same meaning and no two neighbours mergeable; a table with none already is unchanged |
| CompressTable.OrderMatters | src/CompressTable.h:83-96 | for all rows of which only the first and third can be merged: none is merged as they stand, and two are if the third comes second |
| NameOrder.SameLengthOrder | src/namelt.cc:40-50 | comparing digit strings of one length as strings compares their values |
| NameOrder.StrippedOrder | src/namelt.cc:27-50 | without leading zeros, length and then string order is the order of values |
| NameOrder.ScanRun | src/namelt.cc:27-38 | the loops find a run's end and its digits after leading zeros, with the same value |
| NameOrder.CompareRuns | src/namelt.cc:25-50 | two runs compare as their values do and are both passed whole |
| NameOrder.CompareTokens | src/namelt.cc:23-62 | one turn of the loop decides as the first tokens do, or passes both |
| NameOrder.NameLt | src/namelt.cc:19-64 | the loop decides the order of the names' tokens, and on a tie of the shorter the order of the strings |
| NameOrder.Trichotomy | src/namelt.cc:19-64 | of two different names exactly one is less, and none is less than itself |
| NameOrder.TokenPrefixIsPrefix | src/namelt.cc:19-64 | without leading zeros, names whose tokens agree agree as strings |
| NameOrder.CanonicalOrder | src/namelt.cc:19-64 | on names without leading zeros it is the dictionary order of tokens, a proper prefix first |
| NameOrder.TransitiveIff | src/namelt.cc:19-64 | on a set of names it is transitive iff there are no three of which one, whose tokens begin those of the other two, lies between them as a string the other way round than their tokens do |
| NameOrder.CanonicalTransitive | src/namelt.cc:19-64 | and so it is transitive on names without leading zeros |
| NameOrder.CommonPrefix | src/namelt.cc:23-62 | a common prefix that does not end in a digit makes no difference |
| NameOrder.LeadingZeroCycle | src/namelt.cc:27-63 | for every number without a leading zero, after any text that does not end in a digit: three names, one of them with a zero put before the number, each less than the next and the last less than the first |
| NameOrder.SmallerNumberFirst | src/namelt.cc:25-49 | after a common beginning that does not end in a digit, or one that differs in leading zeros alone, the name that goes on with the smaller number is less, whatever follows |
| NameOrder.DigitFirst | src/namelt.cc:50-53 | the name that goes on with a digit is less than one that goes on with another character |
| NameOrder.SmallerCodeFirst | src/namelt.cc:54-61 | of two names that go on with other characters, the one whose character has the smaller code as a signed byte is less |
| NameOrder.ShorterFirst | src/namelt.cc:62-63 | if all that one name has is in the other too, but for leading zeros, they compare as strings; a name that the other begins with is less |
| Words.QuotedWord | src/split.cc:44-62 | finds the word between the quotes and where it ends, or that it does not end |
| Words.PlainWord | src/split.cc:67-75 | finds the longest run without spaces, quotes and backslashes |
| Words.NextWord | src/split.cc:41-77 | a word and what follows it mean what the line from there means |
| Words.Indentation | src/split.cc:30-40 | the column at which the first word starts, a tab going to the next multiple of 8 |
| Words.Split | src/split.cc:24-78 | the words, error or endless loop that the line means, and the column it starts at with tabs of 8 |
| Words.EndlessIffStuck | src/split.cc:41-77 | runs for ever iff, reading the line, a vertical tab or newline comes up outside quotes and comments and before an error |
| Words.TerminatesWithout | src/split.cc:41-77 | so it terminates on every line with no vertical tab or newline outside quotes |
| Words.Quote | src/ConfBase.cc:23-48 | the word quoted and escaped if it needs it |
| Words.QuoteList | src/ConfBase.cc:50-58 | the quoted words with spaces between |
| Words.UnquoteEscaped | src/split.cc:44-62 | reading an escaped word up to the closing quote gives it back |
| Words.QuotedWordRead | src/ConfBase.cc:23-48 | a quoted word at the end of a line or before a space is read as that word |
| Words.QuoteSplitRoundTrip | src/ConfBase.cc:50-58 | splitting the quotation of any list of strings gives that list and no error |
| LineGrammar.SplitIff | src/split.cc:41-77 | a line is split iff it is made of blanks, bare words, quoted words and perhaps a comment, which is ignored to the end of the line; and into the words that it is made of |
| LineGrammar.BareIff | src/ConfBase.cc:23-48 | a word is left unquoted iff it would be read as itself |
| LineGrammar.TabStops | src/split.cc:30-40 | a space is one column wide and a tab goes to the next multiple of 8 |
| VectorDirective.WriteVector | src/ConfBase.cc:219-238 | the lines written: the words in order, a line broken before a word that reaches column 80 |
| LineFilling.WrittenIsFilled | src/ConfBase.cc:219-238 | the lines have the words in order; a word is on the current line iff it ends before column 80, not counting its own quotes |
| VectorDirective.ContinuedIsOneLine | src/ConfDirective.cc:86-92 | a list continued with "+" on another line is the same as the list written on one line |
| VectorDirective.ForgottenIff | src/ConfDirective.cc:86-92 | what was configured before makes no difference iff the first word is not "+" |
| VectorDirective.Setting.Apply | src/Conf.cc:303-334 | a blank line or another directive changes nothing, a line that cannot be split or has no argument is an error |
| VectorDirective.Setting.ReadLines | src/IO.cc:78-87 | reading a text line by line gives the list, or the error, that the text means |
| VectorDirective.ReadRemaining | src/ConfDirective.cc:86-92 | from the middle of a written list on, the rest is appended word by word |
| VectorDirective.ReadRemainingCut | src/split.cc:44-62 | a newline in any later word makes reading fail |
| VectorDirective.ReadBare | src/ConfBase.cc:224-233 | if the first word does not fit the first line is a bare directive, which cannot be read |
| VectorDirective.ReadFitting | src/ConfDirective.cc:86-92 | otherwise reading gives the list, or appends it but for its "+", or fails at a newline |
| VectorDirective.VectorRoundTrip | src/ConfBase.cc:219-238 | a list is read back whatever was configured before iff its first word is not "+" and fits, and no word has a newline |
| ConfigLayout.Indent.Check | src/Indent.cc:25-46 | the stack stays strictly increasing from 0; it is cut back to a matching entry or extended after a new level, and the level is that of its last entry if acceptable; otherwise nothing changes |
| ConfigLayout.SectionOwner | src/Indent.cc:25-46 | the lines that opened the stacked sections are those the layout gives: the last line before that is indented less, and its own |
| ConfigLayout.PlaceFound | src/Indent.cc:28-44 | a line that the layout has a place for is never refused |
| ConfigLayout.LevelRight | src/Indent.cc:25-46 | so `check` finds a level iff the layout gives the line one that is acceptable, and it is that one |
| ConfigLayout.Reader.Enter | src/Conf.cc:314-327 | the context, host and volume of a level |
| ConfigLayout.ContextPresent | src/ConfDirective.cc:99-114 | in a proper file the context is a host or volume that an earlier line defines, and every directive that needs a host or a volume has one: `check` and `set` never meet a null one |
| ConfigLayout.ContextIff | src/Conf.cc:313-327 | in a proper file an unindented line applies to the root, and another to the host or volume defined by the last line that is indented less, a host if that is not indented |
| ConfigLayout.HostIff | src/Conf.cc:313-327 | and the host is that of the last unindented line before |
| ConfigLayout.Reader.Locate | src/Conf.cc:313-316 | a level is found iff the layout has a place for the line |
| ConfigLayout.Reader.Place | src/Conf.cc:313-327 | the context is then the one that the layout gives, and the host and volume of an open section are never null |
| ConfigLayout.Reader.ReadLine | src/Conf.cc:303-334 | accepts a line iff it is known, in place and in order; a missing host or volume is never the reason for refusal |
| ConfigLayout.MeaningOfPrefix | src/Conf.cc:303-334 | later lines do not change what an earlier one applies to |
| ConfigLayout.ReadOneFile | src/Conf.cc:292-339 | a file is accepted iff every line is proper, and every directive is applied to the host or volume that its indentation says; reading stops at the first line that is not |
| TextTable.OverlayRegular | src/Document.cc:66-77 | adding a cell leaves the others whole iff it hides each wholly or not at all |
| TextTable.Table.SetCell | src/Document.cc:66-77 | exactly the cell's rectangle is changed, and the table grows to hold it |
| TextTable.Table.AddCell | src/Document.cc:52-57 | the cell is put at the cursor, which moves to the first free position to its right; no other cell is damaged iff each that is overlapped is hidden wholly |
| TextTable.Table.NewRow | src/Document.cc:59-64 | the cursor moves to the first free position of the next row |
| TextTable.Table.SingleWidths | src/Text.cc:157-173 | the least widths for the cells of one column |
| TextTable.Table.Widen | src/Text.cc:179-190 | the first column of a wider cell becomes just as wide as the cell needs |
| TextTable.Table.ColumnWidths | src/Text.cc:157-192 | each width is the least that suits the cells that start in the column, those to its right having what their cells of one column need |
| TextTable.WidthsUnique | src/Text.cc:157-192 | there is only one such assignment of widths |
| TextTable.WidthsAreLeast | src/Text.cc:157-192 | a column of a given width has room for its cells of one column, and for the wider ones that start in it, iff it is no narrower than the width found |
| TextTable.EverythingFits | src/Text.cc:174-192 | every cell's text fits in its span, so the space left over is never negative |
| TextTable.FrontierMoves | src/Text.cc:195-241 | a row laid out up to a column has passed the cell that is there, if it starts in this row |
| TextTable.FieldShows | src/Text.cc:201-222 | a cell's field is as wide as its span and has nothing but spaces beside the text, in a heading as many before it as after it or one less, otherwise none before it |
| TextTable.Table.Column | src/Text.cc:196-240 | adds a cell, a blank or nothing, and leaves what is there |
| TextTable.Table.Row | src/Text.cc:194-243 | every cell that starts in the row shows its text at its column, every other column is blank, and the length depends on the widths alone |
| TextTable.Table.RenderText | src/Text.cc:155-244 | all rows have the same length, and are one line each if every text is |
| Dates.DateCell.Increment | src/Date.cc:96-107 | from a valid date to the next valid date |
| Dates.DateCell.AddMonth | src/Date.cc:109-117 | the same day one month on, or that month's last day |
| Dates.ValidIff | src/Date.cc:27-42 | the valid dates are those of the Gregorian calendar, month by month |
| Dates.MonthPasses | src/Date.cc:96-107 | from the first of a month `++` goes through its 28 to 31 days in order and then to the first of the next |
| Dates.YearPasses | src/Date.cc:138-143 | a year is 365 days long, or 366 in a leap year |
| Dates.DayNext | src/Date.cc:138-143 | but for the extra 1 in a leap year, the day number goes up by 1 with each `++` |
| Dates.YearNumber | src/Date.cc:139-139 | what a year adds to the day number, leap years counted |
| Dates.EarlierHasLowerDay | src/Date.cc:158-167 | an earlier date is fewer days on |
| Dates.NumberCountsSteps | src/Date.cc:138-143 | a date's number is 365, plus the `++` steps from 0001-01-01 to it, plus 1 in a leap year; and only that date is that many steps on |
| Dates.LessIsFewerSteps | src/Date.cc:158-167 | every date is reached by `++`, and `<` is the order of the step counts |
| Dates.DifferenceExactIffSameLeapness | src/Date.cc:169-171 | a difference is the true number of days iff both or neither are in leap years, and otherwise out by one |
| Dates.NumberOfNext | src/Date.cc:96-107 | `++` adds 1 to the number, 2 on entering a leap year, 0 on leaving one |
| Dates.NumberWeaklyMonotone | src/Date.cc:138-167 | numbers never go down, and are equal only for the last day of a leap year and the next day |
| Dates.LaterIsNotOlder | src/Date.cc:169-171 | so a backup's age never grows with its date |
| DecayBuckets.CeilLog | src/PrunePolicyDecay.cc:26-28 | the least exponent that reaches its argument |
| DecayBuckets.WindowStartIs | src/PrunePolicyDecay.cc:26-28 | windows that grow by the scale begin where the logarithm says |
| DecayBuckets.WindowsGrow | src/PrunePolicyDecay.cc:26-28 | the first window is as long as the decay window and each is longer than the one before by the scale |
| DecayBuckets.BucketIsWindow | src/PrunePolicyDecay.cc:26-28 | an age falls in exactly one window, and its number is the bucket computed |
| DecayBuckets.BucketMonotone | src/PrunePolicyDecay.cc:26-28 | older backups are in the same or a later bucket |
| PruneDecay.FindOne | src/PrunePolicyDecay.cc:91-110 | one backup in the first pass goes with the too old, takes the place of a younger one in its bucket, or neither |
| PruneDecay.FindOldest | src/PrunePolicyDecay.cc:90-111 | the first pass prunes what is past the limit and finds the oldest of each bucket |
| PruneDecay.PruneRest | src/PrunePolicyDecay.cc:114-130 | the second pass always finds its bucket, and prunes what is not the oldest in it |
| PruneDecay.Prunable | src/PrunePolicyDecay.cc:69-131 | of two or more, a backup is kept iff it is young, or within the limit and the oldest in its bucket; the reason given is right |
| PruneDecay.SurvivesIff | src/PrunePolicyDecay.cc:85-130 | a backup is kept iff it is the only one, or not past the start, or within the limit and the oldest of those that fall in its window |
| PruneDecay.PruningAgainChangesNothing | src/PrunePolicyDecay.cc:85-130 | pruning the survivors on the same day prunes none |
| PruneDecay.NothingSurvivesIff | src/PrunePolicyDecay.cc:85-103 | no backup survives iff there are two or more, all past both the start and the limit |
| PruneDecay.DecayingSurvivorsBounded | src/PrunePolicyDecay.cc:107-130 | at most bucket(limit - start) + 1 backups survive between the start and the limit |
| PruneAge.Prunable | src/PrunePolicyAge.cc:44-68 | prunes the first of the too old, as many as the device can spare, and says why |
| PruneAge.PrunesTheOldest | src/PrunePolicyAge.cc:44-68 | with backups in order of time, that is the first min(q, max(0, n - minimum)), q being how many are too old |
| PruneAge.PrunedIff | src/PrunePolicyAge.cc:54-67 | a complete backup is pruned iff it is too old and the too old ones before it on its device are fewer than the device can spare |
| PruneAge.SortByStatus | src/Prune.cc:267-297 | what is listed for its status alone, and the complete backups of each device in order |
| PruneAge.FindObsolete | src/Prune.cc:258-312 | a backup is listed iff it is unfinished and those are wanted, is being pruned already, or the policy prunes it; none twice |
| PruneAge.MinimumKept | src/Prune.cc:315-326 | after marking, a device still counts its minimum of complete backups, or all it had |
| PruneVolume.FindObsolete | src/Prune.cc:267-309 | the backups of a volume that are to be PRUNING, each once: of the complete ones those that were made more than `prune-age` days before today, as far as there are fewer such before them on the device than it can spare |
| PruneVolume.Prune | src/Prune.cc:258-326 | every backup object then has the status just said, a complete one PRUNING iff it is among those; the statistics follow, and every device still counts its minimum of complete backups, or all it had |
| PruneVolume.OlderPrunedToo | src/PrunePolicyAge.cc:54-67 | if a backup is pruned for its age so are all older ones on its device |
| PruneVolume.HowManyPruned | src/PrunePolicyAge.cc:54-67 | of n complete backups on a device, q of them made more than `prune-age` days before today, min(q, max(0, n - minimum)) are pruned |
| Volumes.CountOneAccurate | src/Volume.cc:54-73 | one turn of the loop keeps the figures those of the backups seen |
| Volumes.Volume.Calculate | src/Volume.cc:49-81 | whatever was cached before, the figures are those of the complete backups; `oldest` and `newest` are kept when there is none |
| Volumes.Volume.AddBackup | src/Volume.cc:83-88 | inserted in order iff there is none of the same time and device, and the figures follow |
| Volumes.Volume.RemoveBackup | src/Volume.cc:90-102 | exactly that backup is removed, if it was there, and the figures follow |
| Volumes.Volume.CountAccurate | src/Volume.h:109-137 | after any sequence of operations `completed` is the number of COMPLETE backup objects, and exactly the devices with some are listed, with theirs |
| Volumes.Volume.ExtremesAccurate | src/Volume.h:109-137 | the oldest and newest times are those of COMPLETE backups, of the volume and of each device, with the size of a newest one |
| Volumes.EqualIff | src/Backup.h:125-132 | two backups count as equal iff they have the same time and device |
| Volumes.Backup.SetStatus | src/Backup.cc:103-109 | a change of status reaches the statistics of the backup's volume |
| Volumes.BeforeTransitive | src/Backup.h:125-132 | by time, then by device name, is a transitive order |
| Volumes.MarkObsolete | src/Prune.cc:315-326 | the listed backups are being pruned, no other changes, and the statistics count what is left |

## Left out

Modelled more simply than the code:

- ActionLists.ActionList.Add: is for lists that have not been run, because an action that is added later may have been
  what an earlier step would have waited for; the code accepts it at any time.
- The scheduler's `Action` objects are values in the list's maps, so aliasing of actions is not modelled; `done` does
  nothing, as in the base class; `fnmatch` is an arbitrary relation.
- An action's outcome is fixed before it runs, except that in a run with a limit it may turn into a failure. The event
  loop is any order of completions. When nothing is running and no limit is set, a loop that goes round for ever is
  the result `Spins`; with a limit, time passes until it is reached.
- `timeLimitExceeded`, which is set by the reactor alone.
- The backup threads are a state machine over the steps between which they may be interleaved, on values; limits are
  1 throughout, as the code makes them; which device a thread takes is any it can lock, because the set is ordered by
  address; hosts' threads, selection and availability are left out, as are exceptions that end a thread.
- In the lifecycle rsync, rm, a database commit and the creation or removal of a file are each one step that may fail;
  rsync and rm die with the process; one process at a time; the retry loops around a busy database are one step.
- Times of backups fit in an `int` when subtracted; a backup's size does not change; years, ages and day numbers are
  unbounded integers.
- `findObsoleteBackups` is for one volume with the `age` policy; backups are not given the text of a reason.
- The decay policy is in exact real arithmetic, for a decay window of at least one day (a shorter one is 0 days and
  divides by zero in the code).
- A configuration line is its indentation, its directive and whether its arguments are in order, which includes names
  being valid and not used before. `include` starts afresh with another file and is left out.
- A table cell's contents are a string that is already rendered; positions and sizes are natural numbers.
- Strings are sequences of characters; names are compared as bytes, and a `char` is signed.

Not modelled:

- `EventLoop`, `Subprocess`, `IO`, `Directory`, `FileLock` and `Database`: system calls and SQLite.
- Reports, graphs, HTML, e-mail, colours: presentation, but for the text table.
- Retiring volumes and devices: it drops rows and directories on purpose, without marking them first.
- The command line, environment overrides, local time: dates and times are given.
- The `exec` and `never` prune policies, the backup policies, selections: external programs or one branch.
- Word wrapping and the parsers of numbers and intervals.
