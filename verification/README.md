# Verified model of Engram's Visual Basic sidecar and evaluation tools

Engram indexes Visual Basic sources through a small sidecar process
(`tools/vb_roslyn_sidecar`) and measures itself with a set of Python tools (`eval`, `tools`). This
project models the parts of both that carry an algorithm or a protocol, and proves what they promise.
`dafny verify dfyconfig.toml` checks everything.

Code that changes things step by step is modelled by classes and loops, each proved against a
specification function; the main results are lemmas about those functions, or `ensures` clauses that
state the promise outright.

## What is modelled

**Return paths** (`VbSyntax`, `ControlFlow`, `PathEnumeration`, `TakenBranches`, `Validation`,
`BranchContexts`, `EnclosingConditions`, `BranchAgreement`, `ReturnPathAnalyzer`). `ControlFlow`
gives statement lists a meaning of their own: an oracle decides every test from the evaluation
history so far, as sections 10.8.1 and 10.8.2 of the Visual Basic Language Specification prescribe.
Against it, the path walk is exact: whatever decides the tests, exactly one reported trace is
consistent with it, and that one is the execution. The 64-path budget, which is checked in the
middle of the recursion on partial counts, refuses exactly the methods with more than 64 traces,
counted by a closed form. Validation lets through exactly the trees that the walk interprets, and
complains only about faults that are there. The branch inventory, read off each statement's
ancestors, lists exactly the outcomes around each statement, gives every line one owner, and agrees
with every execution and every reported path.

**The compilation cache** (`MapSums`, `PropertyIndex`, `CompilationCache`, `CacheProperties`,
`CommandOutcomes`, `AstEmitter`). `CompilationCache` is the cache as a state machine over the
sidecar's commands; `AstEmitter` is the class that updates the fields in place, each method proved
to have the state machine's effect; `CacheProperties` proves what every run keeps, and
`CommandOutcomes` what each command does, in the fields of its own arguments. Parsing is an
uninterpreted function from text to declarations, so results hold for every parser. Counters are
64-bit and checked, and the files read by a refresh are supplied by the environment and may differ
from what was planned.

**Encoders and names** (`Decimal`, `ContractTypeKeys`, `SourceNaming`). The text behind a contract
type key determines the type; the names composed on the way down a file agree with the names that
the property index derives from ancestors.

**Evaluation tools** (`NameVariantPairing`, `StagedDiff`, `LineSplitting`, `DiffText`, `DiffBreaks`,
`OwnershipInventory`, `OwnershipPartition`, `OwnershipEvidence`, `ReviewImport`, `EditCycle`,
`AskLock`). Greedy pairing of name variants, reading a staged diff back (first its lines, then its
text), the ownership preflight, the review importer, the cyclic edit workload with its closed-form
verifier, and the cross-process lock. `Ascii`, `Sets`, `Sequences`, `LineOrder` and `Wrappers` hold
what several modules need.

## Where a promise holds only under a condition

Each of these is proved in both directions, or with a construction of the violation.

- A property symbol's name equals its indexed name exactly when the full name has at most 256
  characters: the one is truncated, the other is not (`SourceNaming.PropertyNamesAgree`).
- An extraction that does not reuse the cached tree keeps the property index in agreement exactly
  when the new text declares what the cached tree declares (`CacheProperties.ExtractAgreesExactly`).
  The guard of `parse` compares canonical paths while the extraction uses the path as given, so a
  guarded parse keeps agreement exactly when the path is canonical or the text declares no property
  (`CacheProperties.GuardedParseAgreesExactly`). Both failures are shown on a concrete cache.
- Given the printed lines, `staged_lines` yields exactly the added ones if and only if no hunk puts a
  removed line beginning `-- ` directly before an added line beginning `++ `
  (`StagedDiff.StagedLinesExact`).
- It is given a text, though, and splits it at more than newlines, so a line of a file may be read in
  several pieces (`DiffText.StagedTextExact`). Three things about the later pieces matter: whether one
  starts with `+`, whether two neighbouring pieces look like a file header, and whether one announces
  another line number to an added line after it. If neither of the first two happens, the added lines
  are found in order, each cut at its first break, and with the right numbers exactly if the third
  does not happen either. If one of the first two happens, what is found is wrong. If both happen,
  a line too many and a line too few can make up for each other, and a removed line that spells out a
  file header moves the added lines to whatever path it names, possibly their own
  (`DiffBreaks.SpelledHeaderMoves`). A whole added line is found only if it has no break. Carriage
  returns at line ends are harmless, but are not part of what is found
  (`DiffBreaks.ReturnsAreTrimmed`).
- An import keeps a review's history linear if and only if no new event occurs twice in the export;
  otherwise an event ends up superseding itself. A thread that returns to an earlier state is not
  recorded again, so its finding keeps the later event (`ReviewImport.CurrentAfterImport`).
- The lock is exclusive as long as the lock file never gets older than 600 seconds, in particular if
  no holder dies or stays for longer (`AskLock.LockIsSafe`, `AskLock.PromptLockIsSafe`). From every
  state with an older file and two waiting processes, two processes can get into the critical section;
  if the holder is still in it, one waiting process is enough, and from every start with two processes
  such a state is within reach (`AskLock.UnpromptHolderIsJoined`).

## Model

| member | source | states |
|---|---|---|
| PathEnumeration.OneTracePerOracle | tools/vb_roslyn_sidecar/ReturnPathAnalyzer.cs:395-460 | For every statement list and every way of deciding its tests, exactly one enumerated trace is consistent with the decisions, and it is the program's execution. |
| PathEnumeration.TracesAreExecutions | tools/vb_roslyn_sidecar/ReturnPathAnalyzer.cs:395-460 | Conversely every enumerated trace is an execution, under the decisions it records, and no two have the same history. |
| PathEnumeration.ConserveAll | tools/vb_roslyn_sidecar/ReturnPathAnalyzer.cs:397-460 | The walk neither loses nor duplicates: for any oracle, as many histories agree with it afterwards (in paths and leftovers together) as before. |
| PathEnumeration.TraceCount | tools/vb_roslyn_sidecar/ReturnPathAnalyzer.cs:391-460 | The numbers of return paths and of fallthroughs are a closed form of the tree, adding over alternatives and multiplying over sequencing. |
| TakenBranches.TakenCase | tools/vb_roslyn_sidecar/ReturnPathAnalyzer.cs:431-455 | Execution enters the first case group that matches, or the Case Else, with one refusal added for each group before it and its own match, each under that group's own labels and line; with no match it falls through with all refusals. |
| TakenBranches.CasePaths | tools/vb_roslyn_sidecar/ReturnPathAnalyzer.cs:431-455 | The paths a Select reports are exactly those of its groups' bodies, each entered with just these conditions, and none behind a Case Else. |
| TakenBranches.TakenArm | tools/vb_roslyn_sidecar/ReturnPathAnalyzer.cs:416-430 | Execution enters the first arm whose condition holds, or the Else, with the conditions before it false. |
| TakenBranches.ArmPaths | tools/vb_roslyn_sidecar/ReturnPathAnalyzer.cs:416-430 | The paths an If block reports are exactly those of its arms and its Else, each entered with just these conditions. |
| TakenBranches.PathsEndAtReturns | tools/vb_roslyn_sidecar/ReturnPathAnalyzer.cs:404-407 | Every reported path ends at a return of the method, at its line and with its expression's exact text. |
| PathEnumeration.NeverShrinks | tools/vb_roslyn_sidecar/ReturnPathAnalyzer.cs:391-394 | The walk never ends with fewer histories in all than it was given, which is why a partial count over budget condemns the whole. |
| ReturnPathAnalyzer.Analyzer.CheckCount | tools/vb_roslyn_sidecar/ReturnPathAnalyzer.cs:391-394 | Succeeds exactly when histories in hand and emitted paths together are at most 64. |
| ReturnPathAnalyzer.Analyzer.Walk | tools/vb_roslyn_sidecar/ReturnPathAnalyzer.cs:397-460 | Without the budget exception it appends exactly the enumeration's paths and returns its leftovers; with it, the enumeration really exceeds the budget. |
| ReturnPathAnalyzer.Analyzer.WalkMultiIf | tools/vb_roslyn_sidecar/ReturnPathAnalyzer.cs:416-430 | The If/ElseIf/Else case in place, with its counts inside the nested branches: success is the exact enumeration, failure means the budget is exceeded. |
| ReturnPathAnalyzer.Analyzer.WalkSelect | tools/vb_roslyn_sidecar/ReturnPathAnalyzer.cs:431-455 | The same for Select/Case, where a Case Else takes everything unmatched. |
| ReturnPathAnalyzer.Analyzer.Validate | tools/vb_roslyn_sidecar/ReturnPathAnalyzer.cs:342-388 | Raises, in order, just the complaints that the next three rows are about, and records the return sites. |
| Validation.SilenceIsExact | tools/vb_roslyn_sidecar/ReturnPathAnalyzer.cs:342-388 | Nothing is complained about exactly when every statement at any depth is one that the walk interprets, every expression and case header is at most 1024 bytes long, every case label is a chain of member names on a literal or identifier, no list is inside more than sixteen blocks, and there are at most 32 return sites. |
| Validation.ComplaintsAreReal | tools/vb_roslyn_sidecar/ReturnPathAnalyzer.cs:342-388 | Every complaint names, on its line, a statement of the method with just that fault, or the first statement of a list inside seventeen blocks. |
| Validation.SitesAreReturns | tools/vb_roslyn_sidecar/ReturnPathAnalyzer.cs:372-376 | The recorded sites are those of all returns at any depth. |
| Validation.SimpleIsChain | tools/vb_roslyn_sidecar/ReturnPathAnalyzer.cs:389-390 | A case label is simple exactly if it is a literal or identifier followed by any number of member names. |
| ReturnPathAnalyzer.Analyzer.RaiseIssue | tools/vb_roslyn_sidecar/ReturnPathAnalyzer.cs:138-142 | Lists the first sixteen issues and counts all. |
| ReturnPathAnalyzer.Analyzer.Run | tools/vb_roslyn_sidecar/ReturnPathAnalyzer.cs:143-223 | The report is complete or empty. A method that is not admitted gets the first sixteen objections and their number; an admitted one is refused with the path budget issue alone exactly when it has more than 64 traces, and otherwise with the response budget issue alone, only if even the report without optional evidence exceeds 64 KiB. |
| ReturnPathAnalyzer.ObjectionsAreExact | tools/vb_roslyn_sidecar/ReturnPathAnalyzer.cs:143-195 | There are objections exactly against the methods that are not admitted: a source over 2 MiB, another range than one method's, parse errors, conditional compilation, deferred code, or anything validation complains about. |
| ReturnPathAnalyzer.AvailableReportIsExact | tools/vb_roslyn_sidecar/ReturnPathAnalyzer.cs:196-222 | In a complete report paths plus fallthroughs are all traces, and every oracle that returns agrees with exactly one path, the execution; one that falls through agrees with none. |
| BranchContexts.InventoryBranches | tools/vb_roslyn_sidecar/ReturnPathAnalyzer.cs:224-304 | The inventory is the surviving entries with exactly the shared and lambda lines unavailable, in increasing order; it is refused only for directives, a limit or its size, and the reason given is true. |
| BranchContexts.CollectConditions | tools/vb_roslyn_sidecar/ReturnPathAnalyzer.cs:250-282 | The loop over the ancestors, which looks for each If block's child on the way to the statement, reads the conditions that the next row is about. |
| BranchContexts.AncestorsTell | tools/vb_roslyn_sidecar/ReturnPathAnalyzer.cs:239-288 | For every statement and header of a method, the conditions read off its ancestors are the If conditions met on the way down to it, with their outcomes; If and ElseIf headers come before their own outcome. |
| EnclosingConditions.EntriesAreStatements | tools/vb_roslyn_sidecar/ReturnPathAnalyzer.cs:239-288 | Before lines are excluded, the entries are exactly the statements and headers at all places of the method, each with exactly the outcomes of the If conditions around its place: earlier conditions of a block false, its own true, in the Else all false. |
| BranchContexts.SurvivorsAreExact | tools/vb_roslyn_sidecar/ReturnPathAnalyzer.cs:294-296 | An entry is reported exactly if none of its lines is unavailable. |
| BranchContexts.SharedLines | tools/vb_roslyn_sidecar/ReturnPathAnalyzer.cs:289-293 | Counting owners per line finds exactly the lines that two entries own. |
| BranchContexts.LinesHaveOneOwner | tools/vb_roslyn_sidecar/ReturnPathAnalyzer.cs:289-296 | Surviving entries own disjoint lines, none unavailable, and a line is unavailable exactly when it has two owners or lies in a lambda. |
| BranchAgreement.ReachedContextsHold | tools/vb_roslyn_sidecar/ReturnPathAnalyzer.cs:239-288 | Whatever decides the tests, when control reaches a statement on a line that the inventory gives to an entry, that entry is the statement's, its conditions are exactly what the Ifs around the statement evaluated in that run, and they are in order among the evaluations so far. |
| BranchAgreement.ReturnContextsAgree | tools/vb_roslyn_sidecar/ReturnPathAnalyzer.cs:239-288 | The conditions of a surviving return entry are, in order, a subsequence of the conditions of every path reported for that return. |
| PropertyIndex.AgreeingIndexesEqual | tools/vb_roslyn_sidecar/AstEmitter.cs:358-410 | Agreement with the trees determines the index: same names, and under each name the same entries as a multiset. |
| PropertyIndex.AddTreesAgrees | tools/vb_roslyn_sidecar/AstEmitter.cs:289-293 | Adding trees of new paths to an agreeing index keeps it in agreement. |
| PropertyIndex.RemovePathsAgrees | tools/vb_roslyn_sidecar/AstEmitter.cs:399-410 | Removing paths from an agreeing index leaves exactly the entries of the remaining trees and no empty bucket. |
| PropertyIndex.RebuiltIndexAgrees | tools/vb_roslyn_sidecar/AstEmitter.cs:282-293 | An index built from scratch agrees with the trees it was built from. |
| CacheProperties.MeasureIsExact | tools/vb_roslyn_sidecar/AstEmitter.cs:219-235 | Stopping at the first offending source decides the same as checking every file and the final total. |
| CacheProperties.PlanIsExact | tools/vb_roslyn_sidecar/AstEmitter.cs:185-248 | In every state that satisfies the invariant, a plan is made exactly when the request is within the policy and its paths are usable, and its totals are then exact; the count comparison and the final total check never decide. |
| CommandOutcomes.PlanCoversRequest | tools/vb_roslyn_sidecar/AstEmitter.cs:208-248 | A plan is about exactly the files that the request lists, or without a list the changed ones, each once under its full path and with its size on disk; its receipt counts just these. |
| CommandOutcomes.RefusalIsJust | tools/vb_roslyn_sidecar/AstEmitter.cs:188-239 | A request that is refused has the fault that it is refused for. |
| CacheProperties.EveryRunKeeps | tools/vb_roslyn_sidecar/AstEmitter.cs:205-248 | After any commands, a trusted cache has equal keys in byte and tree maps, every file, the total and the tree count within the policy, and a pending plan carries the current epoch and exact totals. |
| CommandOutcomes.TrustIsBounded | tools/vb_roslyn_sidecar/Program.cs:305-311 | Whatever is commanded, a trusted cache holds at most 32 MiB, 250000 trees and 10 MiB per file, and knows the size of exactly its files. |
| CacheProperties.RefreshOutcomeIsExact | tools/vb_roslyn_sidecar/AstEmitter.cs:250-310 | A wrong token changes nothing; the right one installs exactly when every source reads back as planned and the epoch is not spent. |
| CommandOutcomes.RefreshReadsExactly | tools/vb_roslyn_sidecar/AstEmitter.cs:250-310 | A plan asked for by its number is installed exactly when every source is on disk with the planned length, can be read to it, ends there and keeps that length, and the epoch is not spent; then each source is cached with its text, a leading byte order mark blanked, and its size, and otherwise nothing is. |
| CacheProperties.RefreshIsAllOrNothing | tools/vb_roslyn_sidecar/AstEmitter.cs:250-311 | A consumed plan installs every planned source, with the receipt's totals exact afterwards, or leaves nothing cached and nothing trusted. |
| CacheProperties.GuardedRunsAgree | tools/vb_roslyn_sidecar/Program.cs:168-192 | After any run whose parses were guarded and canonically spelled since the start, or since the last begin, full install or failed refresh, a trusted cache's index agrees with its trees. |
| CacheProperties.IncrementalEqualsRebuild | tools/vb_roslyn_sidecar/AstEmitter.cs:250-410 | Such an index equals, name by name as a multiset and without empty buckets, the one rebuilt from the cached trees in any order. |
| CommandOutcomes.IndexListsProperties | tools/vb_roslyn_sidecar/AstEmitter.cs:358-397 | Such an index lists under a name exactly the properties of that name, with owner and full name, in the trees that are cached. |
| CacheProperties.CachedTreesAreLastInstalled | tools/vb_roslyn_sidecar/AstEmitter.cs:280-293 | After any commands each cached tree is the one last installed for its path and not dropped since. |
| CacheProperties.ExtractAgreesExactly | tools/vb_roslyn_sidecar/AstEmitter.cs:422-454 | An extraction keeps agreement exactly when it reuses the cached tree or declares the same properties. |
| CacheProperties.GuardedParseAgreesExactly | tools/vb_roslyn_sidecar/AstEmitter.cs:313-315 | A guarded parse keeps agreement exactly when its path is canonical or its text declares no property. |
| CacheProperties.LegacyParseCanBreakAgreement | tools/vb_roslyn_sidecar/AstEmitter.cs:437-447 | A concrete trusted cache that a parse without a project leaves with a wrong index. |
| CacheProperties.RespelledParseCanBreakAgreement | tools/vb_roslyn_sidecar/AstEmitter.cs:313-315 | The same cache and a guarded parse under another spelling of the path. |
| CacheProperties.PlanIdsIncrease | tools/vb_roslyn_sidecar/AstEmitter.cs:240-247 | Over any run, later plans have strictly larger ids. |
| CacheProperties.PlansAreSingleUse | tools/vb_roslyn_sidecar/AstEmitter.cs:252-255 | Over any run, a plan is consumed at most once, and never after a begin, an invalidate or a later plan attempt. |
| AstEmitter.Emitter.BeginProject | tools/vb_roslyn_sidecar/AstEmitter.cs:133-176 | Resets and fills the fields as the state machine says, or only revokes the plan when the epoch is spent. |
| CommandOutcomes.BeginCachesReadable | tools/vb_roslyn_sidecar/AstEmitter.cs:133-176 | A begun project caches for each path its last readable input, at a new epoch, and trusts nothing. |
| CommandOutcomes.SpentEpochOnlyRevokes | tools/vb_roslyn_sidecar/AstEmitter.cs:135-136 | Once the epoch is spent, a begin or an invalidation only revokes the plan; an invalidation without a project drops nothing. |
| AstEmitter.Emitter.PlanRefresh | tools/vb_roslyn_sidecar/AstEmitter.cs:185-248 | Revokes an earlier plan first; the new plan, counter, receipt or error are the state machine's. |
| AstEmitter.Emitter.RefreshProject | tools/vb_roslyn_sidecar/AstEmitter.cs:250-311 | Reads everything before exposing anything; the resulting fields and outcome are the state machine's, also when a read fails. |
| AstEmitter.Emitter.InvalidateFiles | tools/vb_roslyn_sidecar/AstEmitter.cs:326-356 | Drops each cached path once from trees, sizes, index and compilation, and counts them. |
| CommandOutcomes.InvalidateDropsNamed | tools/vb_roslyn_sidecar/AstEmitter.cs:326-356 | Exactly the cached paths that are named and not blank lose their tree, their size and their properties; the count is of trees. |
| AstEmitter.Emitter.AddSourceProperties | tools/vb_roslyn_sidecar/AstEmitter.cs:358-397 | Appends the tree's owned properties to their buckets, in order. |
| AstEmitter.Emitter.RemoveSourceProperties | tools/vb_roslyn_sidecar/AstEmitter.cs:399-410 | Filters every bucket by path and drops the ones that become empty. |
| AstEmitter.Emitter.Extract | tools/vb_roslyn_sidecar/AstEmitter.cs:422-454 | The effect of an extraction on the index, in its three cache branches. |
| CommandOutcomes.ParseChangesIndex | tools/vb_roslyn_sidecar/Program.cs:160-192 | A parse changes at most the index, and nothing if it is standalone, reuses the tree, or names a project whose root, trust or text is not the prepared one; otherwise the path's entries become those of the new text. |
| AstEmitter.Emitter.Serve | tools/vb_roslyn_sidecar/Program.cs:53-192 | A session of commands ends in the state of its run, so the results above hold for the fields. |
| ContractTypeKeys.KeyBuilder.ContractTypeKey | tools/vb_roslyn_sidecar/AstEmitter.cs:476-506 | A key is produced exactly for invariant closed types within 16 levels, 64 visited types and 16384 characters, although the limits are checked while the text grows. |
| ContractTypeKeys.PartsPrefixFree | tools/vb_roslyn_sidecar/AstEmitter.cs:482-502 | No type's sequence of parts is a proper prefix of another's, so what follows a nested type is determined too. |
| ContractTypeKeys.FlattenInjective | tools/vb_roslyn_sidecar/AstEmitter.cs:482-482 | Length-prefixed text determines its parts, whatever characters they contain. |
| ContractTypeKeys.KeyIsIdentity | tools/vb_roslyn_sidecar/AstEmitter.cs:476-506 | Closed types with equal key text are equal. |
| SourceNaming.NameWalk.Walk | tools/vb_roslyn_sidecar/AstEmitter.cs:599-670 | Emits a declaration's symbols and leaves both stacks as they were. |
| SourceNaming.PropertyNamesAgree | tools/vb_roslyn_sidecar/AstEmitter.cs:1445-1459 | In any file of whitespace-free names, the k-th property symbol carries the first 256 characters of the k-th property's full name; it equals the indexed name, which is the owner's followed by the property's, exactly when that has at most 256. |
| SourceNaming.WalkAgrees | tools/vb_roslyn_sidecar/AstEmitter.cs:599-670 | Under any enclosing declarations, the walk emits one symbol for each type, property and other member, in document order, with its kind and the first 256 characters of its full name. |
| SourceNaming.SymbolsAreDeclarations | tools/vb_roslyn_sidecar/AstEmitter.cs:599-670 | The same for a whole file of whitespace-free names. |
| SourceNaming.SanitizedIsTrimmed | tools/vb_roslyn_sidecar/AstEmitter.cs:1510-1518 | Any name is cut to 256 characters from a text with the same visible characters, single spaces between them and none at the ends. |
| NameVariantPairing.Pair | eval/_armb_score.py:95-102 | The loop over the sorted candidates computes the greedy selection. |
| NameVariantPairing.SortedDescends | eval/_armb_score.py:97-97 | The candidates are taken by falling similarity, then from the last proposed name to the first, then from the last actual name. |
| NameVariantPairing.GreedyIsMatching | eval/_armb_score.py:97-102 | No proposed or actual name is used twice, and only candidates are chosen. |
| NameVariantPairing.GreedyIsMaximal | eval/_armb_score.py:97-102 | Every candidate left out shares a name with a chosen pair. |
| NameVariantPairing.GreedyIsHalfOptimal | eval/_armb_score.py:97-102 | Any matching of the candidates has at most twice as many pairs and at most twice the total similarity. |
| NameVariantPairing.Candidates | eval/_armb_score.py:84-93 | The candidates are exactly the pairs with equal extension and either similarity at least 0.6 or six common leading characters. |
| NameVariantPairing.StemEndsAtFirstDot | eval/_armb_score.py:67-72 | The stem is what stands before the first dot, the extension what follows it; a name without a dot is all stem. |
| NameVariantPairing.F1IsDice | eval/_armb_score.py:48-50 | The guarded harmonic mean of precision and recall is twice the hits over both sizes, and 0 when nothing was hit. |
| NameVariantPairing.TolerantWithinBounds | eval/_armb_score.py:104-108 | Counting pairs as hits never lowers F1 and never takes it above 1. |
| NameVariantPairing.Score | eval/_armb_score.py:45-108 | The whole scoring: the credited pairs are a maximal matching with at least half of what any could credit, and 0 ≤ exact F1 ≤ tolerant F1 ≤ 1. |
| StagedDiff.StagedLines | tools/check_denylist.py:48-59 | The loop over path, number and previous line is the scan that the results below are about. |
| StagedDiff.HeaderBack | tools/check_denylist.py:26-26 | The hunk pattern reads the new start line back from every printed header, with or without counts and whatever section text follows. |
| StagedDiff.HunkPatternIsExact | tools/check_denylist.py:26-26 | The hunk pattern matches exactly the lines made of "@@ -range +range @@" and anything behind, and yields the new range's number. |
| StagedDiff.ReadInvertsPrint | tools/check_denylist.py:48-59 | For diffs without a hunk that looks like a file header, reading finds exactly each added line with its path and number, in order. |
| StagedDiff.FoundInDiff | tools/check_denylist.py:51-58 | With such a hunk, fewer lines are found than were added. |
| StagedDiff.StagedLinesExact | tools/check_denylist.py:48-59 | Given the printed lines, reading inverts printing if and only if no hunk looks like a file header. |
| LineSplitting.SplitJoined | tools/check_denylist.py:51-51 | Splitting the printed text gives each line's own pieces, one after the other; breaks never join lines, and a carriage return at a line's end belongs to the newline. |
| LineSplitting.SplitsAtBreaks | tools/check_denylist.py:51-51 | Text is split at the ten line breaks of `str.splitlines` and at no other character. |
| DiffText.TextIsRead | tools/check_denylist.py:48-59 | If no later piece starts with '+' and no two neighbours look like a file header, exactly the added lines are found, in order and under their paths, each cut at its first break. |
| DiffText.StagedTextExact | tools/check_denylist.py:48-59 | Strays and header look-alikes occur both or not at all wherever the cut lines come out right; unless both occur, they come out right if and only if neither does and no later piece announces another number to an added line; and the whole lines come out right if and only if, besides, no added line has a break. |
| DiffText.BrokenNameIsMisread | tools/check_denylist.py:51-53 | Whatever else the diff holds, an added line of a file whose name has a break is not read as it is. |
| DiffBreaks.ReturnsAreTrimmed | tools/check_denylist.py:48-59 | When the only other breaks are carriage returns at line ends, the added lines are read with their paths and numbers and without those returns, if and only if no hunk looks like a file header. |
| DiffBreaks.RemovedBreakLeaks | tools/check_denylist.py:51-58 | A removed line with a carriage return before a plus sign is read as an added line. |
| DiffBreaks.SpelledHeaderMoves | tools/check_denylist.py:51-53 | A removed line that spells out a file header moves the added lines to the path it names, so the result is right exactly when that is their own path. |
| OwnershipInventory.InspectInventory | eval/downgrade_policy_preflight.py:82-211 | Accepts, unchanged, exactly the inventories that meet an order-free statement of all checks. |
| OwnershipInventory.InspectRules | eval/downgrade_policy_preflight.py:182-193 | Records each claimed id with its receipt and index; refuses only a receipt with a rule that is not canonical, repeats no row or is claimed twice, or with another list of ids. |
| OwnershipEvidence.EvidenceIsFingerprinted | eval/downgrade_policy_preflight.py:56-66 | In an accepted inventory all raw evidence has its declared length and digest, up to the case of hex digits, and every decoded value is the parse of its bytes. |
| OwnershipEvidence.AcceptedIsComplete | eval/downgrade_policy_preflight.py:69-141 | Its counts are bounded, every rule is filled in and in range, every source is completely fingerprinted under its own path, every claimed id has a row, and nothing is unresolved or written. |
| OwnershipEvidence.ReceiptIsCurrent | eval/downgrade_policy_preflight.py:145-180 | Every accepted receipt is keyed by its own safe origin, was observed with the bytes it declares, belongs to the current corpus, lists its rules' ids and has nothing pending. |
| OwnershipEvidence.SafeOriginIsPath | eval/downgrade_policy_preflight.py:159-163 | An origin is safe exactly if it has 1 to 512 characters, no backslash or colon, and no part between slashes that is empty, "." or "..". |
| OwnershipEvidence.AuthorityIsDeclared | eval/downgrade_policy_preflight.py:182-210 | Every accepted row is declared manual by its own provenance, or its id and provenance name the origin of the one receipt that claims it. |
| OwnershipPartition.AcceptedIsPartition | eval/downgrade_policy_preflight.py:122-211 | Acceptance means a partition: distinct row ids, no id claimed twice, every claim on a row, and the manual rows are those without a claim. |
| OwnershipPartition.RowHasOneOwner | eval/downgrade_policy_preflight.py:193-210 | Every accepted row is manual without a claim, or has exactly one, recorded on the row with that receipt's key, origin and index. |
| OwnershipPartition.OriginsDistinct | eval/downgrade_policy_preflight.py:150-173 | Accepted receipts have pairwise distinct origins, without assuming a collision-free digest. |
| OwnershipPartition.CanonicalIdNamesOrigin | eval/downgrade_policy_preflight.py:187-189 | A canonical rule id belongs to one origin only. |
| OwnershipPartition.RowsAreCounted | eval/downgrade_policy_preflight.py:122-211 | The number of rows is the manual rows plus the rules of all receipts. |
| ReviewImport.Normalize | tools/import_review_decisions.py:14-56 | The generator's loop yields the events that the next row is about, or refuses at the first thread without an id. |
| ReviewImport.EventsAreThreads | tools/import_review_decisions.py:20-56 | An export is refused exactly when some thread has no id; otherwise it yields one unlinked event per commented thread, in order, with the provider's name and the thread's id and digest; only Azure threads marked "won't fix" or "by design" become exceptions, and only those marked "fixed" become claimed fixes. |
| ReviewImport.EventIdNamesFinding | tools/import_review_decisions.py:53-54 | Equal event ids belong to the same finding. |
| ReviewImport.Import | tools/import_review_decisions.py:75-83 | The loop over ids and latest appends exactly the unknown events, each superseding the latest of its finding. |
| ReviewImport.ImportKeepsLinear | tools/import_review_decisions.py:75-83 | A linear history stays linear if and only if no new event occurs twice in the export. |
| ReviewImport.LinearIsChain | tools/import_review_decisions.py:76-83 | In a linear history a finding's first event supersedes nothing and every later one its predecessor of the same finding. |
| ReviewImport.LinearIsUnforked | tools/import_review_decisions.py:76-83 | In a linear history no event is superseded twice. |
| ReviewImport.RepeatedEventSupersedesItself | tools/import_review_decisions.py:79-83 | A new event that occurs twice in a row is added twice, the second time superseding itself. |
| ReviewImport.ImportIsIdempotent | tools/import_review_decisions.py:75-83 | Importing the same export again adds nothing. |
| ReviewImport.CurrentAfterImport | tools/import_review_decisions.py:76-83 | After an import a finding's current event is the export's last one if and only if that is new, or nothing of the finding is new and it was current already. |
| EditCycle.Workload.RunEdits | eval/edit_resource_workload.py:400-407 | After any number of edits, every file holds the revision last written to it. |
| EditCycle.ExpectedIsLastWrite | eval/edit_collection_resource_workload.py:110-110 | The closed form is the last revision that the cycling loop wrote to the path, 0 if none. |
| EditCycle.PreviousIsEarlierWrite | eval/edit_collection_resource_workload.py:117-117 | max(0, revision - 50) is the revision before it. |
| EditCycle.LastFileUntouched | eval/edit_resource_workload.py:401-403 | The last of the 51 files is never written. |
| EditCycle.VerifyAll | eval/edit_collection_resource_workload.py:106-130 | Accepts exactly when, for every file, both searches asked for the last written declaration show it, the lexical search asked for the one before does not show that, and the vector answer to the first question does not either. |
| EditCycle.CurrentIsAccepted | eval/edit_collection_resource_workload.py:108-128 | Searches over the current texts are accepted. |
| EditCycle.StaleIsRefused | eval/edit_collection_resource_workload.py:108-128 | If either search missed the last edit, they are refused, on the file of that edit. |
| AskLock.LockIsSafe | eval/ask_eval.py:29-47 | In every interleaving in which the lock file never gets older than 600 seconds, at most one process is between a successful open and its release, and only the holder's release removes the file. |
| AskLock.PromptLockIsSafe | eval/ask_eval.py:29-47 | The same in every interleaving in which no process dies or stays for more than 600 seconds between its open and its release. |
| AskLock.OwnedStep | eval/ask_eval.py:32-47 | Every step from a young lock keeps the file owned by the one critical process (or a dead one) and nobody about to break it. |
| AskLock.CheckIsExact | eval/ask_eval.py:45-47 | At its check a waiting process gives up exactly if more than 420 seconds have gone by since it began, and otherwise sleeps. |
| AskLock.GivenUpIsLate | eval/ask_eval.py:30-47 | A process that gave up has waited for more than 420 seconds. |
| AskLock.CompareIsExact | eval/ask_eval.py:38-44 | A process sets out to break the lock exactly if the file it finds had been written more than 600 seconds before it read the clock. |
| AskLock.OverstayedHolderIsJoined | eval/ask_eval.py:38-43 | Once a holder's file is too old, a waiting process can join it in the critical section. |
| AskLock.UnpromptHolderIsJoined | eval/ask_eval.py:29-47 | From every start with two processes, a run leads to both being in the critical section. |
| AskLock.OldFileAdmitsTwo | eval/ask_eval.py:38-43 | Whoever left an old file, two waiting processes can both take it over: the first removes the second's new file. |

## Left out

- Roslyn: parsing, symbol binding and semantic models are uninterpreted; the edges the emitter derives
  from them (calls, SQL, COM, state, controls), symbol line numbers and symbol metadata would add only
  pattern matching.
- Hashes, JSON serialisation and response sizes, UTF-8 lengths: parameters or arbitrary predicates.
- The texts of issues, errors and refusals, and which of several failing checks of the preflight is
  named: the model says only whether and, in the sidecar, which kind.
- `Analyze`'s check of the request id and its repeated dropping of optional evidence after `Run`.
- `InventoryParameters`: its result is carried along, not interpreted.
- Statements nested in lambda expressions: any lambda makes the selected method unavailable, and the
  inventory skips its contents; the model represents only the lines of a lambda.
- ReturnPathAnalyzer.Analyzer.Run: the source is represented by its size and the parse's results.
- Path canonicalisation and case folding are functions with one law, that canonical paths are fixed
  points; the root comparison is on canonical roots.
- `BeginProject`'s directory walk when no file list is given: its result is an input like any list.
- AstEmitter.Emitter.BeginProject: duplicates in the file list are kept as the code keeps them, so an
  untrusted compilation may hold a tree twice; nothing is claimed about agreement before a refresh.
- Read errors other than a changed length, and text decoding: the environment supplies either.
- SourceNaming.NameWalk.Walk: namespaces, types, properties and other members, with the types inside a
  method's body and whatever the parser recovers inside a property; edges and line numbers of symbols
  are not modelled, and of a field declaration each name is a member of its own.
- `SequenceMatcher`: the similarity is any function with non-negative values.
- NameVariantPairing.Score: arithmetic is over the reals, so rounding is not modelled.
- DiffText.StagedTextExact: names and extended headers are taken to have no breaks. Git quotes all but
  three of them (U+0085, U+2028, U+2029) in names; for these `DiffText.BrokenNameIsMisread` covers
  every file with an added line.
- Git's quoting itself and its trailing tab after names with spaces; `\d` is read as the ASCII digits
  that diff prints.
- JSON syntax of the ownership inventory: the model starts from parsed values, with a parse that may
  refuse; key sets and value types belong to the parse.
- ReviewImport.Normalize: the rationale, author, timestamps and source links of an event, and that the
  review URL must use https.
- Events are values, so the in-place update of an exported event's link is modelled by a new value.
- EditCycle.VerifyAll: an answer is a predicate on the declarations it shows; the text of queries, the
  tool calls, their counters and the collection schedule are not modelled.
- AskLock.LockIsSafe: one clock for processes and files that never runs backwards; a process asks
  once; a failing `os.write` is a crash.
- The Rust server under `crates` is not modelled at all.
- The other scripts (network clients, agents, reporting, fixture teardown) and `InvocationAnalyzer.cs`:
  plumbing, or only easy members.
