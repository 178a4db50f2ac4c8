# Weedout: a verified model of the detection core and its notifications

Weedout decides whether an installed package version is affected by an advisory, how the package
got into the tree, whether the finding is worth interrupting someone for, and then tells that
person once. This project models that core in Dafny and proves what it is for.

| module | program file | what it models |
|---|---|---|
| `EditDistance`, `Typosquat` | `app/core/supply_chain.py` | the bounded two-row edit distance and one-step typo detection |
| `NpmGraph`, `NpmLockfile`, `LockfileNames`, `NpmLockfileV1` | `app/core/manifests.py` | breadth-first routes through an npm tree, and both lockfile formats |
| `Dedupe`, `Floors`, `NpmRanges`, `PypiSpecifiers`, `GoMod` | `app/core/manifests.py` | collapsing duplicates, the version a range is tested at, go.mod |
| `SemVer`, `SemVerText`, `Maven`, `MavenLadder`, `Versions` | `app/core/versions.py` | version orders, parsing and printing, ranges, the recommended fix |
| `OsvRanges`, `OsvListings`, `Advisories`, `MavenRanges` | `app/core/osv.py` | folding OSV events into intervals, and what that does to verdicts and fixes |
| `Triage`, `Verdicts`, `Scan` | `app/core/matching.py` | the layered decision, and its conservation over whole scans |
| `SourceReachability` | `app/core/reachability.py` | conservative evidence from source files |
| `Alerts`, `NotificationRuns` | `app/services/alert_service.py` | one digest, and whole runs of digests |
| `ScanWorkers` | `app/jobs/tasks.py` | workers sharing one try-lock |
| `Domain`, `Text`, `Sorting`, `Prelude` | `app/core/types.py` and Python built-ins | shared values, string operations, a stable sort |

Where the program changes state in loops, the model is a method with loop invariants, proved against
a specification that does not mention the loop: a shortest edit script, a shortest chain, the OSV
event walk, a total preorder, a multiset of affected pairs. Notification rows, matches, the session
and the lock are objects updated in place; the run-level theorems are about the same functions those
methods are proved to compute.

## Where the code and its documentation disagree

The model follows the code. Each disagreement has a theorem that says exactly when it matters.

* `SemVer.__hash__` does not pad the release while `__eq__` does: `SemVer.EqualVersionsHashAlikeIff`.
* Maven comparison is not transitive: `Maven.TransitiveIffNoClash` gives the exact triples.
* The OSV schema evaluates events in version order, the fold as they are listed, and dropping stray
  closings is meant to be safe in any order: `OsvListings.EveryListingIsSafeIff` says when it is,
  `OsvListings.UnsortedListingMisses` shows a listing where it is not.
* Two spellings of one Maven rung are commented as falling back to text only when unknown, but
  1-a is below 1-alpha and 1-cr below 1-rc: `MavenLadder.SpellingsCompareAsText`.
* Two introductions in a row make OSV intervals wider than the walk:
  `OsvRanges.ExactIffNothingAfterDouble`.
* `resolve_npm_floor` is described as the lowest permitted version, and of a set of comparators as
  its lowest inclusive lower bound: `NpmRanges.FloorIsLowestPermittedIff` says for every range when
  it is that. `>1.2.3` (`NpmRanges.ExcludedBoundIsTheFloor`) and `>=1.0.0 >=2.0.0`
  (`NpmRanges.FirstBoundNeedNotBeHighest`) are two ways to fail.
* "None" from `resolve_npm_floor` is described as no lower bound: `>1.2.3 <2.0.0` has one and gets
  none (`NpmRanges.ExcludedBoundInASetIsNoFloor`, `NpmRanges.NoFloorIffUnbounded`).
* `resolve_pypi_floor` is described as the lowest permitted version too:
  `PypiSpecifiers.FloorIsLowestPermittedIff` and `PypiSpecifiers.FloorIsPermittedIff` say when it is.
  `>1.0`, `>=1.0,!=1.0` and `==1.1.*` are three ways to fail.
* "Critical severity, ships to production" is a threshold decision, not a check of those words:
  `Triage.CriticalReasonIsLiteralIff`, with `Triage.HighIsReportedAsCritical` for an instance.
* "Each match notifies once" needs that no exception leaves the digest after a channel has sent:
  `NotificationRuns.ToldButUnmarkedIff` and `ScanWorkers.RepeatableIffLost`.

## Model

| member | source | states |
|---|---|---|
| EditDistance.EditDistance | app/core/supply_chain.py:309-334 | For all strings and every limit the early-exit loop returns the length of a shortest insert/delete/substitute script when that is within the limit; otherwise every script is longer than the limit and so is the answer |
| EditDistance.DistanceIsShortestScript | app/core/supply_chain.py:309-334 | The recurrence behind the two rows is the length of a shortest edit script, for every pair of strings |
| EditDistance.ScriptAtLeastDistance | app/core/supply_chain.py:309-334 | No script of edits at arbitrary positions beats the recurrence |
| EditDistance.OneEditMovesByOne | app/core/supply_chain.py:309-334 | One edit anywhere in a string moves the distance to any other string by at most one |
| EditDistance.BuildScript | app/core/supply_chain.py:309-334 | Some script is exactly as long as the recurrence says |
| EditDistance.LaterCellAboveRow | app/core/supply_chain.py:321-334 | A later table cell is never below the minimum of an earlier row, which is why the row-minimum exit is sound |
| Typosquat.CheckTyposquat | app/core/supply_chain.py:368-456 | A signal is raised exactly when the stripped, lower-cased name is at least five long, unscoped, neither popular nor known distinct, and some popular name is within one optimal-string-alignment step of it once folded, in whatever order names are visited; the name reported is such a name, and kind and level fit it |
| Typosquat.CompareWith | app/core/supply_chain.py:399-456 | One popular name is signalled exactly when it is at most one alignment step away; limit 2 plus the swap test lose nothing |
| Typosquat.AlignmentAtMostOne | app/core/supply_chain.py:404-429 | Alignment distance at most one means identical, one edit, or one adjacent swap, and conversely |
| Typosquat.SwapIsTwoEdits | app/core/supply_chain.py:418-429 | Swapping unequal neighbours costs exactly two plain edits |
| Typosquat.TranspositionIsAdjacentSwap | app/core/supply_chain.py:357-365 | The comprehension that looks at differing positions recognises exactly the adjacent swaps of unequal letters |
| Typosquat.OneEditOneDifference | app/core/supply_chain.py:347-354 | Strings of one length at distance one differ in at most one place, so the confusable test sees the right pair |
| Typosquat.KindFitsIsOneStep | app/core/supply_chain.py:404-454 | Every kind of signal means the names really are within one step |
| Typosquat.SeparatorsFoldAway | app/core/supply_chain.py:337-344 | A hyphen, underscore or dot anywhere in a name makes no difference to its canonical form |
| Typosquat.CaseFoldsAway | app/core/supply_chain.py:337-344 | Neither does case |
| Typosquat.TheRestStays | app/core/supply_chain.py:337-344 | And nothing else folds away |
| Typosquat.ConfusableIff | app/core/supply_chain.py:290-354 | The look-alike test holds exactly for strings that differ in one place by one of the listed pairs, either way round |
| NpmGraph.WalkNpmGraph | app/core/manifests.py:503-543 | Terminates on every finite graph, cycles included; the routed names are exactly those some chain of at most 64 names reaches, each with a repetition-free shortest chain from a direct dependency along recorded edges |
| NpmGraph.ExpandChildren | app/core/manifests.py:531-541 | Expanding one name records every child that has no route, keeps the queue in layers and never increases the work left |
| NpmGraph.ChainIsAnswered | app/core/manifests.py:503-543 | Once the queue is empty every chain within the cap is answered by a recorded route at most as long |
| NpmGraph.RoutesAreShortest | app/core/manifests.py:503-516 | What the search maintains makes the finished route map exact and every route shortest |
| NpmGraph.RouteDoesNotRepeat | app/core/manifests.py:514-516 | No recorded route visits a name twice |
| NpmLockfile.IndexByName | app/core/manifests.py:475-493 | Every named package is indexed, nothing else is, and each under its least nested copy, the first among equals |
| NpmLockfile.ParseLockV2 | app/core/manifests.py:420-472 | Exactly the lockfile's named and versioned packages are reported, in order, each with its true distance from the direct set and a shortest path to it; unreached ones at depth one |
| NpmLockfile.Place | app/core/manifests.py:444-472 | One package's depth, path and exposure are the truth about the indexed graph |
| LockfileNames.PathNames | app/core/manifests.py:410-417 | Whatever comes before it, what follows the last `node_modules/` of a path is the package's name, scopes included |
| LockfileNames.EveryInstalledIsReported | app/core/manifests.py:432-472 | A name and version are reported exactly when some unlinked package with that version goes by that name: its own, or what follows the last marker of its path |
| LockfileNames.NestedIsReportedByName | app/core/manifests.py:432-472 | A nested copy without a name of its own is reported under what follows the last marker |
| LockfileNames.DirectIff | app/core/manifests.py:420-429 | Direct is exactly what the project's own entry names under dependencies, optionalDependencies or peerDependencies |
| LockfileNames.RoutesFollowSections | app/core/manifests.py:503-543 | Routes start at direct dependencies, follow dependencies and optionalDependencies only, are at most 64 names long, and are closed under those sections up to there |
| LockfileNames.NestingCounts | app/core/manifests.py:475-493 | Each further marker in a path is one more level of nesting |
| NpmLockfileV1.ParseLockV1 | app/core/manifests.py:546-580 | Appends exactly what the nested tree reports, node before nested nodes |
| NpmLockfileV1.ReportsAreTheChains | app/core/manifests.py:546-580 | A dependency is reported exactly when a chain of at most 65 nested nodes ends in it; depth counts the nodes above it and the path names them |
| NpmLockfileV1.DepthIsPathLength | app/core/manifests.py:567-580 | Depth always equals path length, is at most 64, and direct means an empty path |
| NpmLockfileV1.ReportedIffRecorded | app/core/manifests.py:546-580 | Field by field: a dependency is reported exactly when the last node of some chain of at most 65 records it, at a version that is not a file or git reference, direct at the top, dev if marked |
| Dedupe.Dedupe | app/core/manifests.py:155-173 | The dictionary loop computes the specified collapse |
| Dedupe.DedupedExactly | app/core/manifests.py:155-173 | One entry per ecosystem, name and version: exactly the first most exposed input entry of each key, sorted by lower-cased name then version |
| Dedupe.EveryKeySurvives | app/core/manifests.py:155-173 | No key is dropped, and what stands for an entry is at least as exposed |
| Dedupe.DedupeIsIdempotent | app/core/manifests.py:155-173 | Collapsing twice is collapsing once |
| Dedupe.StrongestExposureWins | app/core/manifests.py:155-173 | Each ecosystem, name and version found is reported once, as direct if any entry is, else as transitive if any is, else as dev |
| Dedupe.InNameThenVersionOrder | app/core/manifests.py:155-173 | The result is in code-point order of lower-cased name, then of version |
| Floors.ResolvePypiFloor | app/core/manifests.py:692-732 | The first pin wins, exact; otherwise a greatest lower bound of the readable clause bounds; nothing without one or when the first bound cannot be read |
| Floors.ClauseOrderDoesNotMatter | app/core/manifests.py:709-732 | Without a pin, any order of the clauses gives a floor that compares equal |
| PypiSpecifiers.FirstPinWins | app/core/manifests.py:704-707 | The first `==` or `===` clause without a star is the answer, exact, whatever else is asked |
| PypiSpecifiers.NoPinIsNotExact | app/core/manifests.py:709-732 | Without such a clause the answer is never exact |
| PypiSpecifiers.BoundsByKind | app/core/manifests.py:709-717 | `>=`, `~=` and `>` bound by their version, `==1.4.*` by 1.4, and no other clause bounds |
| PypiSpecifiers.FloorIsBelowPermittedIff | app/core/manifests.py:692-732 | Against what the version library permits: without a pin the floor is at or below a permitted version exactly when that version is below the prefix of no `==1.4.*` clause |
| PypiSpecifiers.FloorIsBelowPermittedWithoutPrefix | app/core/manifests.py:709-732 | Specifiers without `==` clauses have a floor at or below every version they permit |
| PypiSpecifiers.FloorIsLowestPermittedIff | app/core/manifests.py:692-732 | Without a pin, the floor is the lowest permitted version exactly when the specifier permits it and permits nothing below the prefix of a `==1.4.*` clause |
| PypiSpecifiers.FloorIsPermittedIff | app/core/manifests.py:709-732 | Clause by clause, where the library decides `>=` and `>` by its order: the floor is permitted exactly when it is the bound of no `>` and every other kind of clause lets it through |
| PypiSpecifiers.StrictBoundIsTheFloor | app/core/manifests.py:711-712 | `>1.0` is floored at 1.0, which it does not permit |
| PypiSpecifiers.ExcludedVersionIsTheFloor | app/core/manifests.py:709-715 | `>=1.0,!=1.0` is floored at 1.0, which it excludes |
| PypiSpecifiers.PrefixFloorIsTooHigh | app/core/manifests.py:711-716 | `==1.1.*` is floored at 1.1, above the permitted pre-release 1.1a1 |
| Floors.ResolveNpmFloor | app/core/manifests.py:270-301 | The least of the branches' floors, pinned only if there is a single floor and it pins |
| Floors.FloorIsBelowPermitted | app/core/manifests.py:270-338 | For tokens of any spelling, the floor is at or below every version meeting the bounds of some branch that has a floor |
| Floors.PartialVersionIsZeroFilled | app/core/manifests.py:341-376 | `4`, `4.x` and `4.0` all become 4.0.0; only three written numbers pin |
| NpmRanges.TokenFloorIsStart | app/core/manifests.py:304-376 | For every operator and every partial version, the floor is the first release the written version stands for, and none for `<` and `<=` |
| NpmRanges.FloorIsBelowEveryPermitted | app/core/manifests.py:270-338 | Against the meaning of npm ranges (caret, tilde, comparisons, partial versions, hyphens, unions): with every branch bounded, no permitted release is below the floor |
| NpmRanges.NoFloorIffUnbounded | app/core/manifests.py:304-338 | A branch is given no floor exactly when it has no lower bound that is looked for: `*` and the empty branch, `<` and `<=` alone, in a set only `<`, `<=`, `>` and `=` |
| NpmRanges.FloorIsAStart | app/core/manifests.py:270-338 | For every range, the floor is where some branch starts (of several comparators the first that is considered decides), and no branch starts lower |
| NpmRanges.LeastIsLeast | app/core/manifests.py:304-338 | The computed least release of a branch, of any comparators, is permitted by it, and nothing permitted lies below it |
| NpmRanges.FloorIsLowestPermittedIff | app/core/manifests.py:270-338 | For every range, comparator sets, `*` and empty branches included: the floor is the lowest permitted release exactly when a branch that starts there, or one without a floor, permits it, and the computed least release of no branch without a floor is lower |
| NpmRanges.BoundedFloorIsLowestIff | app/core/manifests.py:270-338 | With every branch bounded: exactly when a branch that starts at the floor permits it |
| NpmRanges.SimpleFloorIsLowestIff | app/core/manifests.py:304-338 | For unions of single comparators and hyphen ranges: exactly when a branch that starts at the floor is neither `>` nor an empty hyphen range |
| NpmRanges.FirstBoundNeedNotBeHighest | app/core/manifests.py:314-322 | `>=1.0.0 >=2.0.0` is floored at 1.0.0, which it does not permit; its lowest permitted release is 2.0.0 |
| NpmRanges.ExcludedBoundIsTheFloor | app/core/manifests.py:331-336 | `>1.2.3` is floored at 1.2.3; its lowest permitted release is 1.2.4 |
| NpmRanges.ExcludedBoundInASetIsNoFloor | app/core/manifests.py:314-322 | `>1.2.3 <2.0.0` is given no floor; its lowest permitted release is 1.2.4 |
| GoMod.ParseGoMod | app/core/manifests.py:749-824 | Reading the lines and then resolving gives the parse: project, dependencies and warnings |
| GoMod.ResolveAll | app/core/manifests.py:792-822 | Exclusions, local replacements and replacements are applied to each requirement in order, with a warning for each local one |
| GoMod.BlocksAreAbbreviations | app/core/manifests.py:763-790 | Writing any block as one-line directives, anywhere in the file, leaves the whole parse unchanged |
| GoMod.ExclusionsCanMove | app/core/manifests.py:792-794 | An exclusion can move past any lines without effect |
| GoMod.ReportedIff | app/core/manifests.py:792-822 | What is reported is exactly what the requirements neither excluded nor replaced by a local path become |
| GoMod.RequirementBecomes | app/core/manifests.py:792-822 | A requirement is reported under its own path and version or its replacement's, transitive at depth one exactly when indirect; excluded and locally replaced ones are not |
| GoMod.RequireLine | app/core/manifests.py:827-836 | A `require` line adds its path and version, indirect if its comment or its rest says so, or else a warning |
| GoMod.ExcludeLine | app/core/manifests.py:849-852 | An `exclude` line adds its path and version to what is left out |
| GoMod.ReplaceLine | app/core/manifests.py:839-846 | A `replace` line says what stands for its path, the last word winning, or else warns |
| GoMod.OtherLines | app/core/manifests.py:763-779 | A `module` line names the project; any line that is none of these does nothing |
| SemVer.CompareIsPreorder | app/core/versions.py:82-133 | Comparison is reflexive, antisymmetric in sign and transitive, strictly so where either step is strict, for releases of any width and prereleases of any length |
| SemVer.EqualUpToTrailingZeros | app/core/versions.py:82-133 | Two versions compare equal exactly when their numbers agree up to trailing zeros and their prereleases are identical |
| SemVer.AgreesWithItem11 | app/core/versions.py:82-116 | On three-part releases, below and above are exactly the precedence of item 11 of Semantic Versioning 2.0.0 |
| SemVer.PaddingIsImplicit | app/core/versions.py:85-92 | Padding to a common width compares as if both releases went on with zeros forever |
| SemVer.EqualVersionsHashAlikeIff | app/core/versions.py:130-136 | Equal versions hash alike exactly when they are written with equally many components |
| SemVer.EqualVersionsMayHashApart | app/core/versions.py:130-136 | 1.2.3 and 1.2.3.0 are equal and hash differently |
| SemVerText.ParseIsComplete | app/core/versions.py:149-175 | Every text with a decomposition by the grammar is accepted and read as the decomposition says |
| SemVerText.ParseIsSound | app/core/versions.py:149-175 | Every accepted text has such a decomposition, and it is what was read |
| SemVerText.ParseAcceptsExactly | app/core/versions.py:44-56 | The parser accepts exactly the texts of the grammar |
| SemVerText.MissingNumbersAreZero | app/core/versions.py:149-175 | 4 is read as 4.0.0 and 4.2 as 4.2.0 |
| SemVerText.PartsAndTags | app/core/versions.py:44-56 | Parts of a release are digits; tags are digits, letters, dots and hyphens |
| SemVerText.ParsePrintParse | app/core/versions.py:138-175 | For every accepted text, printing and parsing again gives back every field |
| SemVerText.PrintedReadsBack | app/core/versions.py:138-146 | Every version whose fields could have been parsed is read back from its printed form |
| SemVerText.PrintLosesNothing | app/core/versions.py:138-146 | Parsed versions that print alike are identical in every field |
| Maven.MavenTokens | app/core/versions.py:272-290 | The tokenising loop yields the runs of digits and letters of the folded text |
| Maven.RunsSplit | app/core/versions.py:272-290 | Texts joined where no run crosses tokenise to their tokens joined |
| Maven.SeparatorIsOptional | app/core/versions.py:272-290 | Where digits meet letters, a separator may be written or left out |
| Maven.MavenTrim | app/core/versions.py:293-307 | Popping from the end removes exactly the trailing tokens that stand for nothing |
| Maven.MavenCompare | app/core/versions.py:310-337 | The loop with its early returns computes the position-by-position order of the trimmed tokens |
| MavenLadder.LadderAscends | app/core/versions.py:247-262 | On texts: after one number, alpha or a, beta or b, milestone or m, rc or cr, snapshot, ga or final or release, and sp make ever higher versions |
| MavenLadder.ReleaseOnLadder | app/core/versions.py:293-307 | The bare number is above alpha to snapshot, equal to ga, final and release, and below sp |
| MavenLadder.UnlistedIsHighest | app/core/versions.py:264-267 | Any other word is above the whole ladder and above the bare number |
| MavenLadder.UnlistedCompareAsText | app/core/versions.py:333-335 | Two such words compare as text |
| MavenLadder.SpellingsCompareAsText | app/core/versions.py:333-335 | Two spellings of one rung other than the release's compare as text too, and are equal only if identical |
| MavenLadder.NumberOutranksWord | app/core/versions.py:321-324 | A further number makes a higher version than any word |
| MavenLadder.NumbersCompareByValue | app/core/versions.py:326-329 | Numbers compare by value |
| MavenLadder.CaseIsFolded | app/core/versions.py:272-282 | Capitals make no difference |
| Maven.CompareIsAntisymmetric | app/core/versions.py:203-210 | On version texts comparison is antisymmetric, and equality is identity of the hashed key |
| Maven.OrderZeroIffIdentical | app/core/versions.py:310-337 | Trimmed token lists compare equal exactly when they are identical |
| Maven.TransitiveIffNoClash | app/core/versions.py:310-337 | For a at most b at most c, a is at most c exactly when the three do not form the one kind of clash |
| Maven.CircleIsClash | app/core/versions.py:310-337 | Every circle of three is a clash |
| Maven.ClashIsCircle | app/core/versions.py:310-337 | Every clash is a circle of three |
| Maven.OrderIsNotTransitive | app/core/versions.py:310-337 | On the texts themselves: 1 < 1-sp < 1.0-alpha < 1 |
| Maven.LowOrderIsZeroPadded | app/core/versions.py:247-337 | With every qualifier below the release, the order is the lexicographic one on lists followed by zeros forever |
| Maven.LowOrderIsTransitive | app/core/versions.py:247-337 | With every qualifier below the release, the order is transitive |
| MavenRanges.OrderedIffClashFree | app/core/versions.py:310-354 | Any set of Maven texts is totally preordered exactly when no three of them clash |
| MavenRanges.LowTextsAreClashFree | app/core/versions.py:247-337 | Texts whose qualifiers all rank below the release are such a set |
| MavenRanges.MavenIntervalsAreTheWalk | app/core/osv.py:60-120 | For a version and events among clash-free texts, in Maven's own order: interval membership is the OSV walk |
| MavenRanges.MavenSortedWalkIsCovered | app/core/osv.py:60-120 | And no version their sorted walk calls affected is missed, however they are listed, under the same counting condition |
| MavenRanges.MavenRecommendedFix | app/core/versions.py:411-440 | And in window k the recommendation is window k's fix, which no window holds |
| Versions.EveryEcosystemIsComparable | app/core/versions.py:340-354 | In every ecosystem, with no assumption on any library, versions that parse compare without an error |
| Versions.SemVerEcosystemsAreOrdered | app/core/versions.py:340-354 | npm, Go and crates.io texts that parse are totally preordered, and exactly those compare without an error |
| Versions.Pep440IsOrdered | app/core/versions.py:340-354 | PyPI inherits whatever total preorder its version library provides |
| Versions.PrefixAndSuffixGo | app/core/versions.py:178-192 | The prefix `v` goes for Go and npm only, the suffix `+incompatible` for Go only |
| Versions.SpaceIsStripped | app/core/versions.py:178-192 | Surrounding space goes in every ecosystem |
| Versions.WhatParses | app/core/versions.py:217-236 | What parses: for Maven anything with a letter or digit between its outer spaces, for PyPI what the library accepts, elsewhere what SemVer parsing accepts after normalising |
| Versions.PypiComparesAsLibrary | app/core/versions.py:340-354 | PyPI versions compare as the library compares them, in that order |
| Versions.SemVerComparesAsRead | app/core/versions.py:340-354 | npm, Go and crates.io versions compare as the SemVer versions they are read as, in that order |
| Text.WhiteSpace | app/core/versions.py:186 | Blanks, tabs and line ends are stripped; printable ASCII is not |
| Versions.VersionMatches | app/core/versions.py:381-408 | True exactly for a parseable version that is enumerated or lies in some readable range; an unreadable range masks no other |
| Versions.FirstFixedVersion | app/core/versions.py:411-440 | The fix of some range, strictly above the installed version, and least among those under a total order; none exactly when no range has a fix above it |
| OsvRanges.PairRangeEvents | app/core/osv.py:60-120 | The loop over events computes the specified fold, stray closing events and open windows included |
| OsvRanges.NothingAffectedIsMissed | app/core/osv.py:60-120 | In every ecosystem, for readable events: a version that the event walk, taken in list order, calls affected lies in some interval |
| OsvListings.MoreOpenedIsCovered | app/core/osv.py:60-120 | In any listing, in every ecosystem: a version that more introductions reach than closings clear lies in some interval |
| OsvListings.SortedWalkIsCovered | app/core/osv.py:60-120 | A version the schema's walk in version order calls affected lies in some interval however the events are listed, unless some introduction has up to it as many closings as introductions |
| OsvListings.EveryListingIsSafeIff | app/core/osv.py:72-76 | That condition is exact: every listing of the events covers everything the sorted walk calls affected exactly when it holds |
| OsvListings.NoStraysAreSafe | app/core/osv.py:72-76 | Events of which every closing, in version order, closes an open window may be listed in any order |
| OsvListings.UnsortedListingMisses | app/core/osv.py:93-99 | Listed as introduced b, fixed a, fixed c with a < b < m < c: m is affected by the sorted walk and in no interval |
| OsvRanges.AscendingCoverage | app/core/osv.py:60-120 | For strictly ascending events the intervals hold exactly what the walk calls affected, and what is at or above a doubled introduction |
| OsvRanges.IntervalsAreTheWalk | app/core/osv.py:60-120 | Ascending and with no two introductions in a row: interval membership and the walk are the same, `last_affected` and open windows included |
| OsvRanges.ExactIffNothingAfterDouble | app/core/osv.py:81-120 | For every ascending list, intervals and walk agree on every version exactly when no fix follows a doubled introduction and no version lies past a `last_affected` that does and before whatever is introduced next |
| OsvRanges.ExactIffNoFixAfterDouble | app/core/osv.py:85-99 | For ascending introductions and fixes: exactly when no fix follows a doubled introduction |
| OsvRanges.DoubledIntroductionOverreports | app/core/osv.py:85-91 | Introduced, introduced, fixed: the fix itself lies in an interval though the walk clears it |
| OsvRanges.NoFixIsAffectedIff | app/core/osv.py:81-120 | For ascending lists, no fix is itself reported as affected exactly when none follows a doubled introduction |
| OsvRanges.RecommendationIsNotAffected | app/core/versions.py:411-440 | With no two introductions in a row, no fix above any version lies in an interval, `last_affected` windows included |
| Advisories.ParseAffected | app/core/osv.py:123-160 | The nested loops compute the kept entries, in order |
| Advisories.KeptEntriesIff | app/core/osv.py:123-160 | An affected package is kept exactly when it is what some entry of a known ecosystem, with a name and something to compare against, stands for |
| Advisories.DroppedIff | app/core/osv.py:123-160 | An entry is dropped exactly when its ecosystem is unknown, its name is missing, or it lists no version and no SEMVER or ECOSYSTEM range of it introduces anything; with GIT ranges alone it is |
| Advisories.AffectedEntryIsMatched | app/core/osv.py:123-160 | In every ecosystem, an entry whose events, taken in list order, affect a version is kept and matches that version |
| Advisories.SchemaEntryIsMatched | app/core/osv.py:123-160 | An entry the schema's own verdict, events in version order, says affects a version is kept and matches it, however its events are listed |
| Advisories.NothingIsMissedInListOrder | app/core/matching.py:449-459 | From the record to the verdict, in every ecosystem, events taken in list order: triage under any policy does not call the finding unaffected |
| Advisories.NoAffectedDependencyIsMissed | app/core/matching.py:449-459 | From the record to the verdict, by the schema's walk in version order: triage under any policy does not call the finding unaffected, however the events are listed |
| Advisories.FixOfWindow | app/core/versions.py:411-440 | In window k of ascending windows the recommendation is window k's own fix, or none if it never closes |
| Advisories.FixLeavesWindows | app/core/versions.py:411-440 | That fix lies outside window k and every earlier one |
| Advisories.RecommendedFix | app/core/osv.py:77-120 | From ascending alternating events to the recommendation: it is window k's fix, and the recommended version is in no window at all |
| Triage.ActionableIff | app/core/matching.py:225-363 | The verdict in one sentence: affected, not withdrawn, and either unsilenceable or unignored and over the EPSS gate or the floor for its exposure |
| Verdicts.ActionableOnInputs | app/core/matching.py:225-363 | The verdict on identifiers, aliases, entries, catalogues and policy alone: affected, not withdrawn, and malware, or exploited where KEV alerts, or unsilenced and likely enough or severe enough |
| Verdicts.ExploitedAliasIsRaised | app/core/matching.py:243-306 | An affected advisory whose own identifier or any alias is in the catalogue is actionable where KEV alerts, as exploited unless it is malware |
| Verdicts.AlertReasons | app/core/matching.py:268-349 | Which of the five alert reasons a finding carries, each exactly |
| Verdicts.FilingReasons | app/core/matching.py:268-363 | Which of the five filing reasons, each exactly |
| Verdicts.DecisionCarries | app/core/matching.py:242-266 | Every other field of a decision, the fix of the first entry that covers the version included |
| Verdicts.ScoreIsBest | app/core/matching.py:366-382 | The score and percentile are those of a CVE the advisory goes by, and none of its CVEs scores higher |
| Domain.CveIdsIff | app/core/types.py:587-592 | An advisory's CVEs are exactly its identifier and aliases, upper-cased, that start with `CVE-` |
| Triage.DefaultPolicyIff | app/core/matching.py:8-18 | Under the default policy a finding is raised exactly by the three documented rules or as malware |
| Triage.TriageIsMonotone | app/core/matching.py:146-172 | More severity, more KEV ids, more or higher EPSS scores, or any looser policy never turns actionable into suppressed |
| Triage.IgnoresCannotSilence | app/core/matching.py:273-310 | Malware, and KEV where KEV alerts, stay actionable under every ignore set |
| Triage.EpssFor | app/core/matching.py:366-382 | The score of a highest-scored CVE of the advisory, and nothing exactly when none is scored |
| Triage.CriticalReasonIsLiteralIff | app/core/types.py:238-257 | For findings decided by severity, "critical, ships to production" is literally true exactly when the transitive threshold is critical and dev findings cannot alert |
| Triage.HighIsReportedAsCritical | app/core/matching.py:167-172 | With the transitive threshold at high, a high transitive finding is reported as critical in production |
| Triage.DevIsReportedAsShipping | app/core/matching.py:167-172 | With dev dependencies alerting, a critical finding that does not ship is too |
| Scan.TriageAll | app/core/matching.py:385-425 | Actionable plus suppressed is, as a multiset, exactly the decisions on the affected pairs within depth, each with exactly the one reason its verdict needs; both lists are sorted with ties in the order found; scanned plus unreached is the input length |
| Scan.FindingsAreWarranted | app/core/matching.py:385-425 | A decision is listed exactly when it is the triage of an affected pair of a dependency within depth |
| Scan.DeeperKeepsFindings | app/core/matching.py:146-147 | Raising the depth limit only adds findings, to each list separately |
| Scan.UrgencyOrders | app/core/matching.py:428-438 | Urgency is a total preorder, so sorting by it is well defined |
| Scan.UrgencyIff | app/core/matching.py:428-438 | More urgent is exactly: exploited, else more severe, else earlier lower-cased name, else earlier identifier |
| Scan.MostUrgentFirst | app/core/matching.py:419-420 | In a sorted list nothing stands before something more urgent |
| SourceReachability.AnalyzeNodeReachability | app/core/reachability.py:117-209 | The loops over files, imports and dependencies give every dependency its specified conclusion |
| SourceReachability.StateIff | app/core/reachability.py:117-209 | Each state by its exact condition on the bundle: imported in production, imported at all or through the root, provably not imported |
| SourceReachability.NotObservedIsEarned | app/core/reachability.py:117-209 | "Not observed" needs a complete bundle, every path accepted, no non-literal import anywhere, no import of the package or its root, and a known route |
| SourceReachability.MoreFilesKeepPositive | app/core/reachability.py:117-209 | More files never lower a positive state |
| SourceReachability.IncompleteOnlyForgetsNegatives | app/core/reachability.py:117-209 | Losing completeness only turns "not observed" into "unknown" |
| SourceReachability.EvidenceIsBacked | app/core/reachability.py:269-295 | At most eight pieces of evidence, some exactly for the positive states, each from a real import of the package or its root |
| SourceReachability.AnalysisNeverDecides | app/core/matching.py:225-363 | Triage reads the manifest's exposure, never the source analysis: the decision on an analysed dependency is the decision on the unanalysed one |
| Alerts.SendNewMatchDigest | app/services/alert_service.py:36-92 | From the rows it writes alone: every open, actionable, untold match gets an email row, and a webhook row where that is tried, each recording how its send ended; with email enabled such a match is marked exactly when some row of it says sent and none is pending; opting out marks without rows; nothing else changes; the result counts the matches exactly when something was sent |
| Alerts.TellChannels | app/services/alert_service.py:71-80 | Email then webhook, each recorded on its own rows; one failing does not stop the other |
| Alerts.DeliverEmail | app/services/alert_service.py:95-133 | One row per match, sent, failed with the error, or left pending when an exception escapes |
| Alerts.DeliverDiscord | app/services/alert_service.py:136-203 | The same for the webhook, none without one, with the outcome recorded on the target |
| Alerts.MarkDeliveredInApp | app/services/alert_service.py:218-232 | Sets the mark on exactly the unmarked matches, leaves earlier marks alone, and counts what it set |
| NotificationRuns.SameSelection | app/services/alert_service.py:44-50 | Selecting by row and by id agree, so a run step writes the rows the digest method writes |
| NotificationRuns.NotifiedNeverChanges | app/services/alert_service.py:218-232 | Over any run, crashes included, a match's notification time never changes once set |
| NotificationRuns.RowsAreSettled | app/services/alert_service.py:95-203 | While no exception escapes a channel, every alert row written ends sent or failed |
| NotificationRuns.DigestMarksIffTold | app/services/alert_service.py:71-92 | In any state a digest marks news exactly when the rows it adds say sent and leave nothing pending |
| NotificationRuns.FailuresLeaveNews | app/services/alert_service.py:82-85 | Over any run of digests, a match whose every row says failed is news still, to be tried again |
| NotificationRuns.EachMatchIsToldOnce | app/services/alert_service.py:1-17 | While no exception escapes, no match is sent twice over a channel in any run of digests, marks, dismissals, opt-outs and new findings |
| NotificationRuns.AtMostOneSuccessfulDigest | app/services/alert_service.py:36-92 | While no exception escapes, at most one digest of a run gets a match through to anybody |
| NotificationRuns.ToldButUnmarkedIff | app/services/alert_service.py:71-92 | Somebody is told and the match stays eligible exactly when the email went out and the webhook's exception escaped |
| NotificationRuns.CrashRepeatsTheEmail | app/services/alert_service.py:71-92 | After such a crash the next digest emails the same match again |
| ScanWorkers.RunScanCycle | app/jobs/tasks.py:221-276 | Without the lock nothing is scanned or sent and the holder is undisturbed; with it every target is swept, the figures are exact, the lock is released, and the actions taken are those of the worker machine |
| ScanWorkers.AdvisoryLock.TryAcquire | app/jobs/tasks.py:56-68 | Succeeds exactly when nobody owns the lock, and then the caller does |
| ScanWorkers.SweepAccountsForEveryTarget | app/jobs/tasks.py:221-276 | Scanned plus crashed targets are all targets, and every crash is among the failures |
| ScanWorkers.SweepIsARun | app/jobs/tasks.py:221-276 | A whole cycle, with or without the lock, is a run of the worker machine that leaves the lock as it found it |
| ScanWorkers.AtMostOneInside | app/jobs/tasks.py:56-68 | In every reachable state of any number of workers, at most one is between acquire and release, deaths included |
| ScanWorkers.OnlyTheOwnerActs | app/jobs/tasks.py:56-68 | Only the owner sends, records or releases; a declined worker can only leave |
| ScanWorkers.NoFindingIsSentTwice | app/jobs/tasks.py:221-276 | If no death or exception comes between a delivery and its record, every finding is sent at most once, by one worker, under every interleaving |
| ScanWorkers.ExposedIffLost | app/jobs/tasks.py:257-273 | After any step, something told is unguarded against being told again exactly when that step lost its record |
| ScanWorkers.RepeatableIffLost | app/jobs/tasks.py:221-276 | After any run of any number of workers, deaths and exceptions included: some continuation that loses nothing itself leaves a finding sent twice exactly when the run lost that finding's record |
| ScanWorkers.DeathBeforeCommitRepeats | app/jobs/tasks.py:257-273 | Two workers tell the same finding when the first dies before its commit |

## Left out

- Text: case folding, digits and letters are ASCII, white space is Latin-1; no Unicode folding or normalisation.
- PEP 440: the version library is a validity test and a comparison; PyPI results assume that comparison is a total preorder.
- Package ignore patterns: glob matching is an abstract function of pattern and name.
- Decoding: JSON, TOML, XML and YAML; lockfiles, advisories and specifiers start from decoded values.
- Go lines: comment splitting and the three regular expressions for a line are abstract; a `module` line is assumed to start with that word.
- Source files: which paths are accepted and what one file imports are abstract; notes and explanation prose are not modelled.
- NpmRanges.FloorIsBelowEveryPermitted: covers releases of three numbers and comparators with the operator attached, because with a space between them the code takes the operator and the version for two comparators.
- Floors.ResolveNpmFloor: starts from branches already split at `||` and white space; a blank range or a tag such as `latest` is the empty union.
- Floors.ResolvePypiFloor: clauses arrive in a given order, where the program iterates over a set.
- Versions.FirstFixedVersion: minimality needs an ordered scheme; for Maven that is `MavenRanges.MavenRecommendedFix`, among texts that do not clash. Elsewhere in Maven only membership and being above the installed version are stated.
- OsvRanges.IntervalsAreTheWalk: exactness likewise needs an order; that no version affected in list order is missed does not.
- OsvListings.SortedWalkIsCovered: the version order is strict, so events that name one version twice are not sorted by it.
- PypiSpecifiers.FloorIsPermittedIff: what a clause permits is the library's affair; `>` is its plain order here, where PEP 440 also keeps it from post-releases of its own bound.
- Typosquat.CheckTyposquat: the popular and known-distinct tables are parameters, and the signal's explanatory text is not modelled.
- Alerts.SendNewMatchDigest: sending is an outcome (accepted, rejected, exception); subjects, bodies, payloads and clipped error texts are not modelled, an empty webhook address counts as none, and one clock value serves a whole digest.
- NotificationRuns.NotifiedNeverChanges: speaks of this service only; the scan service may clear the mark when a finding is re-opened.
- ScanWorkers.RunScanCycle: what a scan finds and how its digest ends are inputs; choosing due targets, sessions, rollback contents and database lock semantics are reduced to one owner cell and a per-target commit.
- Dependency count limits, project-name fallbacks and detection of manifest kinds.
- Other manifests: package.json, requirements files, pyproject, Cargo, pom.xml, Gradle and sbt.
- CVSS scoring, registry facts, one-time passwords, uploads, routes, templates and front ends: input, output, library calls or straight-line branches.
