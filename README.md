# Bisection revsets and Mercurial helpers

This project models two pieces of a SpiderMonkey bisection tool.

The first piece builds Mercurial revsets that bound a bisection:

- the ranges of changesets known to be broken (`hgrange`, `known_broken_ranges`);
- the earliest changeset known to work with a given set of shell flags (`earliest_known_working_rev`, `common_descendants`).

The second piece is the decision logic of the tool's Mercurial helpers:

- the revset that tests ancestry, and how its output is read (`exists_and_is_ancestor`);
- the prompt shown when the working copy is not on the default tip, and the split of the `"hash num"` output (`get_repo_hash_and_id`);
- the repository name taken from the `default` path (`hgrc_repo_name`).

The tool asks the host for its operating system, its machine and the macOS version. Here those answers are one immutable `Platform` record, and the build options are a `BuildOptions` record. As a result both revset builders are functions of their arguments: identical inputs give identical revsets.

Each `hg` run becomes a parameter: its printed output, the operator's typed answer, and the configured `default` path.

A finite changeset DAG (`History`) gives the revsets a meaning. It covers `descendants`, `id` (the one changeset whose hash starts with the given hex string), set difference, `and` and `ancestor`.

Files:

- `text.dfy` (`Text`): the Python string operations the code relies on, written to behave like the built-ins: `in`, `str.find`, `str.join`, `str.split` with a one-character separator, and `str.strip`.
- `history.dfy` (`History`): the changeset DAG and ancestry, descendants, the meaning of a broken range, and greatest common ancestors.
- `known_broken_earliest_working.dfy` (`KnownBrokenEarliestWorking`): the two revset builders. `KnownBrokenRanges` and `EarliestKnownWorkingRev` are methods that keep the source's own sequence of tests and appends. Each is proved equal to a filter over a table of the ranges or revisions.
- `hg_helpers.dfy` (`HgHelpers`): the ancestry query and its reading, the operator's choice, `GetRepoHashAndId`, the hash/number split, and the repository name.

Three behaviours of the code are easy to misread:

- **Required revisions.** Each required revision is added only when its own trigger holds. A flag such as `--wasm-gc` does not also pull in the revisions listed above it; `RequiredWasmGcAlone` states this.
- **Revision checks.** The revset builders do not check the revision strings they are given, and neither does the model.
- **The `--cpu-count=` test.** The comment at `known_broken_earliest_working.py:91` says a flag must match exactly, but the code tests for a substring. The model tests for a substring, and `CpuCountBySubstring` states it.

## Model

| member | source | states |
|---|---|---|
| KnownBrokenEarliestWorking.ParseHgRange | src/funfuzz/autobisectjs/known_broken_earliest_working.py:15-22 | a range revset that parses gives back a first bad changeset without `)`, and the two changesets re-serialise to exactly that revset |
| KnownBrokenEarliestWorking.HgRangeRoundTrip | src/funfuzz/autobisectjs/known_broken_earliest_working.py:15-22 | parsing `hgrange(bad, good)` recovers `(bad, good)` whenever `bad` has no `)`, which holds for every hex hash |
| KnownBrokenEarliestWorking.HgRangeInjective | src/funfuzz/autobisectjs/known_broken_earliest_working.py:15-22 | two ranges serialise to the same revset only if both changesets agree |
| KnownBrokenEarliestWorking.HgRangeLayout | src/funfuzz/autobisectjs/known_broken_earliest_working.py:22 | the revset is `(descendants(id(` bad `))-descendants(id(` good `)))` piece by piece at fixed offsets, so the first bad changeset precedes the first good one |
| KnownBrokenEarliestWorking.HgRangeMeaning | src/funfuzz/autobisectjs/known_broken_earliest_working.py:17-22 | the text `hgrange(bad, good)` builds, read back through its parse, denotes the broken range of `bad` and `good` on any history |
| History.Lookup | src/funfuzz/autobisectjs/known_broken_earliest_working.py:20-22 | `id(h)` is the one changeset whose node hash starts with `h`; no match, or several, resolve to nothing |
| History.LookupFullHash | src/funfuzz/autobisectjs/known_broken_earliest_working.py:22 | on a valid history a full node hash resolves to its own changeset |
| History.LookupPrefix | src/funfuzz/autobisectjs/known_broken_earliest_working.py:38-77 | a 12-digit table prefix resolves to the changeset it starts exactly when no other node hash starts with it |
| History.BrokenRangeExcludesFirstGood | src/funfuzz/autobisectjs/known_broken_earliest_working.py:18-19 | the first good changeset never belongs to its own broken range |
| History.BrokenRangeHasFirstBad | src/funfuzz/autobisectjs/known_broken_earliest_working.py:17-19 | the first bad changeset belongs to the range exactly when it does not descend from the fix |
| History.BrokenRangeVacuous | src/funfuzz/autobisectjs/known_broken_earliest_working.py:20-21 | a range from a changeset to itself, or from an unknown one, is the empty set rather than an error |
| History.BrokenRangeWithinDescendants | src/funfuzz/autobisectjs/known_broken_earliest_working.py:17 | every member of a range descends from the first bad changeset and not from the fix, including branches that never got the fix |
| KnownBrokenEarliestWorking.KnownBrokenRanges | src/funfuzz/autobisectjs/known_broken_earliest_working.py:25-80 | the list built group by group equals the table's revsets whose platform or option condition holds, in table order |
| KnownBrokenEarliestWorking.SelectedCharacterised | src/funfuzz/autobisectjs/known_broken_earliest_working.py:44-78 | the selection is table entries at strictly increasing positions, and each position is present iff its condition holds |
| KnownBrokenEarliestWorking.KnownBrokenBaseFirst | src/funfuzz/autobisectjs/known_broken_earliest_working.py:37-42 | on every platform and option set the list starts with the four unconditional ranges in order and has at most twelve entries |
| KnownBrokenEarliestWorking.KnownBrokenLinuxDebugScenario | src/funfuzz/autobisectjs/known_broken_earliest_working.py:49-78 | on non-aarch64 Linux with profiling disabled, a debug build, and neither the more-deterministic nor the ARM32-simulator option, the list is the four base ranges followed by the GCC 5 range only |
| KnownBrokenEarliestWorking.KnownBrokenDarwinScenario | src/funfuzz/autobisectjs/known_broken_earliest_working.py:44-68 | on macOS with an optimised build and neither the more-deterministic nor the ARM32-simulator option, the list is the four base ranges, the macOS range and the two gczeal ranges |
| KnownBrokenEarliestWorking.EarliestKnownWorkingRev | src/funfuzz/autobisectjs/known_broken_earliest_working.py:83-128 | with macOS older than 10.13 the result is the failed assertion; otherwise it is `first((` common descendants of the required revisions `) - (` skip revs `))` |
| KnownBrokenEarliestWorking.CpuCountBySubstring | src/funfuzz/autobisectjs/known_broken_earliest_working.py:90-93 | the `--cpu-count=` test is containment: `--cpu-count=4` fires it although no flag equals `--cpu-count=` |
| KnownBrokenEarliestWorking.RequiredAsSteps | src/funfuzz/autobisectjs/known_broken_earliest_working.py:95-126 | the thirteen tests as the code writes them, including the set intersection and the `or` pairs, give the table filter |
| KnownBrokenEarliestWorking.RequiredCharacterised | src/funfuzz/autobisectjs/known_broken_earliest_working.py:95-126 | the required list is table revisions at strictly increasing positions, and each position is present iff its trigger fires |
| KnownBrokenEarliestWorking.RequiredEndsWithBaseline | src/funfuzz/autobisectjs/known_broken_earliest_working.py:125-126 | the list always ends with `bb868860dfc35876d2d9c421c037c75a4fb9b3d2` and has between one and thirteen entries, so it is never empty |
| KnownBrokenEarliestWorking.RequiredOnlyBaseline | src/funfuzz/autobisectjs/known_broken_earliest_working.py:97-126 | when no conditional trigger fires, the baseline revision is the only requirement |
| KnownBrokenEarliestWorking.RequiredWasmGcAlone | src/funfuzz/autobisectjs/known_broken_earliest_working.py:111-112 | `--wasm-gc` with no other trigger requires exactly its own revision and the baseline, not the revisions listed above it |
| KnownBrokenEarliestWorking.DescendantsTerms | src/funfuzz/autobisectjs/known_broken_earliest_working.py:132 | one `descendants(r)` term per revision, in the same order |
| KnownBrokenEarliestWorking.CommonDescendantsSingle | src/funfuzz/autobisectjs/known_broken_earliest_working.py:131-132 | a single revision gives its one term with no separator |
| KnownBrokenEarliestWorking.CommonDescendantsSnoc | src/funfuzz/autobisectjs/known_broken_earliest_working.py:131-132 | one more revision appends exactly ` and descendants(r)`, so n revisions are joined by n-1 separators |
| KnownBrokenEarliestWorking.CommonDescendantsMeaning | src/funfuzz/autobisectjs/known_broken_earliest_working.py:131-132 | when every listed revision resolves, `common_descendants(revs)` holds exactly the revisions that descend from all of them |
| KnownBrokenEarliestWorking.CommonDescendantsOnChain | src/funfuzz/autobisectjs/known_broken_earliest_working.py:131-132 | when each required revision descends from the next one listed, the revset is the descendants of the first |
| History.ChainIntersection | src/funfuzz/autobisectjs/known_broken_earliest_working.py:97 | when the required revisions are listed latest first, each one descending from the next, the intersection of their descendants is the descendants of the first |
| Text.Contains | src/funfuzz/autobisectjs/known_broken_earliest_working.py:92 | Python's `sub in s` holds iff `sub` occurs at some index of `s` |
| Text.JoinSnoc | src/funfuzz/autobisectjs/known_broken_earliest_working.py:132 | joining one more part adds the separator and that part at the end |
| HgHelpers.ParseAncestryQuery | ocs/util/hg_helpers.py:38 | a query that parses gives a first revision without a space that re-serialises to exactly that query |
| HgHelpers.AncestryQueryRoundTrip | ocs/util/hg_helpers.py:38 | parsing `revA + " and ancestor(" + revA + "," + revB + ")"` recovers both revisions when `revA` has no space |
| HgHelpers.AncestryQueryLayout | ocs/util/hg_helpers.py:38 | the query is `revA`, ` and ancestor(`, `revA`, `,`, `revB`, `)` at fixed offsets |
| Text.Find | ocs/util/hg_helpers.py:49 | `str.find` gives -1 iff the text does not occur, and otherwise its first occurrence |
| HgHelpers.ExistsAndIsAncestor | ocs/util/hg_helpers.py:47-50 | the answer is true iff the output is non-empty and does not contain `abort: unknown revision` |
| HgHelpers.RenderUnknown | ocs/util/hg_helpers.py:29-30 | the abort printed for an unknown revision always reads as false |
| HgHelpers.RenderShortNode | ocs/util/hg_helpers.py:39 | a listed short hash always reads as true |
| History.AncestorIsGreatestCommonAncestor | ocs/util/hg_helpers.py:21-28 | when `a` is an ancestor of `b`, `a` is their greatest common ancestor |
| History.GreatestCommonAncestorIsFirst | ocs/util/hg_helpers.py:21-28 | a greatest common ancestor of `a` and `b` is `a` iff `a` is an ancestor of `b` |
| HgHelpers.ExistsAndIsAncestorMeaning | ocs/util/hg_helpers.py:16-50 | for two revisions given as 40-digit hashes, on any valid history and whichever greatest common ancestor Mercurial picks, the helper answers true iff both revisions exist and `revA` is an ancestor of `revB` or equal to it |
| HgHelpers.ExistsAndIsAncestorSame | ocs/util/hg_helpers.py:28 | any revision without a space that resolves to a changeset, a 12-digit short hash included, is reported as an ancestor of itself |
| Text.Strip | ocs/util/hg_helpers.py:90 | `str.strip()` gives a contiguous piece, everything removed is white space, and the result neither starts nor ends with white space |
| Text.StripPadded | ocs/util/hg_helpers.py:90 | one non-space character surrounded by white space strips to itself |
| HgHelpers.DecidePadded | ocs/util/hg_helpers.py:90-109 | a single letter answer with any surrounding white space maps `a` to abort, `d` to update, `u` to use this revision, and any other letter, such as `A`, to the invalid choice |
| HgHelpers.DecideBlank | ocs/util/hg_helpers.py:90-109 | an empty or white-space answer is the invalid choice |
| Text.SplitCount | ocs/util/hg_helpers.py:118 | `split` gives one more piece than there are separators |
| Text.SplitJoin | ocs/util/hg_helpers.py:118 | joining the pieces with the separator gives back the original string |
| HgHelpers.SplitHashAndNumMeaning | ocs/util/hg_helpers.py:117-118 | the unpack succeeds iff the output has exactly one space, and then `hash + " " + num` is the output, with no space in either part; otherwise it counts the pieces found |
| HgHelpers.SplitHashAndNumRoundTrip | ocs/util/hg_helpers.py:118 | a hash and a number without spaces, printed with one space between them, split back into themselves |
| HgHelpers.Finish | ocs/util/hg_helpers.py:117-122 | the helper gives an identified result iff the output has exactly one space, and its hash and number rebuild the output |
| HgHelpers.GetRepoHashAndId | ocs/util/hg_helpers.py:53-122 | the revision asked for defaults to `parents() and default`. With a non-empty first output: no prompt, one `hg log`, on default. Otherwise, after the prompt: `a` exits with status 0; `d` runs `hg update default`, re-queries and is on default; `u` re-queries `parents()` and is not on default; anything else fails with the invalid-choice error |
| HgHelpers.OnDefaultTip | ocs/util/hg_helpers.py:83-84 | on the default tip a well-formed output gives its hash and number with `is_on_default` true |
| Text.SplitAround | ocs/util/hg_helpers.py:134 | splitting distributes over a separator: the pieces of `a + "/" + b` are those of `a` followed by those of `b` |
| HgHelpers.HgrcRepoName | ocs/util/hg_helpers.py:133-134 | a name, when found, is non-empty and contains no `/` |
| HgHelpers.HgrcRepoNameMissing | ocs/util/hg_helpers.py:134 | there is no name, which is the original's index error, iff the path consists of `/` characters only |
| HgHelpers.HgrcRepoNameTrailingSlash | ocs/util/hg_helpers.py:133 | a trailing `/` does not change the name |
| HgHelpers.HgrcRepoNameLast | ocs/util/hg_helpers.py:134 | the name is the non-empty piece after the last `/` |
| HgHelpers.HgrcRepoNameSingle | ocs/util/hg_helpers.py:134 | a path with no `/`, such as `repo`, is its own name |

## Left out

- Running `hg` is not modelled: each `subprocess.run`, its timeout, its working directory and the UTF-8 decoding with replacement. The command's printed output is a parameter instead.
- A failing `hg` command under `check=True` raises `CalledProcessError` in the original. That exception is not modelled.
- `input()`, `print` and `sys.exit` are not modelled as I/O. The typed answer is a parameter, and leaving is the `Exited(0)` outcome.
- `configparser` reading of `.hg/hgrc` is not modelled. `HgrcRepoName` takes the already-read `paths.default` value, so a missing section or key is not modelled either.
- `platform.system()`, `platform.machine()`, `platform.mac_ver()` and `parse_version` are not modelled. Their answers are fields of `Platform`, and the macOS version test is the boolean `macOSAtLeast1013`.
- Mercurial's revset language is given a meaning only for the forms these revsets use, on an abstract DAG.
- `HgHelpers.ExistsAndIsAncestorMeaning`: the claim covers revisions given as 40-digit hashes only. Short prefixes, local revision numbers, bookmarks and other revset syntax are not modelled as revisions.
- `HgHelpers.ExistsAndIsAncestorMeaning`: the original runs `hg` without checking its status and reads the merged output, so any error text other than `abort: unknown revision` reads as true. A parse error, an ambiguous-prefix abort and a missing repository are such texts. `HgHelpers.ExistsAndIsAncestor` states this for every output, but the claim about the history does not cover those inputs.
- `KnownBrokenEarliestWorking.EarliestKnownWorkingRev`: the outer `first((…) - (skip_revs))` of the revset is built as text but not interpreted on the history. Neither `first` nor the subtraction of the skipped revisions is given a meaning.
- `KnownBrokenEarliestWorking.CommonDescendantsMeaning`: a `descendants(r)` term whose hash is unknown makes Mercurial abort. The lemma assumes every listed revision resolves and says nothing about that case.
- `HgHelpers.ExistsAndIsAncestorMeaning`: Mercurial's choice among several greatest common ancestors is a parameter. The model does not prove that such an answer always exists.
- `HgHelpers.Render`: only the `abort: unknown revision` prefix of Mercurial's message matters to the model. The rest of its wording is a stand-in.
- `setup.py` is not part of this model. It is packaging plumbing that reads a file for `__version__`.
