# CommitExplorer, modelled in Dafny

A model of `CommitExplorer` from reg-suit's git-hash key generator. It finds the
*base commit* of the current branch, which the key generator uses to pick the
baseline snapshot of a regression run. The explorer works in these steps:

1. Read the branch name. A detached HEAD is refused.
2. Parse the commit graph drawn by `git log --graph` into nodes `[hash, parent, ...]`.
3. Select the *candidate* commits. A commit is a candidate when the current
   branch contains it and so does some other branch that passes two tests. The
   other branch's name must not end with the current name, so with current branch
   `x` a branch `fix` is dropped too. And it must not be in `mergedBranches`:
   the branches that contain the newest commit, except those whose name ends with
   `/` plus the current name or matches a fixed pattern. Git is asked which
   branches contain a commit once per hash, and the answer is memoised.
4. Choose the *comparison branch*. For every listed branch `b`, git's
   `logBetweenOldest(b, current)` answer gives a hash (its first word), and git
   gives that commit's date. The branch whose commit is earliest wins. Its
   *branch hash* is that commit's parent, cut to seven characters.
5. Search for the first candidate whose chain of first parents meets the branch hash.
6. Resolve that candidate to its full hash.

Each git call is an oracle in `GitOracle.Client`. An oracle is a field holding the
raw text git would print, as a function of the call's arguments. Date parsing is
the oracle `dateOf`. The explorer's mutable state is explicit:

- the branch name and the parsed nodes are parameters;
- the membership memo is a `map` that goes in and comes back out.

Each throw in the source becomes a `Failure` value of `CurrentBranch.ExplorerError`:

- a detached HEAD gives `DetachedHead`;
- reading the first node of an empty graph gives `NoCommits`;
- reading the head of an empty comparison list gives `NoBranches`;
- unbounded recursion along a looping parent chain gives `EndlessAncestry`.

Modules, one per file:

| file | module | what it holds |
|---|---|---|
| `outcome.dfy` | `Outcome` | `Option` and `Result` |
| `seqs.dfy` | `Seqs` | `filter`, `map` and a pigeonhole lemma |
| `jstext.dfy` | `JsText` | the JavaScript string operations used on git output |
| `git.dfy` | `GitOracle` | the oracle record and JavaScript time values |
| `commit_graph.dfy` | `CommitGraph` | `getCommitNodes` and `findParentNode` |
| `current_branch.dfy` | `CurrentBranch` | `getCurrentBranchName` and the error kinds |
| `branch_membership.dfy` | `BranchMembership` | `getBranchNames` and its memo |
| `candidates.dfy` | `Candidates` | `getCandidateHashes` |
| `comparison_branch.dfy` | `ComparisonBranch` | `getBranchHash` |
| `ancestor_search.dfy` | `AncestorSearch` | `findBaseCommitHash` |
| `base_commit.dfy` | `BaseCommit` | `getBaseCommitHash` |

Where the code behaves differently from what a reader of its comments might
expect, the model follows the code:

- The pattern at line 150 is the template literal `` `^this._branchName$` ``. It
  has no `${}`, so it never sees the branch name. It matches the word `this`, then
  any one UTF-16 code unit other than a line terminator, then `_branchName`
  (`Candidates.MatchesFixedPattern`). So `this._branchName` and `this-_branchName`
  match, but a name with an emoji in the middle does not.
- The search returns the *first* candidate in graph order whose first-parent
  chain meets the branch hash, not the nearest one. With the history
  `c3 -> c2 -> c1`, candidates `c3, c2` and branch hash `c1`, it returns `c3`
  (`AncestorSearch.LinearHistoryFindsFirstCandidate`).
- `traverseLog` follows only the first parent. The loop over the parents returns
  in its first round. The `target === branchHash` test inside that loop can never
  succeed.
- Line 143 reads `branch.hash` before line 144 guards against an undefined
  `branch`. So an empty comparison list throws (`NoBranches`); it never comes back
  as `undefined`.

## Model

| member | source | states |
|---|---|---|
| `CommitGraph.ParseGraph` | packages/reg-keygen-git-hash-plugin/src/commit-explorer.ts:16-26 | every node holds at least its own hash; every entry is non-empty and free of glyphs, spaces and line breaks; nodes keep the order of their lines, at most one per line, and every line with a token gives its node |
| `CommitGraph.StripGlyphs` | packages/reg-keygen-git-hash-plugin/src/commit-explorer.ts:21 | no glyph survives; the rest of the line is kept, in order, and exactly the glyphs are removed (the result is a subsequence of the line, shorter by the number of glyphs) |
| `CommitGraph.LineTokens` | packages/reg-keygen-git-hash-plugin/src/commit-explorer.ts:19-24 | the hashes read from one line are non-empty, hold no glyph or space, and come from the line |
| `CommitGraph.GraphOfTokenLines` | packages/reg-keygen-git-hash-plugin/src/commit-explorer.ts:16-26 | the nodes are the tokens of exactly the lines holding a character other than a glyph or a space, in line order, so commit lines drawn beside other branches count too |
| `CommitGraph.LineTokensContent` | packages/reg-keygen-git-hash-plugin/src/commit-explorer.ts:19-24 | the hashes read from a line, put together, are exactly the line's characters other than glyphs and spaces, in order |
| `CommitGraph.ConnectorLine` | packages/reg-keygen-git-hash-plugin/src/commit-explorer.ts:19-25 | a line yields no node exactly when it holds nothing but graph glyphs and spaces |
| `CommitGraph.ConnectorOnlyDump` | packages/reg-keygen-git-hash-plugin/src/commit-explorer.ts:16-26 | a dump of nothing but glyphs, spaces and line breaks gives no node |
| `CommitGraph.ParseFormatGraph` | packages/reg-keygen-git-hash-plugin/src/commit-explorer.ts:12-26 | parsing a dump drawn as `* hash parent ...` lines gives back the nodes it was drawn from |
| `CommitGraph.ParseExampleLine` | packages/reg-keygen-git-hash-plugin/src/commit-explorer.ts:12-16 | the documented example line `* a38df15 8e1ac3a` parses to `[["a38df15", "8e1ac3a"]]` |
| `CommitGraph.FindNode` | packages/reg-keygen-git-hash-plugin/src/commit-explorer.ts:67-70 | the answer is missing exactly when no node is headed by the hash; otherwise it is the first node headed by it |
| `CommitGraph.Heads` | packages/reg-keygen-git-hash-plugin/src/commit-explorer.ts:154 | one hash per node, in graph order, each the node's own first entry |
| `CurrentBranch.CurrentBranchName` | packages/reg-keygen-git-hash-plugin/src/commit-explorer.ts:31-40 | the name is refused with `DetachedHead` exactly when it starts with one of the three detached prefixes, or starts with `[` and contains `detached`; otherwise the label comes back with its first line break removed |
| `CurrentBranch.PlainNameAccepted` | packages/reg-keygen-git-hash-plugin/src/commit-explorer.ts:31-40 | a label that starts with neither `(` nor `[`, followed by a line break, is accepted as the label itself |
| `CurrentBranch.OnlyFirstBreakRemoved` | packages/reg-keygen-git-hash-plugin/src/commit-explorer.ts:32 | only the first line break is removed: `main\n\n` gives `main\n` |
| `CurrentBranch.DetachedHeadRefused` | packages/reg-keygen-git-hash-plugin/src/commit-explorer.ts:33-37 | every label `(HEAD detached...` is refused |
| `CurrentBranch.BracketedDetachedRefused` | packages/reg-keygen-git-hash-plugin/src/commit-explorer.ts:36-37 | every label that starts with `[` and contains `detached` is refused, wherever the first line break sits outside that word |
| `CurrentBranch.BrokenDetachedRefused` | packages/reg-keygen-git-hash-plugin/src/commit-explorer.ts:32-37 | a bracketed label whose `detached` is cut by its first line break is refused too, since the break is removed before the test |
| `BranchMembership.ParsedNamesTrimmed` | packages/reg-keygen-git-hash-plugin/src/commit-explorer.ts:78-82 | a membership listing gives at most one name per line, and no name starts or ends with whitespace |
| `BranchMembership.ParseListing` | packages/reg-keygen-git-hash-plugin/src/commit-explorer.ts:78-82 | reading back a `git branch` listing, with its `*` marker and indentation, gives its branch names in order |
| `BranchMembership.ParseContained` | packages/reg-keygen-git-hash-plugin/src/commit-explorer.ts:78-82 | a listing gives at most one name per line |
| `BranchMembership.BranchNames` | packages/reg-keygen-git-hash-plugin/src/commit-explorer.ts:76-85 | after a lookup the memo holds the returned names under the hash and keeps every earlier entry; a hash already in the memo is answered from it and the memo is left as it was; a hash missing from the memo is answered by parsing git's listing |
| `BranchMembership.LookupFaithful` | packages/reg-keygen-git-hash-plugin/src/commit-explorer.ts:76-85 | with a memo that agrees with git, a lookup answers what git's listing parses to, and the memo still agrees with git |
| `BranchMembership.LookupAddsOnlyItsHash` | packages/reg-keygen-git-hash-plugin/src/commit-explorer.ts:83 | a lookup adds no memo key other than its own hash |
| `BranchMembership.SecondLookupMemoised` | packages/reg-keygen-git-hash-plugin/src/commit-explorer.ts:77 | asking twice for the same hash gives the same names and leaves the memo unchanged the second time, whatever git would answer |
| `BranchMembership.FirstLookupParses` | packages/reg-keygen-git-hash-plugin/src/commit-explorer.ts:78-84 | a hash not yet in the memo, whatever else the memo holds, is answered by parsing git's listing, and only that hash is added |
| `Candidates.MergedBranches` | packages/reg-keygen-git-hash-plugin/src/commit-explorer.ts:151-152 | a name is in `mergedBranches` exactly when the newest commit holds it, it does not end with `/` plus the current name, and it does not match the fixed pattern |
| `Candidates.MatchesFixedPattern` | packages/reg-keygen-git-hash-plugin/src/commit-explorer.ts:150 | a matching name is `this`, one character that is a single UTF-16 code unit and not a line terminator, then `_branchName` |
| `Candidates.FixedPatternWildcard` | packages/reg-keygen-git-hash-plugin/src/commit-explorer.ts:150 | every such name matches, the literal `this._branchName` among them; a line break or a character outside the Basic Multilingual Plane in the middle does not |
| `Candidates.Others` | packages/reg-keygen-git-hash-plugin/src/commit-explorer.ts:158-160 | `others` is non-empty exactly when some name of the commit neither ends with the current name nor is in `mergedBranches` |
| `Candidates.Keep` | packages/reg-keygen-git-hash-plugin/src/commit-explorer.ts:155-162 | the filter callback keeps a commit exactly when it is a candidate by its names |
| `Candidates.KeepIsCandidate` | packages/reg-keygen-git-hash-plugin/src/commit-explorer.ts:155-162 | the filter's test holds exactly when the current branch holds the commit and some other holder neither ends with the current name nor is in `mergedBranches`; a found empty name is falsy, and then no holder qualifies anyway |
| `Candidates.CandidatesSpec` | packages/reg-keygen-git-hash-plugin/src/commit-explorer.ts:153-162 | the reference selection is a subsequence of the heads, and it holds exactly the heads that are candidates by git's answers |
| `Candidates.SelectCandidates` | packages/reg-keygen-git-hash-plugin/src/commit-explorer.ts:153-162 | the selection keeps the heads' order; the memo keeps its old entries and ends up holding every head |
| `Candidates.SelectedAreCandidates` | packages/reg-keygen-git-hash-plugin/src/commit-explorer.ts:155-162 | every selected head is in the final memo, and the names stored for it pass the filter |
| `Candidates.SelectMatchesSpec` | packages/reg-keygen-git-hash-plugin/src/commit-explorer.ts:153-162 | with a memo that agrees with git, threading the memo changes nothing: the selection is the reference selection, and the memo still agrees |
| `Candidates.CandidateHashes` | packages/reg-keygen-git-hash-plugin/src/commit-explorer.ts:149-163 | the candidates are a subsequence of the graph's heads; the memo keeps its old entries and holds the newest commit |
| `Candidates.CandidatesQualify` | packages/reg-keygen-git-hash-plugin/src/commit-explorer.ts:149-163 | whatever the memo held, every candidate is a candidate by the names the final memo holds for it and for the newest commit |
| `Candidates.CandidateHashesMatchSpec` | packages/reg-keygen-git-hash-plugin/src/commit-explorer.ts:149-163 | with a memo that agrees with git, the candidates are the reference selection over git's answers |
| `Candidates.OwnBranchesOnly` | packages/reg-keygen-git-hash-plugin/src/commit-explorer.ts:158-161 | a commit whose every branch ends with the current name is never a candidate |
| `Candidates.FirstCommitCandidacy` | packages/reg-keygen-git-hash-plugin/src/commit-explorer.ts:150-161 | the newest commit's own names make it a candidate exactly when the current branch holds it and one of its names matches the fixed pattern without ending with the current name |
| `Candidates.NewestCommitCandidate` | packages/reg-keygen-git-hash-plugin/src/commit-explorer.ts:149-163 | with a memo that agrees with git, the newest commit is selected exactly in that case |
| `ComparisonBranch.ListedBranch` | packages/reg-keygen-git-hash-plugin/src/commit-explorer.ts:133 | the word taken from a listing line has no space; it is the whole line, once the leading `*` and surrounding whitespace are gone, or that line starts with it followed by a space |
| `ComparisonBranch.ListedBranches` | packages/reg-keygen-git-hash-plugin/src/commit-explorer.ts:130-134 | at most one branch per line; an empty entry survives only when the current name is empty |
| `ComparisonBranch.ListedBranchesOfListing` | packages/reg-keygen-git-hash-plugin/src/commit-explorer.ts:130-134 | reading back a `git branch` listing gives its branches in order, plus one empty entry when the current name is empty |
| `ComparisonBranch.EntryFor` | packages/reg-keygen-git-hash-plugin/src/commit-explorer.ts:137-141 | the record's hash is the first word of git's answer; with a hash, the time is the date of git's trimmed time answer; without one, the sentinel, which no other time reaches |
| `ComparisonBranch.Entries` | packages/reg-keygen-git-hash-plugin/src/commit-explorer.ts:136-141 | record `i` is the record built from git's answers for listed branch `i`, one per branch in listing order; only records without a hash carry the sentinel |
| `ComparisonBranch.Insert` | packages/reg-keygen-git-hash-plugin/src/commit-explorer.ts:142 | inserting into a time-ordered list keeps it ordered and adds exactly the one record, placed in front of the first record that is not earlier and behind all earlier ones |
| `ComparisonBranch.InsertedFacts` | packages/reg-keygen-git-hash-plugin/src/commit-explorer.ts:142 | a record placed in front of the first record not earlier than it keeps a time-ordered list ordered, and the result is the old records plus that one |
| `ComparisonBranch.SortByTime` | packages/reg-keygen-git-hash-plugin/src/commit-explorer.ts:142 | the sort yields a time-ordered permutation of the records |
| `ComparisonBranch.SortHeadIsFirstMinimum` | packages/reg-keygen-git-hash-plugin/src/commit-explorer.ts:142 | the first sorted record is the earliest one, and among equally early records it is the one listed first |
| `ComparisonBranch.FirstMinimumUnique` | packages/reg-keygen-git-hash-plugin/src/commit-explorer.ts:142 | at most one record is the earliest with no equally early record before it |
| `ComparisonBranch.EarliestWithoutHash` | packages/reg-keygen-git-hash-plugin/src/commit-explorer.ts:139-142 | when the earliest record has no hash, no record has one, because only those carry the sentinel |
| `ComparisonBranch.SortedHeadHash` | packages/reg-keygen-git-hash-plugin/src/commit-explorer.ts:139-145 | the first sorted record has no hash exactly when no record has one; otherwise it is the first minimum, which has a hash |
| `ComparisonBranch.BranchHash` | packages/reg-keygen-git-hash-plugin/src/commit-explorer.ts:129-147 | it fails with `NoBranches` exactly when no listed branch survives the filter; an answer has at most seven characters |
| `ComparisonBranch.BranchHashChoice` | packages/reg-keygen-git-hash-plugin/src/commit-explorer.ts:136-146 | the answer is `undefined` exactly when no branch's `logBetweenOldest` answer starts with a hash; otherwise it is the first seven characters of the trimmed parent of the earliest such commit, taking the first listed among equals |
| `AncestorSearch.FirstParent` | packages/reg-keygen-git-hash-plugin/src/commit-explorer.ts:181-186 | a hash that has a next step heads some node of the graph |
| `AncestorSearch.TraverseLog` | packages/reg-keygen-git-hash-plugin/src/commit-explorer.ts:179-188 | `true` at once at the branch hash; any other start that does not come back falsy has a first parent |
| `AncestorSearch.TraverseStep` | packages/reg-keygen-git-hash-plugin/src/commit-explorer.ts:179-188 | one call of `traverseLog` is: `true` at the branch hash, falsy without a node or a parent, otherwise the call on the first parent; the in-loop test never decides anything |
| `AncestorSearch.WalkAdd` | packages/reg-keygen-git-hash-plugin/src/commit-explorer.ts:181-186 | walking `a + b` first-parent steps is walking `a` steps and then `b` more |
| `AncestorSearch.ReachedMeansReaches` | packages/reg-keygen-git-hash-plugin/src/commit-explorer.ts:179-188 | a `true` result means the first-parent chain meets the branch hash |
| `AncestorSearch.StuckMeansEnds` | packages/reg-keygen-git-hash-plugin/src/commit-explorer.ts:179-188 | a falsy result means the chain neither meets the branch hash nor goes on forever |
| `AncestorSearch.ExhaustedPrefix` | packages/reg-keygen-git-hash-plugin/src/commit-explorer.ts:179-188 | while a traversal still recurses, every hash it has visited exists, misses the branch hash and heads a node |
| `AncestorSearch.WalkRecurs` | packages/reg-keygen-git-hash-plugin/src/commit-explorer.ts:181-186 | once a first-parent chain revisits a hash, each later step repeats an earlier one |
| `AncestorSearch.WalkStaysInPrefix` | packages/reg-keygen-git-hash-plugin/src/commit-explorer.ts:179-188 | after a revisit, every hash of the chain is one already seen, so none is the branch hash |
| `AncestorSearch.ExhaustedMeansEndless` | packages/reg-keygen-git-hash-plugin/src/commit-explorer.ts:179-188 | a traversal that still recurses after one call per node never returns; by pigeonhole its chain loops without meeting the branch hash |
| `AncestorSearch.TraverseDecides` | packages/reg-keygen-git-hash-plugin/src/commit-explorer.ts:179-188 | with one call per node, the traversal returns `true` exactly when the chain meets the branch hash, recurses forever exactly when the chain is endless, and is falsy otherwise |
| `AncestorSearch.FindBase` | packages/reg-keygen-git-hash-plugin/src/commit-explorer.ts:189-190 | a found hash is one of the candidates |
| `AncestorSearch.FindBaseSpec` | packages/reg-keygen-git-hash-plugin/src/commit-explorer.ts:178-191 | nothing is found exactly when no candidate's chain meets the branch hash or loops; otherwise the first candidate whose chain does either decides: it is found when its chain meets the branch hash, and the search never returns when the chain loops |
| `AncestorSearch.FirstSettledUnique` | packages/reg-keygen-git-hash-plugin/src/commit-explorer.ts:189 | only one candidate is the first whose traversal settles |
| `AncestorSearch.KeepFirstParent` | packages/reg-keygen-git-hash-plugin/src/commit-explorer.ts:183 | a cut-down node is the node's first two entries, or all of them when it has fewer |
| `AncestorSearch.FindNodeKeepFirstParent` | packages/reg-keygen-git-hash-plugin/src/commit-explorer.ts:67-70 | in a graph whose nodes are cut down, `findParentNode` finds the cut-down node it found before |
| `AncestorSearch.FirstParentKeepFirstParent` | packages/reg-keygen-git-hash-plugin/src/commit-explorer.ts:181-186 | cutting nodes down leaves every first parent as it was |
| `AncestorSearch.TraverseSameParents` | packages/reg-keygen-git-hash-plugin/src/commit-explorer.ts:179-188 | two graphs with the same first parents give the same traversals |
| `AncestorSearch.TraverseKeepFirstParent` | packages/reg-keygen-git-hash-plugin/src/commit-explorer.ts:183-187 | a traversal never looks past the first parent: cutting every node down changes no result |
| `AncestorSearch.FindBaseKeepFirstParent` | packages/reg-keygen-git-hash-plugin/src/commit-explorer.ts:178-191 | the base commit depends only on each commit's first parent |
| `AncestorSearch.LinearHistoryFindsFirstCandidate` | packages/reg-keygen-git-hash-plugin/src/commit-explorer.ts:178-191 | on `c3 -> c2 -> c1` with candidates `c3, c2` and branch hash `c1`, the result is `c3` |
| `BaseCommit.BaseCommitHash` | packages/reg-keygen-git-hash-plugin/src/commit-explorer.ts:165-176 | `DetachedHead` exactly for a detached label; `NoCommits` exactly when, past that, the graph has no node; `NoBranches` exactly when, past both, no branch is listed; a returned hash is never empty; the memo keeps its old entries |
| `BaseCommit.FromBranch` | packages/reg-keygen-git-hash-plugin/src/commit-explorer.ts:167-176 | once a branch name is known, `DetachedHead` is never thrown; `NoCommits` exactly for a graph without nodes; `NoBranches` exactly when, past that, no branch is listed; a returned hash is never empty; the memo keeps its old entries |
| `BaseCommit.Resolve` | packages/reg-keygen-git-hash-plugin/src/commit-explorer.ts:169-176 | an error thrown by `getBranchHash` passes through; an undefined or empty branch hash gives `null`; past that, the only error is `EndlessAncestry`; a returned hash is never empty |
| `BaseCommit.Settle` | packages/reg-keygen-git-hash-plugin/src/commit-explorer.ts:172-175 | the only error is a looping chain, and an empty `rev-parse` answer becomes `null` |
| `BaseCommit.FullHash` | packages/reg-keygen-git-hash-plugin/src/commit-explorer.ts:173-175 | an empty base gives `null`; otherwise the `rev-parse` answer with its first line break removed, `null` when that is empty |
| `BaseCommit.BaseCommitUsesOracle` | packages/reg-keygen-git-hash-plugin/src/commit-explorer.ts:165-172 | with a memo that agrees with git, the pipeline searches the reference candidates |
| `BaseCommit.SettleSearch` | packages/reg-keygen-git-hash-plugin/src/commit-explorer.ts:172-175 | the error is raised exactly when the first settling chain loops; `null` comes back when no chain settles; when the first settling chain meets the branch hash, the answer is that candidate's `rev-parse`, or `null` when the candidate or its `rev-parse` is empty |
| `BaseCommit.BranchHashFromEarliest` | packages/reg-keygen-git-hash-plugin/src/commit-explorer.ts:136-146 | the comparison answer comes from the earliest record, first listed among equals: `undefined` without a hash, otherwise seven characters of its trimmed parent |
| `BaseCommit.BaseCommitOutcome` | packages/reg-keygen-git-hash-plugin/src/commit-explorer.ts:165-191 | with an accepted name, a non-empty graph and a memo that agrees with git: no hash or an empty parent on the earliest record gives `null`; otherwise the search from that parent over git's own candidates gives `null` when no chain settles, the first settling candidate's `rev-parse` when its chain meets the branch hash, and never returns when it loops |
| `BaseCommit.DetachedHeadStops` | packages/reg-keygen-git-hash-plugin/src/commit-explorer.ts:166 | a `(HEAD detached...` label stops the run with `DetachedHead` before anything else is read, and leaves the memo as it was |

## Left out

- The git subprocess (`GitCmdClient`) is not part of this model. Its answers are the oracle fields of `GitOracle.Client`, taken as given.
- Dates are the oracle `dateOf`, a valid JavaScript time. An unparsable date gives `NaN` in the source. That makes the sort comparator inconsistent and the order implementation-defined, so it is left out.
- The comparator subtracts two times in floating point. For valid times and the sentinel the difference keeps its sign, so the model compares the integers.
- `console.log` calls are output only. The debug print at line 143 is kept for its one effect: it reads `branch.hash`, which fails on an empty list.
- `getCurrentCommitHash` (lines 45-51) is not called by `getBaseCommitHash` and is left out.
- The commented-out `getParentHashes`, `findChildren` and `isBranchHash` are dead code and are left out.
- The `candidateHashes` parameter of `getBranchHash` is never read, so `ComparisonBranch.BranchHash` has no such parameter.
- The memo is a plain object in the source. A hash named after an inherited property (`constructor`, `__proto__`) would be found there before any lookup. The model's `map` has no such keys, and git hashes are hexadecimal.
- JavaScript strings are UTF-16. The model's strings are sequences of Unicode scalar values, so `slice(0, 7)` counts differently on characters outside the Basic Multilingual Plane. The one place where this decides a result, the `.` of the pattern at line 150, is modelled: such a character does not match there.
- The source's call stack is finite. A very long acyclic history could overflow it, and the model does not capture that. `EndlessAncestry` stands only for a first-parent chain that loops.
- `ComparisonBranch.SortByTime`: its contract states sortedness and permutation. Stability is proved only as far as the result depends on it: the head is the first listed of the earliest records (`SortHeadIsFirstMinimum`). Full stability is not stated.
- `BranchMembership.ParseContained`: its contract states only the bound of one name per line, because richer properties in its contract made unrelated proofs too costly. That the names are trimmed is the lemma `ParsedNamesTrimmed`, and the listing round trip is `ParseListing`.
- `JsText.RemoveFirst`: its contract states only the length bound. What it removes is the lemma `JsText.RemoveFirstSpec`.
