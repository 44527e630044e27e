/**
 * `getBaseCommitHash`: the whole pipeline, from git's answers to the base commit's full
 * hash, or `null` when some stage finds nothing.
 */
module BaseCommit {

  import opened Outcome
  import opened JsText
  import opened GitOracle
  import opened CurrentBranch
  import opened BranchMembership
  import CommitGraph
  import Candidates
  import ComparisonBranch
  import AncestorSearch

  /** The value `getBaseCommitHash` returns or the error it throws, and the memo the explorer keeps afterwards. */
  datatype Answer = Answer(base: Result<Option<string>, ExplorerError>, cache: Cache)

  /** The current branch name, once the detached labels are refused. */
  function CurrentName(git: Client): string
  {
    RemoveFirst(git.currentName, '\n')
  }

  /**
   * `getBaseCommitHash` on an explorer whose memo is `cache` (empty for a new explorer).
   * `dateOf` is `new Date(...).getTime()`.
   */
  function BaseCommitHash(git: Client, dateOf: string -> Time, cache: Cache): (a: Answer)
    ensures a.base.Success? && a.base.value.Some? ==> a.base.value.value != ""
    ensures a.base == Failure(DetachedHead) <==> IsDetachedLabel(CurrentName(git))
    ensures a.base == Failure(NoCommits) <==>
              !IsDetachedLabel(CurrentName(git)) && CommitGraph.ParseGraph(git.logGraph) == []
    ensures a.base == Failure(NoBranches) <==>
              && !IsDetachedLabel(CurrentName(git))
              && CommitGraph.ParseGraph(git.logGraph) != []
              && ComparisonBranch.ListedBranches(git.branches, CurrentName(git)) == []
    ensures Extends(cache, a.cache)
  {
    match CurrentBranchName(git.currentName)
    case Failure(e) => Answer(Failure(e), cache)
    case Success(branchName) => FromBranch(git, dateOf, cache, branchName)
  }

  /** The stages after `getCurrentBranchName`, on the branch name it returned. */
  function FromBranch(git: Client, dateOf: string -> Time, cache: Cache, branchName: string): (a: Answer)
    ensures a.base.Success? && a.base.value.Some? ==> a.base.value.value != ""
    ensures a.base != Failure(DetachedHead)
    ensures a.base == Failure(NoCommits) <==> CommitGraph.ParseGraph(git.logGraph) == []
    ensures a.base == Failure(NoBranches) <==>
              CommitGraph.ParseGraph(git.logGraph) != [] && ComparisonBranch.ListedBranches(git.branches, branchName) == []
    ensures Extends(cache, a.cache)
  {
    var nodes := CommitGraph.ParseGraph(git.logGraph);
    if nodes == [] then Answer(Failure(NoCommits), cache)
    else
      var selected := Candidates.CandidateHashes(git.containedBranches, cache, nodes, branchName);
      var branchHash := ComparisonBranch.BranchHash(git, dateOf, branchName);
      Answer(Resolve(git.revParse, nodes, selected.0, branchHash), selected.1)
  }

  /**
   * The stages after the candidates, given what `getBranchHash` returned or threw: an
   * undefined or empty branch hash gives `null`, otherwise the search and `rev-parse`.
   */
  function Resolve(revParse: string -> string, nodes: seq<CommitGraph.CommitNode>, candidates: seq<string>,
                   branchHash: Result<Option<string>, ExplorerError>)
    : (r: Result<Option<string>, ExplorerError>)
    ensures branchHash.Failure? ==> r == branchHash
    ensures branchHash in {Success(None), Success(Some(""))} ==> r == Success(None)
    ensures branchHash.Success? && r.Failure? ==> r.error == EndlessAncestry
    ensures r.Success? && r.value.Some? ==> r.value.value != ""
  {
    match branchHash
    case Failure(e) => Failure(e)
    case Success(hash) =>
      if hash.None? || hash.value == "" then Success(None)
      else Settle(revParse, nodes, candidates, hash.value)
  }

  /** `findBaseCommitHash` and the `rev-parse` of what it finds; an empty answer becomes `null`. */
  function Settle(revParse: string -> string, nodes: seq<CommitGraph.CommitNode>, candidates: seq<string>, branchHash: string)
    : (r: Result<Option<string>, ExplorerError>)
    ensures r.Success? && r.value.Some? ==> r.value.value != ""
    ensures r.Failure? ==> r.error == EndlessAncestry
  {
    match AncestorSearch.FindBase(nodes, candidates, branchHash)
    case Diverges => Failure(EndlessAncestry)
    case NotFound => Success(None)
    case Found(base) => FullHash(revParse, base)
  }

  /** `if (!baseHash) return null`, then `rev-parse` with its first line break removed, `null` when empty. */
  function FullHash(revParse: string -> string, base: string): (r: Result<Option<string>, ExplorerError>)
    ensures r.Success?
    ensures r.value.Some? ==> r.value.value != ""
  {
    if base == "" then Success(None)
    else
      var full := RemoveFirst(revParse(base), '\n');
      if full == "" then Success(None) else Success(Some(full))
  }

  /** The candidates by the oracle's own answers, as a faithful memo yields them. */
  function CandidatesByOracle(git: Client, nodes: seq<CommitGraph.CommitNode>, branchName: string): seq<string>
    requires |nodes| > 0
    requires forall i :: 0 <= i < |nodes| ==> nodes[i] != []
  {
    var firstNames := ParseContained(git.containedBranches(nodes[0][0]));
    Candidates.CandidatesSpec(git.containedBranches, CommitGraph.Heads(nodes), branchName,
                              Candidates.MergedBranches(firstNames, branchName))
  }

  /** With a faithful memo, the explorer searches the candidates by the oracle's own answers. */
  lemma BaseCommitUsesOracle(git: Client, dateOf: string -> Time, cache: Cache)
    requires Consistent(cache, git.containedBranches)
    requires !IsDetachedLabel(CurrentName(git))
    requires CommitGraph.ParseGraph(git.logGraph) != []
    ensures var nodes := CommitGraph.ParseGraph(git.logGraph);
            BaseCommitHash(git, dateOf, cache).base
            == Resolve(git.revParse, nodes, CandidatesByOracle(git, nodes, CurrentName(git)),
                       ComparisonBranch.BranchHash(git, dateOf, CurrentName(git)))
  {
    Candidates.CandidateHashesMatchSpec(git.containedBranches, cache, CommitGraph.ParseGraph(git.logGraph), CurrentName(git));
  }

  /**
   * The base commit is the `rev-parse` of the first candidate whose first-parent chain
   * meets the branch hash, unless an earlier chain or that one loops, which never returns;
   * nothing is found when no chain does either. When the first settling chain meets the
   * branch hash, the answer is that candidate's `rev-parse`, or `null` when the candidate
   * or its `rev-parse` is empty.
   */
  lemma SettleSearch(revParse: string -> string, nodes: seq<CommitGraph.CommitNode>, cands: seq<string>, branchHash: string)
    ensures var r := Settle(revParse, nodes, cands, branchHash);
            && (r.Failure? <==>
                  exists i :: AncestorSearch.IsFirstSettled(nodes, cands, branchHash, i)
                              && !AncestorSearch.Reaches(nodes, cands[i], branchHash))
            && ((forall i :: 0 <= i < |cands| ==> !AncestorSearch.Settles(nodes, cands[i], branchHash)) ==>
                  r == Success(None))
            && (r.Success? && r.value.Some? ==>
                  exists i :: AncestorSearch.IsFirstSettled(nodes, cands, branchHash, i)
                              && AncestorSearch.Reaches(nodes, cands[i], branchHash)
                              && r.value.value == RemoveFirst(revParse(cands[i]), '\n'))
            && (forall i :: AncestorSearch.IsFirstSettled(nodes, cands, branchHash, i)
                            && AncestorSearch.Reaches(nodes, cands[i], branchHash) ==>
                  r == FullHash(revParse, cands[i]))
  {
    AncestorSearch.FindBaseSpec(nodes, cands, branchHash);
    var found := AncestorSearch.FindBase(nodes, cands, branchHash);
    if found != AncestorSearch.NotFound {
      var i :| AncestorSearch.IsFirstSettled(nodes, cands, branchHash, i)
               && found == (if AncestorSearch.Reaches(nodes, cands[i], branchHash) then AncestorSearch.Found(cands[i]) else AncestorSearch.Diverges);
      forall j | AncestorSearch.IsFirstSettled(nodes, cands, branchHash, j)
        ensures j == i
      {
        AncestorSearch.FirstSettledUnique(nodes, cands, branchHash, i, j);
      }
    } else {
      forall j | AncestorSearch.IsFirstSettled(nodes, cands, branchHash, j)
        ensures false
      {
      }
    }
  }

  /**
   * The whole run, once the branch name is accepted and the graph is not empty, with a
   * memo that agrees with git: record `i` is the earliest comparison record, first listed
   * among equals. Without a hash, or with an empty parent, the answer is `null`. Otherwise
   * the search runs from the parent's seven characters over git's own candidates: `null`
   * when no chain settles, and when the first settling chain meets the branch hash, that
   * candidate's `rev-parse`; when it loops, the search never returns.
   */
  lemma BaseCommitOutcome(git: Client, dateOf: string -> Time, cache: Cache, i: int)
    requires Consistent(cache, git.containedBranches)
    requires !IsDetachedLabel(CurrentName(git))
    requires CommitGraph.ParseGraph(git.logGraph) != []
    requires ComparisonBranch.IsFirstMinimum(ComparisonBranch.Entries(git, dateOf, CurrentName(git)), i)
    ensures var nodes := CommitGraph.ParseGraph(git.logGraph);
            var cands := CandidatesByOracle(git, nodes, CurrentName(git));
            var e := ComparisonBranch.Entries(git, dateOf, CurrentName(git))[i];
            var bh := Take(Trim(git.logParent(e.hash)), 7);
            var r := BaseCommitHash(git, dateOf, cache).base;
            && (e.hash == "" || bh == "" ==> r == Success(None))
            && (e.hash != "" && bh != "" ==>
                  && ((forall j :: 0 <= j < |cands| ==> !AncestorSearch.Settles(nodes, cands[j], bh)) ==> r == Success(None))
                  && (forall j :: AncestorSearch.IsFirstSettled(nodes, cands, bh, j) ==>
                        r == if AncestorSearch.Reaches(nodes, cands[j], bh) then FullHash(git.revParse, cands[j])
                             else Failure(EndlessAncestry)))
  {
    var name := CurrentName(git);
    var nodes := CommitGraph.ParseGraph(git.logGraph);
    var cands := CandidatesByOracle(git, nodes, name);
    var es := ComparisonBranch.Entries(git, dateOf, name);
    BaseCommitUsesOracle(git, dateOf, cache);
    BranchHashFromEarliest(git, dateOf, name, i);
    var bh := Take(Trim(git.logParent(es[i].hash)), 7);
    if es[i].hash != "" && bh != "" {
      SettleSearch(git.revParse, nodes, cands, bh);
    }
  }

  /** The comparison answer comes from the earliest record, first listed among equals. */
  lemma BranchHashFromEarliest(git: Client, dateOf: string -> Time, branchName: string, i: int)
    requires ComparisonBranch.IsFirstMinimum(ComparisonBranch.Entries(git, dateOf, branchName), i)
    ensures var e := ComparisonBranch.Entries(git, dateOf, branchName)[i];
            ComparisonBranch.BranchHash(git, dateOf, branchName)
            == if e.hash == "" then Success(None) else Success(Some(Take(Trim(git.logParent(e.hash)), 7)))
  {
    var es := ComparisonBranch.Entries(git, dateOf, branchName);
    ComparisonBranch.BranchHashChoice(git, dateOf, branchName);
    if es[i].hash == "" {
      ComparisonBranch.EarliestWithoutHash(es, i);
    } else {
      var r := ComparisonBranch.BranchHash(git, dateOf, branchName);
      assert r != Success(None);
      var k :| ComparisonBranch.IsFirstMinimum(es, k) && es[k].hash != ""
               && r.value.value == Take(Trim(git.logParent(es[k].hash)), 7);
      ComparisonBranch.FirstMinimumUnique(es, i, k);
    }
  }

  /** A detached HEAD stops the explorer before it reads the graph, whatever the other answers. */
  lemma DetachedHeadStops(git: Client, dateOf: string -> Time, cache: Cache, rest: string)
    requires git.currentName == "(HEAD detached" + rest + "\n"
    requires '\n' !in rest
    ensures BaseCommitHash(git, dateOf, cache) == Answer(Failure(DetachedHead), cache)
  {
    DetachedHeadRefused(rest);
  }
}
