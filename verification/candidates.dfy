/**
 * `getCandidateHashes`: the commits of the current branch that some other branch
 * also contains, one whose name does not end with the current name and that is not
 * in `mergedBranches` (the branches containing the newest commit, less two exclusions).
 */
module Candidates {

  import opened JsText
  import opened BranchMembership
  import CommitGraph
  import Seqs

  /** The characters a regular-expression `.` does not match. */
  predicate IsLineTerminator(c: char)
  {
    c == '\n' || c == '\r' || c == '\U{2028}' || c == '\U{2029}'
  }

  /**
   * `/^this._branchName$/.test(b)`. The pattern is a template literal without
   * `${}`, so it never sees the branch name: it matches `this`, any one
   * character except a line terminator, then `_branchName`. Without the `u` flag
   * `.` matches one UTF-16 code unit, so a character outside the Basic
   * Multilingual Plane (two code units) cannot stand in the middle.
   */
  function MatchesFixedPattern(b: string): (m: bool)
    ensures m ==> |b| == 16 && b == "this" + [b[4]] + "_branchName" && !IsLineTerminator(b[4]) && IsOneCodeUnit(b[4])
  {
    |b| == 16 && b[..4] == "this" && !IsLineTerminator(b[4]) && IsOneCodeUnit(b[4]) && b[5..] == "_branchName"
  }

  /** The character is a single UTF-16 code unit: it lies in the Basic Multilingual Plane. */
  predicate IsOneCodeUnit(c: char)
  {
    c as int < 0x1_0000
  }

  /**
   * Every `this?_branchName` whose middle is one code unit and no line terminator
   * matches, the literal `this._branchName` among them; a line break or an emoji
   * in the middle does not.
   */
  lemma FixedPatternWildcard(c: char)
    requires !IsLineTerminator(c) && IsOneCodeUnit(c)
    ensures MatchesFixedPattern("this" + [c] + "_branchName")
    ensures MatchesFixedPattern("this._branchName")
    ensures !MatchesFixedPattern("this\n_branchName") && !MatchesFixedPattern("this\U{1F600}_branchName")
  {
    var b := "this" + [c] + "_branchName";
    assert b[..4] == "this" && b[4] == c && b[5..] == "_branchName";
    var lit := "this._branchName";
    assert lit[..4] == "this" && lit[4] == '.' && lit[5..] == "_branchName";
    var emoji := "this\U{1F600}_branchName";
    assert emoji[4] == '\U{1F600}';
  }

  /** Test kept by the `mergedBranches` filter: not a `.../<current>` name and not the fixed pattern. */
  predicate StaysMerged(branchName: string, b: string)
  {
    !EndsWith(b, "/" + branchName) && !MatchesFixedPattern(b)
  }

  /** `mergedBranches`: the first commit's branches, minus `.../<current>` names and the fixed pattern. */
  function MergedBranches(firstNames: seq<string>, branchName: string): (merged: seq<string>)
    ensures forall b :: b in merged <==> b in firstNames && StaysMerged(branchName, b)
  {
    if firstNames == [] then []
    else if StaysMerged(branchName, firstNames[0]) then [firstNames[0]] + MergedBranches(firstNames[1..], branchName)
    else MergedBranches(firstNames[1..], branchName)
  }

  /** The `others` test: `!(b.endsWith(name) || (merged.length && merged.some(c => b === c)))`. */
  predicate IsOther(branchName: string, merged: seq<string>, b: string)
  {
    !(EndsWith(b, branchName) || (|merged| > 0 && b in merged))
  }

  /** `others`: the commit's branches that pass the test, in order. */
  function Others(names: seq<string>, branchName: string, merged: seq<string>): (others: seq<string>)
    ensures |others| > 0 <==> exists b :: b in names && !EndsWith(b, branchName) && b !in merged
  {
    if names == [] then []
    else
      var rest := Others(names[1..], branchName, merged);
      assert forall b :: b in names <==> b == names[0] || b in names[1..];
      if IsOther(branchName, merged, names[0]) then [names[0]] + rest else rest
  }

  /**
   * The filter callback of `getCandidateHashes`: `hasCurrent && !!others.length`.
   * `hasCurrent` is `!!branches.find(...)`, so an empty current name found in the list is still falsy.
   */
  function Keep(names: seq<string>, branchName: string, merged: seq<string>): (keep: bool)
    ensures keep <==> IsCandidateFor(names, branchName, merged)
  {
    KeepIsCandidate(names, branchName, merged);
    branchName in names && branchName != "" && |Others(names, branchName, merged)| > 0
  }

  /**
   * A commit with these branch names is a candidate: the current branch holds it and
   * some other holder neither ends with the current name nor is in `mergedBranches`.
   */
  predicate IsCandidateFor(names: seq<string>, branchName: string, merged: seq<string>)
  {
    branchName in names && exists b :: b in names && !EndsWith(b, branchName) && b !in merged
  }

  /** The callback keeps a commit exactly when it is a candidate. */
  lemma KeepIsCandidate(names: seq<string>, branchName: string, merged: seq<string>)
    ensures (branchName in names && branchName != "" && |Others(names, branchName, merged)| > 0)
            <==> IsCandidateFor(names, branchName, merged)
  {
    if branchName == "" {
      forall b | b in names
        ensures EndsWith(b, branchName)
      {
        assert b[|b|..] == "";
      }
    }
  }

  /** The reference reading: the heads whose (oracle) branch names make them candidates, in order. */
  function CandidatesSpec(contained: string -> string, heads: seq<string>, branchName: string, merged: seq<string>): (cs: seq<string>)
    ensures Seqs.IsSubseq(cs, heads)
    ensures forall h :: h in cs <==> h in heads && IsCandidateFor(ParseContained(contained(h)), branchName, merged)
  {
    if heads == [] then []
    else
      var rest := CandidatesSpec(contained, heads[1..], branchName, merged);
      assert forall h :: h in heads <==> h == heads[0] || h in heads[1..];
      if IsCandidateFor(ParseContained(contained(heads[0])), branchName, merged) then [heads[0]] + rest
      else rest
  }

  /** The filter over the heads, threading the memo through each `getBranchNames` call. */
  function SelectCandidates(contained: string -> string, cache: Cache, heads: seq<string>, branchName: string, merged: seq<string>): (out: (seq<string>, Cache))
    ensures Seqs.IsSubseq(out.0, heads)
    ensures Extends(cache, out.1)
    ensures forall i :: 0 <= i < |heads| ==> heads[i] in out.1
    decreases |heads|
  {
    if heads == [] then ([], cache)
    else
      var first := BranchNames(contained, cache, heads[0]);
      var keep := Keep(first.0, branchName, merged);
      var rest := SelectCandidates(contained, first.1, heads[1..], branchName, merged);
      assert forall i :: 1 <= i < |heads| ==> heads[i] == heads[1..][i - 1];
      (if keep then [heads[0]] + rest.0 else rest.0, rest.1)
  }

  /** Each selected hash has its names in the memo, and those names pass the callback. */
  predicate AllQualify(out: (seq<string>, Cache), branchName: string, merged: seq<string>)
  {
    forall i :: 0 <= i < |out.0| ==> out.0[i] in out.1 && Keep(out.1[out.0[i]], branchName, merged)
  }

  /** Every selected hash is a candidate by the names the final memo holds for it. */
  lemma {:induction false} SelectedAreCandidates(contained: string -> string, cache: Cache, heads: seq<string>, branchName: string, merged: seq<string>)
    ensures AllQualify(SelectCandidates(contained, cache, heads, branchName, merged), branchName, merged)
    decreases |heads|
  {
    if heads != [] {
      var first := BranchNames(contained, cache, heads[0]);
      var rest := SelectCandidates(contained, first.1, heads[1..], branchName, merged);
      SelectedAreCandidates(contained, first.1, heads[1..], branchName, merged);
      assert heads[0] in rest.1 && rest.1[heads[0]] == first.0;
      var out := SelectCandidates(contained, cache, heads, branchName, merged);
      assert out.1 == rest.1;
      if Keep(first.0, branchName, merged) {
        assert out.0 == [heads[0]] + rest.0;
        forall i | 0 <= i < |out.0|
          ensures out.0[i] in out.1 && Keep(out.1[out.0[i]], branchName, merged)
        {
          if i > 0 {
            assert out.0[i] == rest.0[i - 1];
          }
        }
      } else {
        assert out.0 == rest.0;
      }
    }
  }

  /** With a faithful memo, threading it changes nothing: the selection is the reference reading and the memo stays faithful. */
  lemma {:induction false} SelectMatchesSpec(contained: string -> string, cache: Cache, heads: seq<string>, branchName: string, merged: seq<string>)
    requires Consistent(cache, contained)
    ensures var out := SelectCandidates(contained, cache, heads, branchName, merged);
            Consistent(out.1, contained) && out.0 == CandidatesSpec(contained, heads, branchName, merged)
    decreases |heads|
  {
    if heads != [] {
      var first := BranchNames(contained, cache, heads[0]);
      LookupFaithful(contained, cache, heads[0]);
      KeepIsCandidate(first.0, branchName, merged);
      SelectMatchesSpec(contained, first.1, heads[1..], branchName, merged);
    }
  }

  /** `getCandidateHashes` on a parsed graph; the source reads `nodes[0][0]`, so the graph must have a commit. */
  function CandidateHashes(contained: string -> string, cache: Cache, nodes: seq<CommitGraph.CommitNode>, branchName: string): (out: (seq<string>, Cache))
    requires |nodes| > 0
    requires forall i :: 0 <= i < |nodes| ==> nodes[i] != []
    ensures Seqs.IsSubseq(out.0, CommitGraph.Heads(nodes))
    ensures Extends(cache, out.1) && nodes[0][0] in out.1
  {
    var first := BranchNames(contained, cache, nodes[0][0]);
    var merged := MergedBranches(first.0, branchName);
    SelectCandidates(contained, first.1, CommitGraph.Heads(nodes), branchName, merged)
  }

  /** Whatever the memo held, each selected hash is a candidate by the names the final memo holds for it. */
  lemma CandidatesQualify(contained: string -> string, cache: Cache, nodes: seq<CommitGraph.CommitNode>, branchName: string)
    requires |nodes| > 0
    requires forall i :: 0 <= i < |nodes| ==> nodes[i] != []
    ensures var out := CandidateHashes(contained, cache, nodes, branchName);
            forall i :: 0 <= i < |out.0| ==>
              (out.0[i] in out.1
               && IsCandidateFor(out.1[out.0[i]], branchName, MergedBranches(out.1[nodes[0][0]], branchName)))
  {
    var first := BranchNames(contained, cache, nodes[0][0]);
    var merged := MergedBranches(first.0, branchName);
    var out := SelectCandidates(contained, first.1, CommitGraph.Heads(nodes), branchName, merged);
    SelectedAreCandidates(contained, first.1, CommitGraph.Heads(nodes), branchName, merged);
    assert AllQualify(out, branchName, merged);
    assert out.1[nodes[0][0]] == first.0;
    forall i | 0 <= i < |out.0|
      ensures IsCandidateFor(out.1[out.0[i]], branchName, merged)
    {
      KeepIsCandidate(out.1[out.0[i]], branchName, merged);
    }
  }

  /** With a faithful memo, `getCandidateHashes` is the reference reading over the oracle's answers. */
  lemma CandidateHashesMatchSpec(contained: string -> string, cache: Cache, nodes: seq<CommitGraph.CommitNode>, branchName: string)
    requires |nodes| > 0
    requires forall i :: 0 <= i < |nodes| ==> nodes[i] != []
    requires Consistent(cache, contained)
    ensures var out := CandidateHashes(contained, cache, nodes, branchName);
            && Consistent(out.1, contained)
            && out.0 == CandidatesSpec(contained, CommitGraph.Heads(nodes), branchName,
                                       MergedBranches(ParseContained(contained(nodes[0][0])), branchName))
  {
    var first := BranchNames(contained, cache, nodes[0][0]);
    LookupFaithful(contained, cache, nodes[0][0]);
    SelectMatchesSpec(contained, first.1, CommitGraph.Heads(nodes), branchName, MergedBranches(first.0, branchName));
  }

  /** A commit all of whose branches end with the current name is never a candidate. */
  lemma OwnBranchesOnly(names: seq<string>, branchName: string, merged: seq<string>)
    requires forall i :: 0 <= i < |names| ==> EndsWith(names[i], branchName)
    ensures !IsCandidateFor(names, branchName, merged)
  {
  }

  /**
   * The newest commit qualifies only through a branch matching the fixed pattern:
   * its other names either end with `/<current>` or stay in `mergedBranches`.
   */
  lemma FirstCommitCandidacy(names: seq<string>, branchName: string)
    ensures IsCandidateFor(names, branchName, MergedBranches(names, branchName)) <==>
              branchName in names && exists b :: b in names && MatchesFixedPattern(b) && !EndsWith(b, branchName)
  {
    var merged := MergedBranches(names, branchName);
    forall b | b in names && b !in merged
      ensures EndsWith(b, "/" + branchName) || MatchesFixedPattern(b)
    {
      var i :| 0 <= i < |names| && names[i] == b;
    }
    forall b | b in names && EndsWith(b, "/" + branchName)
      ensures EndsWith(b, branchName)
    {
      EndsWithSuffix(b, "/", branchName);
    }
    forall b | b in names && MatchesFixedPattern(b)
      ensures b !in merged
    {
    }
  }

  /** With a faithful memo, the newest commit is a candidate exactly in that case. */
  lemma NewestCommitCandidate(contained: string -> string, cache: Cache, nodes: seq<CommitGraph.CommitNode>, branchName: string)
    requires |nodes| > 0
    requires forall i :: 0 <= i < |nodes| ==> nodes[i] != []
    requires Consistent(cache, contained)
    ensures var names := ParseContained(contained(nodes[0][0]));
            nodes[0][0] in CandidateHashes(contained, cache, nodes, branchName).0 <==>
              branchName in names && exists b :: b in names && MatchesFixedPattern(b) && !EndsWith(b, branchName)
  {
    var names := ParseContained(contained(nodes[0][0]));
    FirstCommitCandidacy(names, branchName);
    CandidateHashesMatchSpec(contained, cache, nodes, branchName);
    assert CommitGraph.Heads(nodes)[0] == nodes[0][0];
  }
}
