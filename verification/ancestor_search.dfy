/**
 * `findBaseCommitHash`: the first candidate whose chain of first parents meets the
 * branch hash. The source recurses without bound, so a chain that loops without
 * meeting the branch hash never returns; here that outcome is `Diverges`.
 */
module AncestorSearch {

  import opened Outcome
  import opened CommitGraph
  import Seqs

  /** Where `traverseLog` goes next from `hash`: the first parent of the first node headed by `hash`. */
  function FirstParent(nodes: seq<CommitNode>, hash: string): (p: Option<string>)
    ensures p.Some? ==> hash in HeadSet(nodes)
  {
    var hit := FindNode(nodes, hash);
    if hit.None? || |hit.value| < 2 then None
    else
      FoundInHeadSet(nodes, hash);
      Some(hit.value[1])
  }

  /** The hash `k` first-parent steps above `hash`, while the chain lasts. */
  function Walk(nodes: seq<CommitNode>, hash: string, k: nat): Option<string>
    decreases k
  {
    if k == 0 then Some(hash)
    else
      match FirstParent(nodes, hash)
      case None => None
      case Some(p) => Walk(nodes, p, k - 1)
  }

  /** The first-parent chain from `hash` meets `target`. */
  ghost predicate Reaches(nodes: seq<CommitNode>, hash: string, target: string)
  {
    exists k: nat :: Walk(nodes, hash, k) == Some(target)
  }

  /** The first-parent chain from `hash` goes on forever and never meets `target`. */
  ghost predicate Endless(nodes: seq<CommitNode>, hash: string, target: string)
  {
    forall k: nat :: Walk(nodes, hash, k).Some? && Walk(nodes, hash, k) != Some(target)
  }

  /** How a call of `traverseLog` ends: `true`, a falsy value, or still recursing when the fuel is spent. */
  datatype Verdict = Reached | Stuck | Exhausted

  /**
   * `traverseLog(hash)` allowed `fuel` further recursive calls. The loop over the
   * parents returns in its first round, so only the first parent is ever followed;
   * the `target === branchHash` test inside it repeats a test already failed.
   */
  function TraverseLog(nodes: seq<CommitNode>, hash: string, branchHash: string, fuel: nat): (v: Verdict)
    ensures hash == branchHash ==> v == Reached
    ensures v != Stuck && hash != branchHash ==> FirstParent(nodes, hash).Some?
    decreases fuel
  {
    if hash == branchHash then Reached
    else
      match FindNode(nodes, hash)
      case None => Stuck
      case Some(hits) =>
        if hits == [] then Stuck
        else if |hits| == 1 then Stuck
        else if hits[0] == branchHash then Reached
        else if fuel == 0 then Exhausted
        else TraverseLog(nodes, hits[1], branchHash, fuel - 1)
  }

  /** One call of `traverseLog` in terms of the first parent: the in-loop test never fires. */
  lemma TraverseStep(nodes: seq<CommitNode>, hash: string, branchHash: string, fuel: nat)
    ensures TraverseLog(nodes, hash, branchHash, fuel) ==
              if hash == branchHash then Reached
              else match FirstParent(nodes, hash)
                case None => Stuck
                case Some(p) => if fuel == 0 then Exhausted else TraverseLog(nodes, p, branchHash, fuel - 1)
  {
    var hit := FindNode(nodes, hash);
    if hit.Some? {
      var i :| IsFirstWithHead(nodes, hash, i) && hit.value == nodes[i];
    }
  }

  /** Walking `a + b` steps is walking `a` steps and then `b` more. */
  lemma {:induction false} WalkAdd(nodes: seq<CommitNode>, hash: string, a: nat, b: nat)
    ensures Walk(nodes, hash, a + b) ==
              if Walk(nodes, hash, a).None? then None else Walk(nodes, Walk(nodes, hash, a).value, b)
    decreases a
  {
    if a > 0 {
      match FirstParent(nodes, hash)
      case None =>
      case Some(p) =>
        WalkAdd(nodes, p, a - 1, b);
        assert a + b - 1 == (a - 1) + b;
    }
  }

  /** A `Reached` verdict means the chain meets the branch hash. */
  lemma {:induction false} ReachedMeansReaches(nodes: seq<CommitNode>, hash: string, branchHash: string, fuel: nat)
    requires TraverseLog(nodes, hash, branchHash, fuel) == Reached
    ensures Reaches(nodes, hash, branchHash)
    decreases fuel
  {
    TraverseStep(nodes, hash, branchHash, fuel);
    if hash == branchHash {
      assert Walk(nodes, hash, 0) == Some(branchHash);
    } else {
      var p := FirstParent(nodes, hash).value;
      ReachedMeansReaches(nodes, p, branchHash, fuel - 1);
      var k: nat :| Walk(nodes, p, k) == Some(branchHash);
      assert Walk(nodes, hash, k + 1) == Some(branchHash);
    }
  }

  /** A `Stuck` verdict means the chain ends without meeting the branch hash. */
  lemma {:induction false} StuckMeansEnds(nodes: seq<CommitNode>, hash: string, branchHash: string, fuel: nat)
    requires TraverseLog(nodes, hash, branchHash, fuel) == Stuck
    ensures !Reaches(nodes, hash, branchHash) && !Endless(nodes, hash, branchHash)
    decreases fuel
  {
    TraverseStep(nodes, hash, branchHash, fuel);
    match FirstParent(nodes, hash)
    case None =>
      assert Walk(nodes, hash, 1) == None;
      forall k: nat
        ensures Walk(nodes, hash, k) != Some(branchHash)
      {
        if k > 0 {
          assert Walk(nodes, hash, k) == None;
        }
      }
    case Some(p) =>
      StuckMeansEnds(nodes, p, branchHash, fuel - 1);
      var m: nat :| !(Walk(nodes, p, m).Some? && Walk(nodes, p, m) != Some(branchHash));
      assert Walk(nodes, hash, m + 1) == Walk(nodes, p, m);
      forall k: nat
        ensures Walk(nodes, hash, k) != Some(branchHash)
      {
        if k > 0 {
          assert Walk(nodes, hash, k) == Walk(nodes, p, k - 1);
        }
      }
  }

  /** The first `fuel + 1` hashes of an exhausted traversal all exist, miss the branch hash and head nodes. */
  lemma {:induction false} ExhaustedPrefix(nodes: seq<CommitNode>, hash: string, branchHash: string, fuel: nat, k: nat)
    requires TraverseLog(nodes, hash, branchHash, fuel) == Exhausted
    requires k <= fuel
    ensures Walk(nodes, hash, k).Some? && Walk(nodes, hash, k) != Some(branchHash)
    ensures Walk(nodes, hash, k).value in HeadSet(nodes)
    decreases k
  {
    TraverseStep(nodes, hash, branchHash, fuel);
    var p := FirstParent(nodes, hash).value;
    if k > 0 {
      ExhaustedPrefix(nodes, p, branchHash, fuel - 1, k - 1);
      assert Walk(nodes, hash, k) == Walk(nodes, p, k - 1);
    }
  }

  /** Once a chain revisits a hash, every later step repeats an earlier one. */
  lemma {:induction false} WalkRecurs(nodes: seq<CommitNode>, hash: string, i: nat, j: nat, m: nat)
    requires i < j <= m
    requires Walk(nodes, hash, i).Some? && Walk(nodes, hash, i) == Walk(nodes, hash, j)
    ensures Walk(nodes, hash, m) == Walk(nodes, hash, m - (j - i))
  {
    WalkAdd(nodes, hash, j, m - j);
    WalkAdd(nodes, hash, i, m - j);
    assert j + (m - j) == m && i + (m - j) == m - (j - i);
  }

  /** Every hash of the chain is one of its first `fuel + 1`, once step `j <= fuel` revisits step `i`. */
  lemma {:induction false} WalkStaysInPrefix(nodes: seq<CommitNode>, hash: string, branchHash: string, fuel: nat, i: nat, j: nat, m: nat)
    requires TraverseLog(nodes, hash, branchHash, fuel) == Exhausted
    requires i < j <= fuel
    requires Walk(nodes, hash, i) == Walk(nodes, hash, j)
    ensures Walk(nodes, hash, m).Some? && Walk(nodes, hash, m) != Some(branchHash)
    decreases m
  {
    if m <= fuel {
      ExhaustedPrefix(nodes, hash, branchHash, fuel, m);
    } else {
      ExhaustedPrefix(nodes, hash, branchHash, fuel, i);
      WalkRecurs(nodes, hash, i, j, m);
      WalkStaysInPrefix(nodes, hash, branchHash, fuel, i, j, m - (j - i));
    }
  }

  /** With at least as much fuel as there are nodes, running out of fuel means the chain is endless. */
  lemma ExhaustedMeansEndless(nodes: seq<CommitNode>, hash: string, branchHash: string, fuel: nat)
    requires fuel >= |nodes|
    requires TraverseLog(nodes, hash, branchHash, fuel) == Exhausted
    ensures Endless(nodes, hash, branchHash)
  {
    var w := seq(fuel + 1, k requires 0 <= k <= fuel => Walk(nodes, hash, k).GetOr(""));
    forall k | 0 <= k < |w|
      ensures w[k] in HeadSet(nodes) && Walk(nodes, hash, k) == Some(w[k])
    {
      ExhaustedPrefix(nodes, hash, branchHash, fuel, k);
    }
    Seqs.Pigeonhole(w, HeadSet(nodes));
    var i, j :| 0 <= i < j < |w| && w[i] == w[j];
    forall m: nat
      ensures Walk(nodes, hash, m).Some? && Walk(nodes, hash, m) != Some(branchHash)
    {
      WalkStaysInPrefix(nodes, hash, branchHash, fuel, i, j, m);
    }
  }

  /**
   * With one call per node, the traversal decides the chain: `true` exactly when it meets
   * the branch hash, out of fuel exactly when it loops forever, falsy otherwise.
   */
  lemma TraverseDecides(nodes: seq<CommitNode>, hash: string, branchHash: string)
    ensures var v := TraverseLog(nodes, hash, branchHash, |nodes|);
            && (v == Reached <==> Reaches(nodes, hash, branchHash))
            && (v == Exhausted <==> Endless(nodes, hash, branchHash))
            && (v == Stuck <==> !Reaches(nodes, hash, branchHash) && !Endless(nodes, hash, branchHash))
  {
    var v := TraverseLog(nodes, hash, branchHash, |nodes|);
    match v
    case Reached =>
      ReachedMeansReaches(nodes, hash, branchHash, |nodes|);
      var k: nat :| Walk(nodes, hash, k) == Some(branchHash);
    case Stuck =>
      StuckMeansEnds(nodes, hash, branchHash, |nodes|);
    case Exhausted =>
      ExhaustedMeansEndless(nodes, hash, branchHash, |nodes|);
      assert Walk(nodes, hash, 0) != Some(branchHash);
  }

  /** How `findBaseCommitHash` ends. */
  datatype Search = Found(hash: string) | NotFound | Diverges

  /** `candidateHashes.find(hash => !!traverseLog(hash))`, each traversal allowed one call per node. */
  function FindBase(nodes: seq<CommitNode>, candidates: seq<string>, branchHash: string): (r: Search)
    ensures r.Found? ==> r.hash in candidates
  {
    if candidates == [] then NotFound
    else
      match TraverseLog(nodes, candidates[0], branchHash, |nodes|)
      case Reached => Found(candidates[0])
      case Stuck => FindBase(nodes, candidates[1..], branchHash)
      case Exhausted => Diverges
  }

  /** The source's traversal of `hash` returns `true` or never returns. */
  ghost predicate Settles(nodes: seq<CommitNode>, hash: string, branchHash: string)
  {
    Reaches(nodes, hash, branchHash) || Endless(nodes, hash, branchHash)
  }

  /** Candidate `i` is the first whose traversal settles. */
  ghost predicate IsFirstSettled(nodes: seq<CommitNode>, candidates: seq<string>, branchHash: string, i: int)
  {
    && 0 <= i < |candidates|
    && Settles(nodes, candidates[i], branchHash)
    && forall j :: 0 <= j < i ==> !Settles(nodes, candidates[j], branchHash)
  }

  /** At most one candidate is the first to settle. */
  lemma FirstSettledUnique(nodes: seq<CommitNode>, candidates: seq<string>, branchHash: string, i: int, j: int)
    requires IsFirstSettled(nodes, candidates, branchHash, i)
    requires IsFirstSettled(nodes, candidates, branchHash, j)
    ensures i == j
  {
  }

  /**
   * Nothing is found exactly when no candidate's chain meets the branch hash or loops;
   * otherwise the first candidate whose chain does either decides: found when it meets
   * the branch hash, divergent when it loops.
   */
  lemma {:induction false} FindBaseSpec(nodes: seq<CommitNode>, candidates: seq<string>, branchHash: string)
    ensures var r := FindBase(nodes, candidates, branchHash);
            && (r == NotFound <==> forall i :: 0 <= i < |candidates| ==> !Settles(nodes, candidates[i], branchHash))
            && (r != NotFound ==>
                  exists i :: IsFirstSettled(nodes, candidates, branchHash, i)
                              && r == (if Reaches(nodes, candidates[i], branchHash) then Found(candidates[i]) else Diverges))
  {
    if candidates != [] {
      var c := candidates[0];
      TraverseDecides(nodes, c, branchHash);
      assert forall i :: 1 <= i < |candidates| ==> candidates[i] == candidates[1..][i - 1];
      if Settles(nodes, c, branchHash) {
        assert IsFirstSettled(nodes, candidates, branchHash, 0);
      } else {
        FindBaseSpec(nodes, candidates[1..], branchHash);
        var r := FindBase(nodes, candidates[1..], branchHash);
        if r != NotFound {
          var i :| IsFirstSettled(nodes, candidates[1..], branchHash, i)
                   && r == (if Reaches(nodes, candidates[1..][i], branchHash) then Found(candidates[1..][i]) else Diverges);
          assert IsFirstSettled(nodes, candidates, branchHash, i + 1);
        }
      }
    }
  }

  /** A node cut down to its hash and first parent, the only entries the search reads. */
  function KeepFirstParent(n: CommitNode): (m: CommitNode)
    ensures |m| == if |n| < 2 then |n| else 2
    ensures m == n[..|m|]
  {
    if |n| <= 2 then n else n[..2]
  }

  /** Cutting every node down leaves the node found for each hash cut down the same way. */
  lemma {:induction false} FindNodeKeepFirstParent(nodes: seq<CommitNode>, hash: string)
    ensures FindNode(Seqs.Map(KeepFirstParent, nodes), hash) ==
              match FindNode(nodes, hash)
              case None => None
              case Some(n) => Some(KeepFirstParent(n))
  {
    var cut := Seqs.Map(KeepFirstParent, nodes);
    if nodes != [] {
      assert cut[1..] == Seqs.Map(KeepFirstParent, nodes[1..]);
      assert HasHead(cut[0], hash) <==> HasHead(nodes[0], hash);
      FindNodeKeepFirstParent(nodes[1..], hash);
    }
  }

  /** Cutting every node down leaves every first parent as it was. */
  lemma FirstParentKeepFirstParent(nodes: seq<CommitNode>, hash: string)
    ensures FirstParent(Seqs.Map(KeepFirstParent, nodes), hash) == FirstParent(nodes, hash)
  {
    FindNodeKeepFirstParent(nodes, hash);
  }

  /** Two graphs with the same first parents give the same traversals. */
  lemma {:induction false} TraverseSameParents(a: seq<CommitNode>, b: seq<CommitNode>, hash: string, branchHash: string, fuel: nat)
    requires forall h :: FirstParent(a, h) == FirstParent(b, h)
    ensures TraverseLog(a, hash, branchHash, fuel) == TraverseLog(b, hash, branchHash, fuel)
    decreases fuel
  {
    TraverseStep(a, hash, branchHash, fuel);
    TraverseStep(b, hash, branchHash, fuel);
    var p := FirstParent(a, hash);
    if hash != branchHash && p.Some? && fuel > 0 {
      TraverseSameParents(a, b, p.value, branchHash, fuel - 1);
    }
  }

  /** Cutting every node down leaves every traversal as it was: later parents are never followed. */
  lemma TraverseKeepFirstParent(nodes: seq<CommitNode>, hash: string, branchHash: string, fuel: nat)
    ensures TraverseLog(Seqs.Map(KeepFirstParent, nodes), hash, branchHash, fuel) == TraverseLog(nodes, hash, branchHash, fuel)
  {
    forall h {
      FirstParentKeepFirstParent(nodes, h);
    }
    TraverseSameParents(Seqs.Map(KeepFirstParent, nodes), nodes, hash, branchHash, fuel);
  }

  /** The base commit found depends only on each commit's first parent. */
  lemma {:induction false} FindBaseKeepFirstParent(nodes: seq<CommitNode>, candidates: seq<string>, branchHash: string)
    ensures FindBase(Seqs.Map(KeepFirstParent, nodes), candidates, branchHash) == FindBase(nodes, candidates, branchHash)
  {
    if candidates != [] {
      TraverseKeepFirstParent(nodes, candidates[0], branchHash, |nodes|);
      FindBaseKeepFirstParent(nodes, candidates[1..], branchHash);
    }
  }

  /**
   * A three-commit line `c3 -> c2 -> c1` with both upper commits as candidates and `c1` as
   * the branch hash: the first candidate, `c3`, already reaches it.
   */
  lemma LinearHistoryFindsFirstCandidate()
    ensures FindBase([["c3", "c2"], ["c2", "c1"], ["c1"]], ["c3", "c2"], "c1") == Found("c3")
  {
    var nodes: seq<CommitNode> := [["c3", "c2"], ["c2", "c1"], ["c1"]];
    assert HasHead(nodes[0], "c3");
    assert FindNode(nodes, "c3") == Some(["c3", "c2"]);
    assert !HasHead(nodes[0], "c2") && HasHead(nodes[1], "c2");
    assert FindNode(nodes[1..], "c2") == Some(["c2", "c1"]);
    assert FindNode(nodes, "c2") == Some(["c2", "c1"]);
    assert TraverseLog(nodes, "c1", "c1", 1) == Reached;
    assert TraverseLog(nodes, "c2", "c1", 2) == Reached;
    assert TraverseLog(nodes, "c3", "c1", 3) == Reached;
  }
}
