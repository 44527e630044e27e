/** `getCurrentBranchName`: the branch label, refused when HEAD is detached. */
module CurrentBranch {

  import opened Outcome
  import opened JsText

  /** The errors the explorer throws. */
  datatype ExplorerError =
    | DetachedHead     // the current label names no branch
    | NoCommits        // the graph dump held no commit line, so the first node cannot be read
    | NoBranches       // the branch listing held no usable entry, so no comparison entry exists
    | EndlessAncestry  // a first-parent chain loops without meeting the branch hash

  /** The label shapes git prints when HEAD is detached. */
  predicate IsDetachedLabel(name: string)
  {
    || StartsWith(name, "(HEAD detached")
    || StartsWith(name, "(no branch")
    || StartsWith(name, "(detached from")
    || (StartsWith(name, "[") && IndexOf(name, "detached") != -1)
  }

  /** `getCurrentBranchName`: the label with its first line break removed, unless it marks a detached HEAD. */
  function CurrentBranchName(output: string): (r: Result<string, ExplorerError>)
    ensures r.Failure? ==> r.error == DetachedHead
    ensures var name := RemoveFirst(output, '\n');
            r.Failure? <==>
              || StartsWith(name, "(HEAD detached")
              || StartsWith(name, "(no branch")
              || StartsWith(name, "(detached from")
              || (StartsWith(name, "[") && exists k :: OccursAt(name, "detached", k))
    ensures r.Success? ==> r.value == RemoveFirst(output, '\n')
  {
    var name := RemoveFirst(output, '\n');
    if IsDetachedLabel(name) then Failure(DetachedHead) else Success(name)
  }

  /** A label that opens with neither `(` nor `[` is an ordinary branch name and comes back unchanged. */
  lemma PlainNameAccepted(name: string)
    requires '\n' !in name
    requires name == [] || (name[0] != '(' && name[0] != '[')
    ensures CurrentBranchName(name + "\n") == Success(name)
  {
    RemoveFirstAfter(name, '\n', "");
    assert name + ['\n'] + "" == name + "\n";
    assert name + "" == name;
  }

  /** Only the first line break goes: a second one stays in the name. */
  lemma OnlyFirstBreakRemoved()
    ensures CurrentBranchName("main\n\n") == Success("main\n")
  {
    RemoveFirstAfter("main", '\n', "\n");
    assert "main" + ['\n'] + "\n" == "main\n\n";
    assert "main" + "\n" == "main\n";
    assert RemoveFirst("main\n\n", '\n') == "main\n";
    assert !StartsWith("main\n", "[");
    assert !IsDetachedLabel("main\n");
  }

  /** Every label of the form `(HEAD detached ...` is refused. */
  lemma DetachedHeadRefused(rest: string)
    requires '\n' !in rest
    ensures CurrentBranchName("(HEAD detached" + rest + "\n") == Failure(DetachedHead)
  {
    var name := "(HEAD detached" + rest;
    assert '\n' !in "(HEAD detached";
    RemoveFirstAfter(name, '\n', "");
    assert name + ['\n'] + "" == name + "\n";
    assert name + "" == name;
    assert name[..14] == "(HEAD detached";
  }

  /** Every bracketed label that mentions `detached` is refused. */
  lemma BracketedDetachedRefused(before: string, after: string)
    ensures CurrentBranchName("[" + before + "detached" + after) == Failure(DetachedHead)
  {
    var name := "[" + before + "detached" + after;
    var k := 1 + |before|;
    assert name[k..k + 8] == "detached";
    assert name[0] == '[';
    assert OccursAt(name, "detached", k);
    var r := RemoveFirst(name, '\n');
    RemoveFirstSpec(name, '\n');
    if '\n' in name {
      var i :| RemovedAt(name, '\n', i, r);
      assert i != 0;
      RemovalKeepsOccurrence(name, '\n', "detached", k, i, r);
      assert OccursAt(r, "detached", if i < k then k - 1 else k);
      assert r[0] == name[0];
      assert r[..1] == "[";
    } else {
      assert r[..1] == "[";
    }
  }

  /** A bracketed label whose `detached` is cut by its first line break is refused too: the break is removed first. */
  lemma BrokenDetachedRefused(before: string, k: int, after: string)
    requires '\n' !in before && 0 < k < 8
    ensures CurrentBranchName("[" + before + "detached"[..k] + "\n" + "detached"[k..] + after) == Failure(DetachedHead)
  {
    var head := "[" + before + "detached"[..k];
    var tail := "detached"[k..] + after;
    assert '\n' !in "detached"[..k];
    assert '\n' !in head;
    RemoveFirstAfter(head, '\n', tail);
    assert "[" + before + "detached"[..k] + "\n" + "detached"[k..] + after == head + ['\n'] + tail;
    assert head + tail == "[" + before + "detached" + after;
    var name := "[" + before + "detached" + after;
    var j := 1 + |before|;
    assert name[j..j + 8] == "detached";
    assert OccursAt(name, "detached", j);
    assert name[..1] == "[";
  }

  /** Taking out one character outside an occurrence of `sub` leaves an occurrence of `sub`. */
  lemma RemovalKeepsOccurrence(s: string, c: char, sub: string, k: int, i: int, r: string)
    requires OccursAt(s, sub, k) && c !in sub
    requires RemovedAt(s, c, i, r)
    ensures OccursAt(r, sub, if i < k then k - 1 else k)
  {
    if i < k {
      assert r[k - 1..k - 1 + |sub|] == s[k..k + |sub|];
    } else {
      assert r[k..k + |sub|] == s[k..k + |sub|];
    }
  }
}
