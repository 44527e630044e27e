/**
 * `getBranchHash`: for every listed branch, the first hash of git's `logBetweenOldest`
 * answer for that branch and the current one, with that commit's date; the earliest such
 * commit wins, and the answer is its parent's hash cut to seven characters.
 */
module ComparisonBranch {

  import opened Outcome
  import opened JsText
  import opened GitOracle
  import opened CurrentBranch
  import BranchMembership
  import Seqs

  /** Replacing the regular expression `^\*` with `""`: a `*` is removed only at the very start. */
  function DropLeadingStar(line: string): string
  {
    if line != [] && line[0] == '*' then line[1..] else line
  }

  /** The first word of a `git branch` line: the leading `*` dropped, then `.trim().split(" ")[0]`. */
  function ListedBranch(line: string): (b: string)
    ensures ' ' !in b
    ensures b == Trim(DropLeadingStar(line)) || StartsWith(Trim(DropLeadingStar(line)), b + " ")
  {
    var parts := Split(Trim(DropLeadingStar(line)), ' ');
    assert Join(parts, ' ') == Trim(DropLeadingStar(line));
    JoinStartsWithFirst(parts, ' ');
    parts[0]
  }

  /** A join is its first piece alone, or begins with that piece and a separator. */
  lemma JoinStartsWithFirst(parts: seq<string>, sep: char)
    requires |parts| >= 1
    ensures Join(parts, sep) == parts[0] || StartsWith(Join(parts, sep), parts[0] + [sep])
  {
    if |parts| > 1 {
      assert Join(parts, sep)[..|parts[0]| + 1] == parts[0] + [sep];
    }
  }

  /** The filter of the listed names: `!!b || b === this._branchName`. */
  predicate KeepsListed(branchName: string, b: string)
  {
    b != "" || b == branchName
  }

  /** The branches `getBranchHash` compares, in listing order. */
  function ListedBranches(text: string, branchName: string): (bs: seq<string>)
    ensures |bs| <= |Split(text, '\n')|
    ensures forall i :: 0 <= i < |bs| ==> bs[i] != "" || branchName == ""
  {
    Seqs.Filter((b: string) => KeepsListed(branchName, b), Seqs.Map(ListedBranch, Split(text, '\n')))
  }

  /** A branch's first listed word is the branch name itself. */
  lemma ListedBranchOfLine(name: string, checkedOut: bool)
    requires BranchMembership.IsBranchName(name)
    ensures ListedBranch(BranchMembership.ListingLine(name, checkedOut)) == name
  {
    BranchMembership.NoSpecialChars(name);
    assert ' ' !in name by {
      forall c | c in name
        ensures c != ' '
      {
        var k :| 0 <= k < |name| && name[k] == c;
      }
    }
    if checkedOut {
      assert DropLeadingStar("* " + name) == " " + name;
      TrimPadded(" ", name);
    } else {
      assert DropLeadingStar("  " + name) == "  " + name;
      TrimPadded("  ", name);
    }
    SplitNoSeparator(name, ' ');
  }

  /**
   * Reading back a `git branch` listing gives its branches, in order; when the current
   * name is empty the filter also lets through the empty piece after the final line break.
   */
  lemma ListedBranchesOfListing(names: seq<string>, current: int, branchName: string)
    requires |names| >= 1
    requires forall i :: 0 <= i < |names| ==> BranchMembership.IsBranchName(names[i])
    ensures ListedBranches(BranchMembership.Listing(names, current), branchName)
            == names + (if branchName == "" then [""] else [])
  {
    var lines := BranchMembership.ListingLines(names, current);
    forall i | 0 <= i < |lines|
      ensures lines[i] != "" && '\n' !in lines[i]
    {
      BranchMembership.CleanListingLine(names[i], i == current);
    }
    BranchMembership.JoinTrailingBreak(lines);
    ListedWords(names, current);
    FilterTrailingEmpty(names, branchName);
  }

  /** The first words of the listing lines, and of the empty piece after them. */
  lemma ListedWords(names: seq<string>, current: int)
    requires forall i :: 0 <= i < |names| ==> BranchMembership.IsBranchName(names[i])
    ensures Seqs.Map(ListedBranch, BranchMembership.ListingLines(names, current) + [""]) == names + [""]
  {
    var lines := BranchMembership.ListingLines(names, current) + [""];
    var words := Seqs.Map(ListedBranch, lines);
    forall i | 0 <= i < |words|
      ensures words[i] == (names + [""])[i]
    {
      ListedWordAt(names, current, i);
    }
  }

  /** The first word of one listing line, or of the empty piece after them. */
  lemma ListedWordAt(names: seq<string>, current: int, i: int)
    requires forall i :: 0 <= i < |names| ==> BranchMembership.IsBranchName(names[i])
    requires 0 <= i <= |names|
    ensures ListedBranch((BranchMembership.ListingLines(names, current) + [""])[i]) == (names + [""])[i]
  {
    if i < |names| {
      ListedBranchOfLine(names[i], i == current);
    } else {
      SplitNoSeparator("", ' ');
    }
  }

  /** Non-empty names pass the filter; the trailing empty piece passes only for an empty current name. */
  lemma FilterTrailingEmpty(names: seq<string>, branchName: string)
    requires forall i :: 0 <= i < |names| ==> names[i] != ""
    ensures Seqs.Filter((b: string) => KeepsListed(branchName, b), names + [""])
            == names + (if branchName == "" then [""] else [])
  {
    var keep := (b: string) => KeepsListed(branchName, b);
    Seqs.FilterAppend(keep, names, [""]);
    Seqs.FilterKeepsAll(keep, names);
    assert Seqs.Filter(keep, [""]) == (if branchName == "" then [""] else []);
  }

  /** One compared branch: the first hash of its `logBetweenOldest` answer, and that commit's time. */
  datatype Entry = Entry(hash: string, time: int)

  /** The `{ hash, time }` record built for branch `b`; a branch with no such commit sorts last. */
  function EntryFor(git: Client, dateOf: string -> Time, branchName: string, b: string): (e: Entry)
    ensures e.hash == "" <==> e.time == MaxSafeInteger
    ensures e.time <= MaxSafeInteger
    ensures e.hash == Split(git.logBetweenOldest(b, branchName), ' ')[0]
    ensures e.hash != "" ==> e.time == dateOf(Trim(git.logTime(e.hash)))
  {
    var hash := Split(git.logBetweenOldest(b, branchName), ' ')[0];
    if hash != "" then Entry(hash, dateOf(Trim(git.logTime(hash)))) else Entry(hash, MaxSafeInteger)
  }

  /** The records of every listed branch, in listing order. */
  function Entries(git: Client, dateOf: string -> Time, branchName: string): (es: seq<Entry>)
    ensures |es| == |ListedBranches(git.branches, branchName)|
    ensures forall i :: 0 <= i < |es| ==> es[i] == EntryFor(git, dateOf, branchName, ListedBranches(git.branches, branchName)[i])
    ensures WellTimed(es)
  {
    Seqs.Map((b: string) => EntryFor(git, dateOf, branchName, b), ListedBranches(git.branches, branchName))
  }

  /** Only the records without a hash carry the sentinel, and nothing is later than it. */
  predicate WellTimed(es: seq<Entry>)
  {
    forall j :: 0 <= j < |es| ==> es[j].time <= MaxSafeInteger && (es[j].hash == "" <==> es[j].time == MaxSafeInteger)
  }

  predicate SortedByTime(es: seq<Entry>)
  {
    forall i, j :: 0 <= i < j < |es| ==> es[i].time <= es[j].time
  }

  /** Places `e` before the first entry that is not earlier than it. */
  function Insert(e: Entry, es: seq<Entry>): (r: seq<Entry>)
    requires SortedByTime(es)
    ensures exists k :: InsertedAt(e, es, k, r)
    ensures SortedByTime(r)
    ensures multiset(r) == multiset(es) + multiset{e}
    ensures |r| == |es| + 1
    ensures r[0] == if es == [] || e.time <= es[0].time then e else es[0]
  {
    if es == [] || e.time <= es[0].time then
      assert InsertedAt(e, es, 0, [e] + es);
      InsertedFacts(e, es, 0, [e] + es);
      [e] + es
    else
      var rest := Insert(e, es[1..]);
      var k :| InsertedAt(e, es[1..], k, rest);
      InsertedAtCons(e, es, k, rest);
      InsertedFacts(e, es, k + 1, [es[0]] + rest);
      [es[0]] + rest
  }

  /** `r` is `es` with `e` placed at `k`, in front of the first entry that is not earlier than it. */
  predicate InsertedAt(e: Entry, es: seq<Entry>, k: int, r: seq<Entry>)
  {
    && 0 <= k <= |es|
    && r == es[..k] + [e] + es[k..]
    && (forall j :: 0 <= j < k ==> es[j].time < e.time)
    && (k == |es| || e.time <= es[k].time)
  }

  /** Placing `e` so keeps a time-ordered list ordered and adds exactly that one entry. */
  lemma InsertedFacts(e: Entry, es: seq<Entry>, k: int, r: seq<Entry>)
    requires SortedByTime(es) && InsertedAt(e, es, k, r)
    ensures SortedByTime(r)
    ensures multiset(r) == multiset(es) + multiset{e}
    ensures |r| == |es| + 1
    ensures r[0] == if es == [] || e.time <= es[0].time then e else es[0]
  {
    assert es == es[..k] + es[k..];
    InsertedSorted(e, es, k, r);
  }

  /** The entries before `k` are earlier than `e`, and those after it are not. */
  lemma InsertedSorted(e: Entry, es: seq<Entry>, k: int, r: seq<Entry>)
    requires SortedByTime(es) && InsertedAt(e, es, k, r)
    ensures SortedByTime(r)
  {
    forall i, j | 0 <= i < j < |r|
      ensures r[i].time <= r[j].time
    {
      var ti := if i < k then es[i].time else if i == k then e.time else es[i - 1].time;
      var tj := if j < k then es[j].time else if j == k then e.time else es[j - 1].time;
      assert r[i].time == ti && r[j].time == tj;
      if i < k && k < j {
        assert es[i].time <= es[j - 1].time;
      }
    }
  }

  /** An insertion into the tail, behind an earlier head, is an insertion one place further on. */
  lemma InsertedAtCons(e: Entry, es: seq<Entry>, k: int, rest: seq<Entry>)
    requires es != [] && es[0].time < e.time
    requires InsertedAt(e, es[1..], k, rest)
    ensures InsertedAt(e, es, k + 1, [es[0]] + rest)
  {
    assert es[..k + 1] == [es[0]] + es[1..][..k];
    assert es[k + 1..] == es[1..][k..];
    forall j | 0 <= j < k + 1
      ensures es[j].time < e.time
    {
      if j > 0 {
        assert es[j] == es[1..][j - 1];
      }
    }
  }

  /**
   * `sort((a, b) => a.time - b.time)`. Array sorting is stable, and an insertion sort
   * that puts each earlier entry before the equal ones already placed is too.
   * Differences of valid times and the sentinel keep their sign in floating point,
   * so the comparator orders by time exactly.
   */
  function SortByTime(es: seq<Entry>): (r: seq<Entry>)
    ensures SortedByTime(r)
    ensures multiset(r) == multiset(es)
    ensures |r| == |es|
  {
    if es == [] then []
    else
      assert es == [es[0]] + es[1..];
      Insert(es[0], SortByTime(es[1..]))
  }

  /** Entry `i` has the least time, and every earlier entry is strictly later. */
  predicate IsFirstMinimum(es: seq<Entry>, i: int)
  {
    && 0 <= i < |es|
    && (forall j :: 0 <= j < |es| ==> es[i].time <= es[j].time)
    && (forall j :: 0 <= j < i ==> es[i].time < es[j].time)
  }

  /** There is at most one first minimum. */
  lemma FirstMinimumUnique(es: seq<Entry>, i: int, k: int)
    requires IsFirstMinimum(es, i) && IsFirstMinimum(es, k)
    ensures i == k
  {
    var ti, tk := es[i].time, es[k].time;
    assert i < k ==> tk < ti;
    assert k < i ==> ti < tk;
  }

  /** When the earliest record has no hash, no record has one: only those carry the sentinel. */
  lemma EarliestWithoutHash(es: seq<Entry>, i: int)
    requires WellTimed(es) && IsFirstMinimum(es, i) && es[i].hash == ""
    ensures forall j :: 0 <= j < |es| ==> es[j].hash == ""
  {
    forall j | 0 <= j < |es|
      ensures es[j].hash == ""
    {
      assert es[i].time <= es[j].time;
    }
  }

  /** The first minimum of a non-empty sequence, from the first minimum of its tail. */
  lemma FirstMinimumCons(es: seq<Entry>, i: int)
    requires |es| >= 2 && IsFirstMinimum(es[1..], i)
    ensures es[0].time <= es[i + 1].time ==> IsFirstMinimum(es, 0)
    ensures es[0].time > es[i + 1].time ==> IsFirstMinimum(es, i + 1)
  {
    assert forall j :: 1 <= j < |es| ==> es[j] == es[1..][j - 1];
  }

  /** The head of the sorted records is the earliest one, ties going to the one listed first. */
  lemma {:induction false} SortHeadIsFirstMinimum(es: seq<Entry>)
    requires es != []
    ensures exists i :: IsFirstMinimum(es, i) && SortByTime(es)[0] == es[i]
  {
    if |es| == 1 {
      assert IsFirstMinimum(es, 0);
    } else {
      SortHeadIsFirstMinimum(es[1..]);
      var i :| IsFirstMinimum(es[1..], i) && SortByTime(es[1..])[0] == es[1..][i];
      SortHeadStep(es, i);
    }
  }

  /** The sorted head of a sequence, from the sorted head of its tail. */
  lemma SortHeadStep(es: seq<Entry>, i: int)
    requires |es| >= 2 && IsFirstMinimum(es[1..], i) && SortByTime(es[1..])[0] == es[1..][i]
    ensures exists j :: IsFirstMinimum(es, j) && SortByTime(es)[0] == es[j]
  {
    var tail := SortByTime(es[1..]);
    assert SortByTime(es)[0] == if es[0].time <= tail[0].time then es[0] else tail[0];
    FirstMinimumCons(es, i);
  }

  /**
   * `getBranchHash`: no usable listing line makes the source read a property of
   * `undefined`; a winner without a commit of its own gives `undefined`; otherwise the
   * first seven characters of its parent's hash.
   */
  function BranchHash(git: Client, dateOf: string -> Time, branchName: string): (r: Result<Option<string>, ExplorerError>)
    ensures r.Failure? <==> ListedBranches(git.branches, branchName) == []
    ensures r.Failure? ==> r.error == NoBranches
    ensures r.Success? && r.value.Some? ==> |r.value.value| <= 7
  {
    var es := Entries(git, dateOf, branchName);
    if es == [] then Failure(NoBranches)
    else
      var best := SortByTime(es)[0];
      if best.hash == "" then Success(None)
      else Success(Some(Take(Trim(git.logParent(best.hash)), 7)))
  }

  /**
   * The sorted head has no hash exactly when no record has one; otherwise it is the
   * earliest record, the first listed among equals, and it has a hash.
   */
  lemma SortedHeadHash(es: seq<Entry>)
    requires es != [] && WellTimed(es)
    ensures SortByTime(es)[0].hash == "" <==> forall i :: 0 <= i < |es| ==> es[i].hash == ""
    ensures SortByTime(es)[0].hash != "" ==> exists i :: IsFirstMinimum(es, i) && es[i].hash != "" && SortByTime(es)[0] == es[i]
  {
    SortHeadIsFirstMinimum(es);
    var i :| IsFirstMinimum(es, i) && SortByTime(es)[0] == es[i];
  }

  /**
   * The answer is missing exactly when no listed branch's `logBetweenOldest` answer starts
   * with a hash; otherwise it comes from the earliest such commit, the first listed among equals.
   */
  lemma BranchHashChoice(git: Client, dateOf: string -> Time, branchName: string)
    requires ListedBranches(git.branches, branchName) != []
    ensures var es := Entries(git, dateOf, branchName);
            var r := BranchHash(git, dateOf, branchName);
            && (r == Success(None) <==> forall i :: 0 <= i < |es| ==> es[i].hash == "")
            && (r.Success? && r.value.Some? ==>
                  exists i :: IsFirstMinimum(es, i) && es[i].hash != ""
                              && r.value.value == Take(Trim(git.logParent(es[i].hash)), 7))
  {
    SortedHeadHash(Entries(git, dateOf, branchName));
  }
}
