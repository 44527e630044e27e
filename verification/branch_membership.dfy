/**
 * `getBranchNames`: the branches whose history contains a commit, read from
 * `git branch --contains` and memoised per hash.
 */
module BranchMembership {

  import opened JsText
  import Seqs

  /** The per-explorer memo: commit hash to the branch names containing it. */
  type Cache = map<string, seq<string>>

  /** `branch.replace("*", "").trim()`: drop the first `*` (the checked-out marker), then the padding. */
  function CleanName(line: string): string
  {
    Trim(RemoveFirst(line, '*'))
  }

  /** The names of a `git branch --contains` listing, in listing order. */
  function ParseContained(text: string): (names: seq<string>)
    ensures |names| <= |Split(text, '\n')|
  {
    Seqs.Map(CleanName, Seqs.Filter(Seqs.NonEmpty, Split(text, '\n')))
  }

  /** At most one name per line, each with no whitespace at either end. */
  lemma ParsedNamesTrimmed(text: string)
    ensures var names := ParseContained(text);
            && |names| <= |Split(text, '\n')|
            && forall i :: 0 <= i < |names| ==>
                 names[i] == [] || (!IsJsWhitespace(names[i][0]) && !IsJsWhitespace(names[i][|names[i]| - 1]))
  {
  }

  /** A name git accepts for a branch, as far as the listing format is concerned. */
  predicate IsBranchName(name: string)
  {
    name != [] && forall k :: 0 <= k < |name| ==> !IsJsWhitespace(name[k]) && name[k] != '*'
  }

  /** One listing line: `* ` before the checked-out branch, two spaces before the others. */
  function ListingLine(name: string, checkedOut: bool): string
  {
    (if checkedOut then "* " else "  ") + name
  }

  /** A whole `git branch` listing; `current` is the index of the checked-out branch, if it is listed. */
  function Listing(names: seq<string>, current: int): string
  {
    Join(ListingLines(names, current), '\n') + "\n"
  }

  function ListingLines(names: seq<string>, current: int): (lines: seq<string>)
    ensures |lines| == |names|
    ensures forall i :: 0 <= i < |names| ==> lines[i] == ListingLine(names[i], i == current)
  {
    seq(|names|, i requires 0 <= i < |names| => ListingLine(names[i], i == current))
  }

  /** Cleaning a listing line gives back the branch name. */
  lemma CleanListingLine(name: string, checkedOut: bool)
    requires IsBranchName(name)
    ensures CleanName(ListingLine(name, checkedOut)) == name
    ensures ListingLine(name, checkedOut) != "" && '\n' !in ListingLine(name, checkedOut)
  {
    NoSpecialChars(name);
    if checkedOut {
      CleanCheckedOutLine(name);
    } else {
      CleanPlainLine(name);
    }
  }

  lemma CleanCheckedOutLine(name: string)
    requires '*' !in name && name != []
    requires !IsJsWhitespace(name[0]) && !IsJsWhitespace(name[|name| - 1])
    ensures CleanName("* " + name) == name
  {
    assert "* " + name == [] + ['*'] + (" " + name);
    RemoveFirstAfter([], '*', " " + name);
    assert [] + (" " + name) == " " + name;
    TrimPadded(" ", name);
  }

  lemma CleanPlainLine(name: string)
    requires '*' !in name && name != []
    requires !IsJsWhitespace(name[0]) && !IsJsWhitespace(name[|name| - 1])
    ensures CleanName("  " + name) == name
  {
    assert '*' !in "  " + name;
    RemoveFirstSpec("  " + name, '*');
    TrimPadded("  ", name);
  }

  /** A branch name holds neither a line break nor a `*`, and starts and ends with non-whitespace. */
  lemma NoSpecialChars(name: string)
    requires IsBranchName(name)
    ensures '\n' !in name && '*' !in name
    ensures !IsJsWhitespace(name[0]) && !IsJsWhitespace(name[|name| - 1])
  {
    forall c | c in name
      ensures c != '\n' && c != '*'
    {
      var k :| 0 <= k < |name| && name[k] == c;
    }
  }

  /** Parsing a listing gives back its branch names, in order. */
  lemma ParseListing(names: seq<string>, current: int)
    requires forall i :: 0 <= i < |names| ==> IsBranchName(names[i])
    ensures ParseContained(Listing(names, current)) == names
  {
    var lines := ListingLines(names, current);
    forall i | 0 <= i < |names|
      ensures CleanName(lines[i]) == names[i] && lines[i] != "" && '\n' !in lines[i]
    {
      CleanListingLine(names[i], i == current);
    }
    ParseLines(lines);
  }

  /** Lines joined with a trailing line break parse to their cleaned forms. */
  lemma ParseLines(lines: seq<string>)
    requires forall i :: 0 <= i < |lines| ==> lines[i] != "" && '\n' !in lines[i]
    ensures ParseContained(Join(lines, '\n') + "\n") == Seqs.Map(CleanName, lines)
  {
    if lines == [] {
      EmptyListing();
    } else {
      JoinTrailingBreak(lines);
      NonEmptyLinesKept(lines);
    }
  }

  /** A listing that is only a line break names no branch. */
  lemma EmptyListing()
    ensures ParseContained("\n") == []
  {
    SplitAtSeparator("", "", '\n');
    assert "" + ['\n'] + "" == "\n";
    assert Split("\n", '\n') == ["", ""];
    assert Seqs.Filter(Seqs.NonEmpty, ["", ""]) == [];
  }

  /** The empty piece after the final line break is dropped, and every line is kept. */
  lemma NonEmptyLinesKept(lines: seq<string>)
    requires forall i :: 0 <= i < |lines| ==> lines[i] != ""
    ensures Seqs.Filter(Seqs.NonEmpty, lines + [""]) == lines
  {
    Seqs.FilterAppend(Seqs.NonEmpty, lines, [""]);
    Seqs.FilterKeepsAll(Seqs.NonEmpty, lines);
    assert Seqs.Filter(Seqs.NonEmpty, [""]) == [];
  }

  /** With no separator in any line, the listing splits into the lines and one trailing empty piece. */
  lemma JoinTrailingBreak(lines: seq<string>)
    requires |lines| >= 1
    requires forall i :: 0 <= i < |lines| ==> '\n' !in lines[i]
    ensures Split(Join(lines, '\n') + "\n", '\n') == lines + [""]
  {
    var extended := lines + [""];
    assert Join(extended, '\n') == Join(lines, '\n') + "\n" by {
      JoinAppendEmpty(lines, '\n');
    }
    SplitJoin(extended, '\n');
  }

  /** Joining one more empty piece appends one separator. */
  lemma {:induction false} JoinAppendEmpty(parts: seq<string>, sep: char)
    requires |parts| >= 1
    ensures Join(parts + [""], sep) == Join(parts, sep) + [sep]
  {
    if |parts| == 1 {
      assert parts + [""] == [parts[0], ""];
      assert [parts[0], ""][1..] == [""];
    } else {
      JoinAppendEmpty(parts[1..], sep);
      assert (parts + [""])[1..] == parts[1..] + [""];
    }
  }

  /** Every cached entry is what the oracle's listing parses to. */
  predicate Consistent(cache: Cache, contained: string -> string)
  {
    forall h :: h in cache ==> cache[h] == ParseContained(contained(h))
  }

  /** `after` keeps every entry of `before`. */
  predicate Extends(before: Cache, after: Cache)
  {
    before.Keys <= after.Keys && forall h :: h in before ==> after[h] == before[h]
  }

  /**
   * `getBranchNames`: the cached names when the hash has an entry (an empty list
   * is a truthy array, so it counts), otherwise the parsed oracle answer, now cached.
   */
  function BranchNames(contained: string -> string, cache: Cache, hash: string): (out: (seq<string>, Cache))
    ensures hash in out.1 && out.1[hash] == out.0
    ensures Extends(cache, out.1)
    ensures hash in cache ==> out == (cache[hash], cache)
    ensures hash !in cache ==> out.0 == ParseContained(contained(hash))
  {
    if hash in cache then (cache[hash], cache)
    else
      var names := ParseContained(contained(hash));
      (names, cache[hash := names])
  }

  /** Over a faithful memo a lookup answers what the oracle's listing parses to, and the memo stays faithful. */
  lemma LookupFaithful(contained: string -> string, cache: Cache, hash: string)
    requires Consistent(cache, contained)
    ensures var (names, cache1) := BranchNames(contained, cache, hash);
            names == ParseContained(contained(hash)) && Consistent(cache1, contained)
  {
  }

  /** A lookup adds at most the looked-up hash to the memo, with the names it returned. */
  lemma LookupAddsOnlyItsHash(contained: string -> string, cache: Cache, hash: string)
    ensures var (names, cache1) := BranchNames(contained, cache, hash);
            cache1 == cache[hash := names]
  {
  }

  /** A second lookup of the same hash answers the same and leaves the memo alone, whatever the oracle says now. */
  lemma SecondLookupMemoised(contained: string -> string, later: string -> string, cache: Cache, hash: string)
    ensures var (names, cache1) := BranchNames(contained, cache, hash);
            BranchNames(later, cache1, hash) == (names, cache1)
  {
  }

  /** A hash missing from the memo, however stale the memo, is answered by the oracle, and only its entry is added. */
  lemma FirstLookupParses(contained: string -> string, cache: Cache, hash: string)
    requires hash !in cache
    ensures var names := ParseContained(contained(hash));
            BranchNames(contained, cache, hash) == (names, cache[hash := names])
  {
  }
}
