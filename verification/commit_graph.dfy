/**
 * The commit graph as the explorer reads it from `git log --graph`: one node per
 * commit line, the commit's own abbreviated hash first and its parents after it.
 */
module CommitGraph {

  import opened Outcome
  import opened JsText
  import Seqs

  /** `[hash, parent, parent, ...]`; a root commit has no parents, a merge has two or more. */
  type CommitNode = seq<string>

  /** The graph-drawing characters removed from every line. */
  predicate IsGlyph(c: char)
  {
    c == '*' || c == '/' || c == '|' || c == '\\' || c == '_'
  }

  predicate NotGlyph(c: char)
  {
    !IsGlyph(c)
  }

  /** A character that can survive into a token: neither a glyph nor the space separator. */
  predicate IsTokenChar(c: char)
  {
    !IsGlyph(c) && c != ' '
  }

  /** What a parsed hash looks like: non-empty, no glyph, no space, no line break. */
  predicate IsToken(t: string)
  {
    t != "" && forall k :: 0 <= k < |t| ==> IsTokenChar(t[k]) && t[k] != '\n'
  }

  /** What a parsed node looks like: at least its own hash, every entry a token. */
  predicate IsNode(n: CommitNode)
  {
    n != [] && forall j :: 0 <= j < |n| ==> IsToken(n[j])
  }

  /** `line.replace(/\*|\/|\||\\|_|/g, "")`; the trailing empty alternative of the pattern removes nothing. */
  function StripGlyphs(line: string): (r: string)
    ensures forall k :: 0 <= k < |r| ==> !IsGlyph(r[k]) && r[k] in line
    ensures Seqs.IsSubseq(r, line)
    ensures |r| == |line| - |Seqs.Filter(IsGlyph, line)|
  {
    Seqs.FilterComplementLength(IsGlyph, NotGlyph, line);
    Seqs.Filter(NotGlyph, line)
  }

  /** One line's hashes: glyphs removed, split on single spaces, empty pieces dropped. */
  function LineTokens(line: string): (tokens: seq<string>)
    ensures forall j :: 0 <= j < |tokens| ==> tokens[j] != "" && forall k :: 0 <= k < |tokens[j]| ==> IsTokenChar(tokens[j][k]) && tokens[j][k] in line
  {
    var stripped := StripGlyphs(line);
    var pieces := Split(stripped, ' ');
    var tokens := Seqs.Filter(Seqs.NonEmpty, pieces);
    forall j, k | 0 <= j < |tokens| && 0 <= k < |tokens[j]|
      ensures IsTokenChar(tokens[j][k]) && tokens[j][k] in line
    {
      var c := tokens[j][k];
      var i :| 0 <= i < |pieces| && pieces[i] == tokens[j];
      assert c in pieces[i];
      assert c in stripped;
      var m :| 0 <= m < |stripped| && stripped[m] == c;
    }
    tokens
  }

  /** `getCommitNodes`: the dump split into lines, each line tokenised, token-less lines dropped. */
  function ParseGraph(dump: string): (nodes: seq<CommitNode>)
    ensures forall i :: 0 <= i < |nodes| ==> IsNode(nodes[i])
    ensures |nodes| <= |Split(dump, '\n')|
    ensures Seqs.IsSubseq(nodes, Seqs.Map(LineTokens, Split(dump, '\n')))
    ensures forall l :: 0 <= l < |Split(dump, '\n')| && LineTokens(Split(dump, '\n')[l]) != [] ==>
              LineTokens(Split(dump, '\n')[l]) in nodes
  {
    var lines := Split(dump, '\n');
    LinesGiveNodes(lines);
    Seqs.Filter(Seqs.NonEmpty, Seqs.Map(LineTokens, lines))
  }

  /** The token lists kept from lines without line breaks are nodes. */
  lemma LinesGiveNodes(lines: seq<string>)
    requires forall l :: 0 <= l < |lines| ==> '\n' !in lines[l]
    ensures var nodes := Seqs.Filter(Seqs.NonEmpty, Seqs.Map(LineTokens, lines));
            forall i :: 0 <= i < |nodes| ==> IsNode(nodes[i])
  {
    var perLine := Seqs.Map(LineTokens, lines);
    var nodes := Seqs.Filter(Seqs.NonEmpty, perLine);
    forall i | 0 <= i < |nodes|
      ensures IsNode(nodes[i])
    {
      var l :| 0 <= l < |perLine| && perLine[l] == nodes[i];
      LineNode(lines[l]);
    }
  }

  /** The tokens of a line without a line break, when there are any, form a node. */
  lemma LineNode(line: string)
    requires '\n' !in line
    ensures LineTokens(line) != [] ==> IsNode(LineTokens(line))
  {
  }

  /** The tokens of a line hold exactly its token characters, in order. */
  lemma LineTokensContent(line: string)
    ensures Seqs.Concat(LineTokens(line)) == Seqs.Filter(IsTokenChar, line)
  {
    var stripped := StripGlyphs(line);
    var pieces := Split(stripped, ' ');
    Seqs.ConcatFilterNonEmpty(pieces);
    ConcatSplit(stripped, ' ', (c: char) => c != ' ');
    FilterTwice((c: char) => c != ' ', NotGlyph, IsTokenChar, line);
  }

  /** Filtering twice is filtering once by both tests. */
  lemma {:induction false} FilterTwice<T>(p: T -> bool, q: T -> bool, both: T -> bool, s: seq<T>)
    requires forall i :: 0 <= i < |s| ==> both(s[i]) == (p(s[i]) && q(s[i]))
    ensures Seqs.Filter(p, Seqs.Filter(q, s)) == Seqs.Filter(both, s)
  {
    if s != [] {
      FilterTwice(p, q, both, s[1..]);
    }
  }

  /** A line contributes no node exactly when it is made of glyphs and spaces only. */
  lemma ConnectorLine(line: string)
    ensures LineTokens(line) == [] <==> forall k :: 0 <= k < |line| ==> !IsTokenChar(line[k])
  {
    LineTokensContent(line);
    var tokens := LineTokens(line);
    if tokens != [] {
      assert Seqs.Concat(tokens) == tokens[0] + Seqs.Concat(tokens[1..]);
      var c := Seqs.Concat(tokens)[0];
      assert c in Seqs.Filter(IsTokenChar, line);
    }
    if exists k :: 0 <= k < |line| && IsTokenChar(line[k]) {
      var k :| 0 <= k < |line| && IsTokenChar(line[k]);
      assert line[k] in Seqs.Filter(IsTokenChar, line);
    }
  }

  /** The line holds a character that survives into a token. */
  predicate HasTokenChar(line: string)
  {
    exists k :: 0 <= k < |line| && IsTokenChar(line[k])
  }

  /**
   * The graph has one node for each line holding a character other than a glyph or a
   * space, in line order, and that node is the line's tokens: commit lines drawn beside
   * other branches (`| * a b`, `* | a b`) count like any other.
   */
  lemma GraphOfTokenLines(dump: string)
    ensures ParseGraph(dump) == Seqs.Map(LineTokens, Seqs.Filter(HasTokenChar, Split(dump, '\n')))
  {
    NodesOfTokenLines(Split(dump, '\n'));
  }

  lemma NodesOfTokenLines(lines: seq<string>)
    ensures Seqs.Filter(Seqs.NonEmpty, Seqs.Map(LineTokens, lines))
            == Seqs.Map(LineTokens, Seqs.Filter(HasTokenChar, lines))
  {
    forall l | 0 <= l < |lines|
      ensures Seqs.NonEmpty(LineTokens(lines[l])) == HasTokenChar(lines[l])
    {
      ConnectorLine(lines[l]);
    }
    Seqs.FilterMapSwap(LineTokens, HasTokenChar, lines);
  }

  /** A dump made only of glyphs, spaces and line breaks parses to the empty graph. */
  lemma ConnectorOnlyDump(dump: string)
    requires forall k :: 0 <= k < |dump| ==> !IsTokenChar(dump[k]) || dump[k] == '\n'
    ensures ParseGraph(dump) == []
  {
    var lines := Split(dump, '\n');
    var perLine := Seqs.Map(LineTokens, lines);
    forall l | 0 <= l < |lines|
      ensures perLine[l] == []
    {
      LineOfConnectorDump(dump, l);
    }
  }

  /** One line of a glyph-only dump has no tokens. */
  lemma LineOfConnectorDump(dump: string, l: int)
    requires forall k :: 0 <= k < |dump| ==> !IsTokenChar(dump[k]) || dump[k] == '\n'
    requires 0 <= l < |Split(dump, '\n')|
    ensures LineTokens(Split(dump, '\n')[l]) == []
  {
    var lines := Split(dump, '\n');
    var line := lines[l];
    forall k | 0 <= k < |line|
      ensures !IsTokenChar(line[k])
    {
      var c := line[k];
      assert c in lines[l];
      assert c in dump;
      var m :| 0 <= m < |dump| && dump[m] == c;
    }
    ConnectorLine(line);
  }

  /** How git draws a commit line: a `*` marker, then the hashes separated by single spaces. */
  function FormatLine(n: CommitNode): string
  {
    "* " + Join(n, ' ')
  }

  /** A whole graph dump: one commit line per node, separated by line breaks. */
  function FormatGraph(nodes: seq<CommitNode>): string
  {
    Join(Seqs.Map(FormatLine, nodes), '\n')
  }

  /** Tokenising a formatted commit line gives back the node. */
  lemma FormatLineTokens(n: CommitNode)
    requires IsNode(n)
    ensures LineTokens(FormatLine(n)) == n
    ensures '\n' !in FormatLine(n)
  {
    var joined := Join(n, ' ');
    StripFormatLine(n);
    assert Split([' '] + joined, ' ') == [""] + n by {
      SplitJoin(n, ' ');
      SplitAtSeparator("", joined, ' ');
      assert "" + [' '] + joined == [' '] + joined;
    }
    assert ([""] + n)[1..] == n;
    Seqs.FilterKeepsAll(Seqs.NonEmpty, n);
    FormatLineOneLine(n);
  }

  /** A formatted commit line holds no line break. */
  lemma FormatLineOneLine(n: CommitNode)
    requires IsNode(n)
    ensures '\n' !in FormatLine(n)
  {
    var joined := Join(n, ' ');
    JoinChars(n, ' ', (c: char) => c != '\n');
    assert FormatLine(n) == "* " + joined;
    assert forall k :: 2 <= k < |FormatLine(n)| ==> FormatLine(n)[k] == joined[k - 2];
  }

  /** Stripping glyphs from a formatted line removes just its `*` marker. */
  lemma StripFormatLine(n: CommitNode)
    requires IsNode(n)
    ensures StripGlyphs(FormatLine(n)) == [' '] + Join(n, ' ')
  {
    JoinChars(n, ' ', NotGlyph);
    StripMarkedLine(Join(n, ' '));
  }

  /** Stripping glyphs from `* ` and a glyph-free rest leaves the space and the rest. */
  lemma StripMarkedLine(rest: string)
    requires forall k :: 0 <= k < |rest| ==> NotGlyph(rest[k])
    ensures StripGlyphs("* " + rest) == [' '] + rest
  {
    Seqs.FilterAppend(NotGlyph, "* ", rest);
    Seqs.FilterKeepsAll(NotGlyph, rest);
    assert "* "[1..] == " ";
    assert Seqs.Filter(NotGlyph, " "[1..]) == [];
  }

  /** Parsing a formatted graph gives back the nodes. */
  lemma ParseFormatGraph(nodes: seq<CommitNode>)
    requires forall i :: 0 <= i < |nodes| ==> IsNode(nodes[i])
    ensures ParseGraph(FormatGraph(nodes)) == nodes
  {
    if nodes == [] {
      assert Split("", '\n') == [""];
      assert Seqs.Map(LineTokens, [""]) == [LineTokens("")];
      assert LineTokens("") == [] by { ConnectorLine(""); }
    } else {
      var lines := Seqs.Map(FormatLine, nodes);
      forall i | 0 <= i < |lines|
        ensures '\n' !in lines[i] && LineTokens(lines[i]) == nodes[i]
      {
        FormatLineTokens(nodes[i]);
      }
      SplitJoin(lines, '\n');
      var perLine := Seqs.Map(LineTokens, lines);
      assert perLine == nodes;
      Seqs.FilterKeepsAll(Seqs.NonEmpty, nodes);
    }
  }

  /** The example of the `getCommitNodes` doc comment. */
  lemma ParseExampleLine()
    ensures ParseGraph("* a38df15 8e1ac3a") == [["a38df15", "8e1ac3a"]]
  {
    var n: CommitNode := ["a38df15", "8e1ac3a"];
    assert IsToken("a38df15");
    assert IsToken("8e1ac3a");
    assert FormatGraph([n]) == "* a38df15 8e1ac3a";
    ParseFormatGraph([n]);
  }

  /** Node `n` is headed by `hash`; a node without entries has no head (JavaScript's `undefined`). */
  predicate HasHead(n: CommitNode, hash: string)
  {
    |n| > 0 && n[0] == hash
  }

  /** Index `i` holds the first node headed by `hash`. */
  predicate IsFirstWithHead(nodes: seq<CommitNode>, hash: string, i: int)
  {
    0 <= i < |nodes| && HasHead(nodes[i], hash) && forall j :: 0 <= j < i ==> !HasHead(nodes[j], hash)
  }

  /** `findParentNode`: the first node headed by `hash`, if any. */
  function FindNode(nodes: seq<CommitNode>, hash: string): (r: Option<CommitNode>)
    ensures r.None? <==> forall i :: 0 <= i < |nodes| ==> !HasHead(nodes[i], hash)
    ensures r.Some? ==> exists i :: IsFirstWithHead(nodes, hash, i) && r.value == nodes[i]
  {
    if nodes == [] then None
    else if HasHead(nodes[0], hash) then
      assert IsFirstWithHead(nodes, hash, 0);
      Some(nodes[0])
    else
      var r := FindNode(nodes[1..], hash);
      assert forall i :: 1 <= i < |nodes| ==> nodes[i] == nodes[1..][i - 1];
      if r.Some? then
        var i :| IsFirstWithHead(nodes[1..], hash, i) && r.value == nodes[1..][i];
        assert IsFirstWithHead(nodes, hash, i + 1);
        r
      else r
  }

  /** The hashes that head some node. */
  function HeadSet(nodes: seq<CommitNode>): (s: set<string>)
    ensures |s| <= |nodes|
  {
    if nodes == [] then {}
    else if nodes[0] == [] then HeadSet(nodes[1..])
    else {nodes[0][0]} + HeadSet(nodes[1..])
  }

  /** A hash that a node is found for heads some node. */
  lemma {:induction false} FoundInHeadSet(nodes: seq<CommitNode>, hash: string)
    requires FindNode(nodes, hash).Some?
    ensures hash in HeadSet(nodes)
  {
    if !HasHead(nodes[0], hash) {
      assert FindNode(nodes, hash) == FindNode(nodes[1..], hash);
      FoundInHeadSet(nodes[1..], hash);
    }
  }

  /** `nodes.map(c => c[0])`: the commits' own hashes, in graph order. */
  function Heads(nodes: seq<CommitNode>): (hs: seq<string>)
    requires forall i :: 0 <= i < |nodes| ==> nodes[i] != []
    ensures |hs| == |nodes|
    ensures forall i :: 0 <= i < |nodes| ==> HasHead(nodes[i], hs[i])
  {
    seq(|nodes|, i requires 0 <= i < |nodes| && nodes[i] != [] => nodes[i][0])
  }
}
