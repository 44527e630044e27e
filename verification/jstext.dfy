/** The JavaScript string operations the explorer applies to git output, on `seq<char>`. */
module JsText {

  import Seqs

  /** `s.split(sep)` for a one-character separator: every piece between separators, empty ones included. */
  function Split(s: string, sep: char): (parts: seq<string>)
    ensures |parts| >= 1
    ensures forall i :: 0 <= i < |parts| ==> sep !in parts[i]
    ensures forall i, c :: 0 <= i < |parts| && c in parts[i] ==> c in s
    ensures Join(parts, sep) == s
    decreases |s|
  {
    if s == [] then [""]
    else
      var rest := Split(s[1..], sep);
      assert forall c :: c in s[1..] ==> c in s;
      if s[0] == sep then
        assert forall i :: 1 <= i < |[""] + rest| ==> ([""] + rest)[i] == rest[i - 1];
        assert ([""] + rest)[1..] == rest;
        [""] + rest
      else
        var parts := [[s[0]] + rest[0]] + rest[1..];
        assert parts[1..] == rest[1..];
        assert s == [s[0]] + s[1..];
        parts
  }

  /** `parts.join(sep)`. */
  function Join(parts: seq<string>, sep: char): string
  {
    if parts == [] then ""
    else if |parts| == 1 then parts[0]
    else parts[0] + [sep] + Join(parts[1..], sep)
  }

  /** Every character of a joined string is the separator or comes from one of the pieces. */
  lemma {:induction false} JoinChars(parts: seq<string>, sep: char, p: char -> bool)
    requires p(sep)
    requires forall i, k :: 0 <= i < |parts| && 0 <= k < |parts[i]| ==> p(parts[i][k])
    ensures forall k :: 0 <= k < |Join(parts, sep)| ==> p(Join(parts, sep)[k])
  {
    if |parts| > 1 {
      JoinChars(parts[1..], sep, p);
      var rest := Join(parts[1..], sep);
      assert Join(parts, sep) == parts[0] + [sep] + rest;
      forall k | 0 <= k < |Join(parts, sep)|
        ensures p(Join(parts, sep)[k])
      {
        if k < |parts[0]| {
          assert Join(parts, sep)[k] == parts[0][k];
        } else if k > |parts[0]| {
          assert Join(parts, sep)[k] == rest[k - |parts[0]| - 1];
        }
      }
    }
  }

  /** Concatenating the pieces gives the string with every separator removed. */
  lemma {:induction false} ConcatSplit(s: string, sep: char, keep: char -> bool)
    requires forall c :: keep(c) == (c != sep)
    ensures Seqs.Concat(Split(s, sep)) == Seqs.Filter(keep, s)
    decreases |s|
  {
    if s != [] {
      ConcatSplit(s[1..], sep, keep);
      var rest := Split(s[1..], sep);
      if s[0] == sep {
        assert Split(s, sep) == [""] + rest;
        assert (["" ] + rest)[1..] == rest;
      } else {
        var parts := [[s[0]] + rest[0]] + rest[1..];
        assert Split(s, sep) == parts;
        assert parts[1..] == rest[1..];
        assert Seqs.Concat(rest) == rest[0] + Seqs.Concat(rest[1..]);
      }
    }
  }

  /** A piece without separator splits to itself. */
  lemma {:induction false} SplitNoSeparator(p: string, sep: char)
    requires sep !in p
    ensures Split(p, sep) == [p]
  {
    if p != [] {
      SplitNoSeparator(p[1..], sep);
    }
  }

  /** The first piece ends at the first separator. */
  lemma {:induction false} SplitAtSeparator(p: string, rest: string, sep: char)
    requires sep !in p
    ensures Split(p + [sep] + rest, sep) == [p] + Split(rest, sep)
  {
    var s := p + [sep] + rest;
    if p == [] {
      assert s[0] == sep && s[1..] == rest;
    } else {
      assert s[0] == p[0];
      assert s[1..] == p[1..] + [sep] + rest;
      SplitAtSeparator(p[1..], rest, sep);
      assert [p[0]] + p[1..] == p;
    }
  }

  /** Splitting undoes joining when no piece holds the separator. */
  lemma {:induction false} SplitJoin(parts: seq<string>, sep: char)
    requires |parts| >= 1
    requires forall i :: 0 <= i < |parts| ==> sep !in parts[i]
    ensures Split(Join(parts, sep), sep) == parts
  {
    if |parts| == 1 {
      SplitNoSeparator(parts[0], sep);
    } else {
      SplitJoin(parts[1..], sep);
      SplitAtSeparator(parts[0], Join(parts[1..], sep), sep);
      assert [parts[0]] + parts[1..] == parts;
    }
  }

  /** The characters JavaScript's `trim` removes: WhiteSpace and LineTerminator of ECMAScript. */
  predicate IsJsWhitespace(c: char)
  {
    c == '\t' || c == '\n' || c == '\U{B}' || c == '\U{C}' || c == '\r' || c == ' '
    || c == '\U{A0}' || c == '\U{1680}' || ('\U{2000}' <= c <= '\U{200A}')
    || c == '\U{2028}' || c == '\U{2029}' || c == '\U{202F}' || c == '\U{205F}'
    || c == '\U{3000}' || c == '\U{FEFF}'
  }

  /** `s.trimStart()`. */
  function TrimStart(s: string): (r: string)
    ensures |r| <= |s| && r == s[|s| - |r|..]
    ensures forall k :: 0 <= k < |s| - |r| ==> IsJsWhitespace(s[k])
    ensures r == [] || !IsJsWhitespace(r[0])
  {
    if s != [] && IsJsWhitespace(s[0]) then TrimStart(s[1..]) else s
  }

  /** `s.trimEnd()`. */
  function TrimEnd(s: string): (r: string)
    ensures |r| <= |s| && r == s[..|r|]
    ensures forall k :: |r| <= k < |s| ==> IsJsWhitespace(s[k])
    ensures r == [] || !IsJsWhitespace(r[|r| - 1])
  {
    if s != [] && IsJsWhitespace(s[|s| - 1]) then TrimEnd(s[..|s| - 1]) else s
  }

  /** `r` is `s` with whitespace dropped from both ends, `i` characters of it from the front. */
  predicate IsTrimmedAt(s: string, r: string, i: int)
  {
    && 0 <= i <= |s| - |r|
    && r == s[i..i + |r|]
    && (forall k :: 0 <= k < i ==> IsJsWhitespace(s[k]))
    && (forall k :: i + |r| <= k < |s| ==> IsJsWhitespace(s[k]))
  }

  /** `s.trim()`: the infix left after dropping whitespace at both ends. */
  function Trim(s: string): (r: string)
    ensures exists i :: IsTrimmedAt(s, r, i)
    ensures r == [] || (!IsJsWhitespace(r[0]) && !IsJsWhitespace(r[|r| - 1]))
  {
    var front := TrimStart(s);
    var r := TrimEnd(front);
    TrimmedInTwoSteps(s, front, r);
    r
  }

  /** Dropping a whitespace prefix, then a whitespace suffix of what is left, trims at the prefix length. */
  lemma TrimmedInTwoSteps(s: string, front: string, r: string)
    requires |front| <= |s| && front == s[|s| - |front|..]
    requires forall k :: 0 <= k < |s| - |front| ==> IsJsWhitespace(s[k])
    requires |r| <= |front| && r == front[..|r|]
    requires forall k :: |r| <= k < |front| ==> IsJsWhitespace(front[k])
    ensures IsTrimmedAt(s, r, |s| - |front|)
  {
    var i := |s| - |front|;
    assert forall k :: i + |r| <= k < |s| ==> s[k] == front[k - i];
  }

  /** Whitespace in front of a word that starts and ends with non-whitespace is all `trim` removes. */
  lemma {:induction false} TrimPadded(pad: string, word: string)
    requires forall k :: 0 <= k < |pad| ==> IsJsWhitespace(pad[k])
    requires word == [] || (!IsJsWhitespace(word[0]) && !IsJsWhitespace(word[|word| - 1]))
    ensures Trim(pad + word) == word
  {
    if pad == [] {
      assert pad + word == word;
    } else {
      assert (pad + word)[1..] == pad[1..] + word;
      TrimPadded(pad[1..], word);
    }
  }

  /** `s.startsWith(p)`. */
  predicate StartsWith(s: string, p: string)
  {
    |p| <= |s| && s[..|p|] == p
  }

  /** `s.endsWith(p)`. */
  predicate EndsWith(s: string, p: string)
  {
    |p| <= |s| && s[|s| - |p|..] == p
  }

  /** A string ending with `"/" + name` also ends with `name`. */
  lemma EndsWithSuffix(s: string, dir: string, name: string)
    requires EndsWith(s, dir + name)
    ensures EndsWith(s, name)
  {
    assert s[|s| - |name|..] == s[|s| - |dir + name|..][|dir|..];
  }

  /** `sub` occurs in `s` starting at index `k`. */
  predicate OccursAt(s: string, sub: string, k: int)
  {
    0 <= k && k + |sub| <= |s| && s[k..k + |sub|] == sub
  }

  /** `s.indexOf(sub, from)`: the first occurrence at or after `from`, or -1. */
  function IndexFrom(s: string, sub: string, from: nat): (r: int)
    requires from <= |s|
    ensures r == -1 || (from <= r && OccursAt(s, sub, r))
    ensures forall k :: from <= k && (r == -1 || k < r) ==> !OccursAt(s, sub, k)
    decreases |s| - from
  {
    if from + |sub| > |s| then -1
    else if s[from..from + |sub|] == sub then from
    else IndexFrom(s, sub, from + 1)
  }

  /** `s.indexOf(sub)`. */
  function IndexOf(s: string, sub: string): (r: int)
    ensures r == -1 <==> forall k :: !OccursAt(s, sub, k)
    ensures r != -1 ==> OccursAt(s, sub, r) && forall k :: 0 <= k < r ==> !OccursAt(s, sub, k)
  {
    IndexFrom(s, sub, 0)
  }

  /** `r` is `s` with the character at `i`, the first `c` in `s`, taken out. */
  predicate RemovedAt(s: string, c: char, i: int, r: string)
  {
    0 <= i < |s| && s[i] == c && c !in s[..i] && r == s[..i] + s[i + 1..]
  }

  /** `s.replace(c, "")` with a one-character string pattern: only the first occurrence goes. */
  function RemoveFirst(s: string, c: char): (r: string)
    ensures |r| <= |s|
  {
    if s == [] then []
    else if s[0] == c then s[1..]
    else [s[0]] + RemoveFirst(s[1..], c)
  }

  /** `RemoveFirst` deletes exactly the first `c` and leaves a string without `c` alone. */
  lemma {:induction false} RemoveFirstSpec(s: string, c: char)
    ensures c !in s ==> RemoveFirst(s, c) == s
    ensures c in s ==> exists i :: RemovedAt(s, c, i, RemoveFirst(s, c))
  {
    if s != [] {
      if s[0] == c {
        assert s[..0] + s[1..] == s[1..];
        assert RemovedAt(s, c, 0, RemoveFirst(s, c));
      } else {
        RemoveFirstSpec(s[1..], c);
        RemoveFirstCons(s, c, RemoveFirst(s[1..], c));
        assert RemoveFirst(s, c) == [s[0]] + RemoveFirst(s[1..], c);
      }
    }
  }

  /** Putting back a leading character that is not `c` keeps "first occurrence removed". */
  lemma RemoveFirstCons(s: string, c: char, rest: string)
    requires s != [] && s[0] != c
    requires c !in s[1..] ==> rest == s[1..]
    requires c in s[1..] ==> exists i :: RemovedAt(s[1..], c, i, rest)
    ensures c !in s ==> [s[0]] + rest == s
    ensures c in s ==> exists i :: RemovedAt(s, c, i, [s[0]] + rest)
  {
    assert s == [s[0]] + s[1..];
    if c in s[1..] {
      var i :| RemovedAt(s[1..], c, i, rest);
      assert s[..i + 1] == [s[0]] + s[1..][..i];
      assert s[i + 2..] == s[1..][i + 1..];
      assert RemovedAt(s, c, i + 1, [s[0]] + rest);
    }
  }

  /** The first occurrence is the one right after a prefix free of `c`. */
  lemma {:induction false} RemoveFirstAfter(p: string, c: char, rest: string)
    requires c !in p
    ensures RemoveFirst(p + [c] + rest, c) == p + rest
  {
    var s := p + [c] + rest;
    if p == [] {
      assert s == [c] + rest;
      assert s[1..] == rest;
    } else {
      assert s[0] == p[0] && p[0] != c;
      assert s[1..] == p[1..] + [c] + rest;
      RemoveFirstAfter(p[1..], c, rest);
      assert RemoveFirst(s, c) == [s[0]] + RemoveFirst(s[1..], c);
      assert [p[0]] + (p[1..] + rest) == p + rest;
    }
  }

  /** `s.slice(0, n)`. */
  function Take(s: string, n: nat): (r: string)
    ensures |r| <= n
    ensures |r| == if |s| < n then |s| else n
    ensures r == s[..|r|]
  {
    if |s| <= n then s else s[..n]
  }
}
