/**
 The subset of JavaScript's `String.prototype` and `Array.prototype.join`
 that the evaluation parser relies on, written over `seq<char>`:
 - `IndexOf`      — the first-occurrence search behind split, replace and
                    the first line (the parser does not call `indexOf`)
 - `Split`        — `s.split(sep)` for a one-character separator
 - `Join`         — `pieces.join(sep)` for a one-character separator
 - `ReplaceFirst` — `s.replace(c, repl)` with a one-character STRING pattern
 - `Trim`         — `s.trim()`, as `TrimEnd(TrimStart(s))`
 together with `Count`, which is not a JavaScript builtin and is only used
 to state properties.
 */
module JsString {

  /* ---------------------------------------------------------------------- */
  /* Searching                                                              */
  /* ---------------------------------------------------------------------- */

  /** The position of the first `c` in `s`, or -1 when there is none. */
  function IndexOf(s: seq<char>, c: char): (i: int)
    ensures -1 <= i < |s|
    ensures i == -1 <==> c !in s
    ensures i >= 0 ==> s[i] == c && c !in s[..i]
  {
    if |s| == 0 then -1
    else if s[0] == c then 0
    else
      var i := IndexOf(s[1..], c);
      if i < 0 then -1
      else
        assert s[1..][..i] == s[1..i + 1];
        i + 1
  }

  /** A `c` that follows a `c`-free prefix is the first one. */
  lemma IndexOfAt(p: seq<char>, c: char, q: seq<char>)
    requires c !in p
    ensures IndexOf(p + [c] + q, c) == |p|
  {
    var s := p + [c] + q;
    assert s[|p|] == c;
    assert s[..|p|] == p;
  }

  /** The number of occurrences of `c` in `s`. */
  function Count(s: seq<char>, c: char): (n: nat)
    ensures n <= |s|
    ensures n == 0 <==> c !in s
  {
    if |s| == 0 then 0
    else (if s[0] == c then 1 else 0) + Count(s[1..], c)
  }

  lemma {:induction false} CountAppend(a: seq<char>, b: seq<char>, c: char)
    ensures Count(a + b, c) == Count(a, c) + Count(b, c)
  {
    if |a| == 0 {
      assert a + b == b;
    } else {
      assert (a + b)[1..] == a[1..] + b;
      CountAppend(a[1..], b, c);
    }
  }

  /* ---------------------------------------------------------------------- */
  /* split / join                                                           */
  /* ---------------------------------------------------------------------- */

  /** `pieces.join(sep)`: the pieces with one `sep` between neighbours; the
      empty array joins to the empty string. */
  function Join(pieces: seq<seq<char>>, sep: char): (r: seq<char>)
    ensures |pieces| == 0 ==> r == []
    ensures |pieces| >= 1 ==> |pieces[0]| <= |r| && r[..|pieces[0]|] == pieces[0]
    ensures |pieces| >= 2 ==> |pieces[0]| < |r| && r[|pieces[0]|] == sep
  {
    if |pieces| == 0 then []
    else if |pieces| == 1 then pieces[0]
    else pieces[0] + [sep] + Join(pieces[1..], sep)
  }

  /** Joining `sep`-free pieces puts exactly one `sep` between each pair of
      neighbours: the result holds one `sep` fewer than there are pieces. */
  lemma {:induction false} JoinCount(pieces: seq<seq<char>>, sep: char)
    requires |pieces| >= 1
    requires forall k :: 0 <= k < |pieces| ==> sep !in pieces[k]
    ensures Count(Join(pieces, sep), sep) == |pieces| - 1
    decreases |pieces|
  {
    if |pieces| >= 2 {
      JoinCount(pieces[1..], sep);
      CountAppend(pieces[0], [sep], sep);
      CountAppend(pieces[0] + [sep], Join(pieces[1..], sep), sep);
    }
  }

  /** `s.split(sep)`: the maximal `sep`-free runs of `s`, in order. Like the
      JavaScript method it never returns an empty array: `"".split(sep)` is
      `[""]`, and a `sep` at either end yields an empty first or last piece. */
  function Split(s: seq<char>, sep: char): (r: seq<seq<char>>)
    ensures |r| >= 1
    ensures forall k :: 0 <= k < |r| ==> sep !in r[k]
    ensures Join(r, sep) == s
    decreases |s|
  {
    var i := IndexOf(s, sep);
    if i < 0 then [s]
    else
      var rest := Split(s[i + 1..], sep);
      assert s == s[..i] + [sep] + s[i + 1..];
      [s[..i]] + rest
  }

  /** Split is the inverse of Join on non-empty arrays of `sep`-free pieces:
      together with `Join(Split(s, sep), sep) == s` this makes the two a
      bijection. */
  lemma {:induction false} SplitJoin(pieces: seq<seq<char>>, sep: char)
    requires |pieces| >= 1
    requires forall k :: 0 <= k < |pieces| ==> sep !in pieces[k]
    ensures Split(Join(pieces, sep), sep) == pieces
    decreases |pieces|
  {
    if |pieces| == 1 {
      assert IndexOf(pieces[0], sep) == -1;
    } else {
      var tail := Join(pieces[1..], sep);
      var s := pieces[0] + [sep] + tail;
      IndexOfAt(pieces[0], sep, tail);
      assert s[..|pieces[0]|] == pieces[0];
      assert s[|pieces[0]| + 1..] == tail;
      SplitJoin(pieces[1..], sep);
      assert Split(s, sep) == [pieces[0]] + pieces[1..];
    }
  }

  /** The first piece of a split is everything before the first `sep` (all
      of `s` when there is none), and the other pieces join back to exactly
      the text after that first `sep`. */
  lemma SplitFirst(s: seq<char>, sep: char)
    ensures sep !in s ==> Split(s, sep) == [s]
    ensures forall i :: 0 <= i < |s| && s[i] == sep && sep !in s[..i] ==>
              Split(s, sep)[0] == s[..i] && Join(Split(s, sep)[1..], sep) == s[i + 1..]
  {
  }

  /* ---------------------------------------------------------------------- */
  /* replace                                                                */
  /* ---------------------------------------------------------------------- */

  /** `s.replace(target, replacement)` where `target` is a one-character
      string (not a regular expression), so only the FIRST occurrence is
      replaced. `$` substitution patterns in the replacement are not
      interpreted, so replacements containing `$` are outside the model. */
  function ReplaceFirst(s: seq<char>, target: char, replacement: seq<char>): (r: seq<char>)
    requires '$' !in replacement
    ensures target !in s ==> r == s
    ensures target in s ==>
              exists p, q :: s == p + [target] + q && target !in p && r == p + replacement + q
  {
    var i := IndexOf(s, target);
    if i < 0 then s
    else
      assert s == s[..i] + [target] + s[i + 1..];
      s[..i] + replacement + s[i + 1..]
  }

  /** Removing the first `target` lowers its count by one, floored at zero;
      every other character keeps its count. */
  lemma RemoveFirstCount(s: seq<char>, target: char, c: char)
    ensures Count(ReplaceFirst(s, target, []), c) ==
              if c != target then Count(s, c)
              else if Count(s, c) == 0 then 0
              else Count(s, c) - 1
  {
    var i := IndexOf(s, target);
    if i >= 0 {
      var p, q := s[..i], s[i + 1..];
      assert s == p + [target] + q;
      assert ReplaceFirst(s, target, []) == p + q;
      CountAppend(p, [target], c);
      CountAppend(p + [target], q, c);
      CountAppend(p, q, c);
    }
  }

  /* ---------------------------------------------------------------------- */
  /* trim                                                                   */
  /* ---------------------------------------------------------------------- */

  /** The characters `trim` strips: ECMAScript's WhiteSpace (TAB, VT, FF,
      ZWNBSP and every Unicode "Zs" space separator) and LineTerminator
      (LF, CR, LS, PS). The Zs list is written out as of Unicode 15; a later
      Unicode version adding a Zs character is not tracked. */
  predicate IsWhitespace(c: char) {
    || c == '\t' || c == '\U{000B}' || c == '\U{000C}' || c == ' '
    || c == '\U{00A0}' || c == '\U{FEFF}'
    || c == '\U{1680}' || ('\U{2000}' <= c <= '\U{200A}')
    || c == '\U{202F}' || c == '\U{205F}' || c == '\U{3000}'
    || c == '\n' || c == '\r' || c == '\U{2028}' || c == '\U{2029}'
  }

  predicate AllWhitespace(s: seq<char>) {
    forall k :: 0 <= k < |s| ==> IsWhitespace(s[k])
  }

  lemma AllWhitespaceAppend(a: seq<char>, b: seq<char>)
    requires AllWhitespace(a) && AllWhitespace(b)
    ensures AllWhitespace(a + b)
  {
    assert forall k :: 0 <= k < |a + b| ==> (a + b)[k] == if k < |a| then a[k] else b[k - |a|];
  }

  /** Neither the first nor the last character (if any) is white space. */
  predicate IsTrimmed(s: seq<char>) {
    |s| == 0 || (!IsWhitespace(s[0]) && !IsWhitespace(s[|s| - 1]))
  }

  /** `s.trimStart()`: `s` without its leading white space. The result is
      a suffix of `s`, only white space precedes it, and it does not start
      with white space. */
  function TrimStart(s: seq<char>): (r: seq<char>)
    ensures |r| <= |s| && r == s[|s| - |r|..]
    ensures AllWhitespace(s[..|s| - |r|])
    ensures |r| > 0 ==> !IsWhitespace(r[0])
  {
    if |s| > 0 && IsWhitespace(s[0]) then
      var t := s[1..];
      var r := TrimStart(t);
      assert t[|t| - |r|..] == s[|s| - |r|..];
      assert s[..|s| - |r|] == [s[0]] + t[..|t| - |r|];
      AllWhitespaceAppend([s[0]], t[..|t| - |r|]);
      r
    else s
  }

  /** `s.trimEnd()`: `s` without its trailing white space. The result is a
      prefix of `s`, only white space follows it, and it does not end with
      white space. */
  function TrimEnd(s: seq<char>): (r: seq<char>)
    ensures |r| <= |s| && r == s[..|r|]
    ensures AllWhitespace(s[|r|..])
    ensures |r| > 0 ==> !IsWhitespace(r[|r| - 1])
  {
    if |s| > 0 && IsWhitespace(s[|s| - 1]) then
      var t := s[..|s| - 1];
      var r := TrimEnd(t);
      assert t[..|r|] == s[..|r|];
      assert s[|r|..] == t[|r|..] + [s[|s| - 1]];
      AllWhitespaceAppend(t[|r|..], [s[|s| - 1]]);
      r
    else s
  }

  /** `s.trim()`: `s` without its leading and trailing white space. The
      result does not start or end with white space; `TrimParts` shows it
      is a contiguous slice of `s` with only white space outside it. */
  function Trim(s: seq<char>): (r: seq<char>)
    ensures |r| <= |s|
    ensures IsTrimmed(r)
  {
    var rest := TrimStart(s);
    var r := TrimEnd(rest);
    assert |r| > 0 ==> r[0] == rest[0];
    r
  }

  /** What trim removes: `s` is a white-space prefix, then `Trim(s)`, then
      a white-space suffix. */
  lemma TrimParts(s: seq<char>) returns (p: seq<char>, q: seq<char>)
    ensures s == p + Trim(s) + q
    ensures AllWhitespace(p) && AllWhitespace(q)
  {
    var rest := TrimStart(s);
    var r := TrimEnd(rest);
    TrimStartSplits(s);
    TrimEndSplits(rest);
    p, q := s[..|s| - |rest|], rest[|r|..];
    ConcatAssoc(p, r, q);
  }

  /* Helpers for TrimParts, each proved in a small context. */

  lemma TrimStartSplits(s: seq<char>)
    ensures s == s[..|s| - |TrimStart(s)|] + TrimStart(s)
  {
    var rest := TrimStart(s);
    assert s == s[..|s| - |rest|] + s[|s| - |rest|..];
  }

  lemma TrimEndSplits(s: seq<char>)
    ensures s == TrimEnd(s) + s[|TrimEnd(s)|..]
  {
    var r := TrimEnd(s);
    assert s == s[..|r|] + s[|r|..];
  }

  lemma ConcatAssoc(a: seq<char>, b: seq<char>, c: seq<char>)
    ensures a + b + c == a + (b + c)
  {
  }

  /** Trim is determined by its contract: whenever `s` is a white-space
      prefix, a trimmed middle and a white-space suffix, the middle is
      `Trim(s)`. */
  lemma TrimUnique(p: seq<char>, m: seq<char>, q: seq<char>)
    requires AllWhitespace(p) && AllWhitespace(q) && IsTrimmed(m)
    ensures Trim(p + m + q) == m
  {
    var s := p + m + q;
    if |m| == 0 {
      assert s + [] == s;
      assert AllWhitespace(s) by { assert s == p + q; }
      TrimStartOf(s, []);
    } else {
      assert s == p + (m + q);
      TrimStartOf(p, m + q);
      TrimEndOf(m, q);
    }
  }

  /** A white-space prefix followed by text that does not start with white
      space is exactly what trimStart removes. */
  lemma {:induction false} TrimStartOf(p: seq<char>, t: seq<char>)
    requires AllWhitespace(p)
    requires |t| > 0 ==> !IsWhitespace(t[0])
    ensures TrimStart(p + t) == t
    decreases |p|
  {
    if |p| == 0 {
      assert p + t == t;
    } else {
      assert (p + t)[0] == p[0];
      assert (p + t)[1..] == p[1..] + t;
      TrimStartOf(p[1..], t);
    }
  }

  /** Text that does not end with white space followed by a white-space
      suffix is exactly what trimEnd keeps. */
  lemma {:induction false} TrimEndOf(t: seq<char>, q: seq<char>)
    requires AllWhitespace(q)
    requires |t| > 0 ==> !IsWhitespace(t[|t| - 1])
    ensures TrimEnd(t + q) == t
    decreases |q|
  {
    if |q| == 0 {
      assert t + q == t;
    } else {
      var s := t + q;
      assert s[|s| - 1] == q[|q| - 1];
      assert s[..|s| - 1] == t + q[..|q| - 1];
      TrimEndOf(t, q[..|q| - 1]);
    }
  }

  /** Trimming twice is trimming once. */
  lemma TrimIdempotent(s: seq<char>)
    ensures Trim(Trim(s)) == Trim(s)
  {
    TrimOfTrimmed(Trim(s));
  }

  /** A string that does not start or end with white space is its own trim. */
  lemma TrimOfTrimmed(s: seq<char>)
    requires IsTrimmed(s)
    ensures Trim(s) == s
  {
    TrimUnique([], s, []);
    assert [] + s + [] == s;
  }

  /** Trim yields the empty string exactly for all-white-space input. */
  lemma TrimEmpty(s: seq<char>)
    ensures Trim(s) == [] <==> AllWhitespace(s)
  {
    if AllWhitespace(s) {
      assert s + [] + [] == s;
      TrimUnique(s, [], []);
    } else {
      var p, q := TrimParts(s);
      var k :| 0 <= k < |s| && !IsWhitespace(s[k]);
    }
  }

  /** Trim drops only white space, so it keeps the count of every other
      character and never introduces a character. */
  lemma TrimCount(s: seq<char>, c: char)
    ensures !IsWhitespace(c) ==> Count(Trim(s), c) == Count(s, c)
    ensures c !in s ==> c !in Trim(s)
  {
    var p, q := TrimParts(s);
    var r := Trim(s);
    CountAppend(p, r, c);
    CountAppend(p + r, q, c);
    if !IsWhitespace(c) {
      assert forall k :: 0 <= k < |p| ==> p[k] != c;
      assert forall k :: 0 <= k < |q| ==> q[k] != c;
    }
  }
}
