/**
 * The handful of Python `str` operations the core relies on, restricted to
 * ASCII: `lower`, `isalnum`, `startswith`, `strip`, `split()` (on runs of
 * whitespace) and `split(sep)` (on every occurrence of one character).
 */
module Text {

  /** The ASCII characters for which Python's `str.isspace()` holds: tab, line
      feed, vertical tab, form feed, carriage return, the four separators
      0x1C-0x1F and the space. `split()` and `strip()` without arguments use
      exactly these. */
  const Whitespace: set<char> :=
    {'\t', '\n', '\U{0B}', '\U{0C}', '\r', '\U{1C}', '\U{1D}', '\U{1E}', '\U{1F}', ' '}

  predicate IsUpper(c: char) { 'A' <= c <= 'Z' }
  predicate IsLower(c: char) { 'a' <= c <= 'z' }
  predicate IsDigit(c: char) { '0' <= c <= '9' }
  predicate IsAlnumChar(c: char) { IsUpper(c) || IsLower(c) || IsDigit(c) }

  /** Python's `str.isalnum()`: non-empty and every character a letter or a digit. */
  predicate IsAlnum(s: string) {
    |s| > 0 && forall k :: 0 <= k < |s| ==> IsAlnumChar(s[k])
  }

  function LowerChar(c: char): char {
    if IsUpper(c) then (c as int - 'A' as int + 'a' as int) as char else c
  }

  /** Python's `str.lower()` on ASCII: each upper-case letter is replaced by its
      lower-case letter, every other character is kept, position by position. */
  function Lower(s: string): (r: string)
    ensures |r| == |s|
    ensures forall k :: 0 <= k < |s| ==> r[k] == LowerChar(s[k])
  {
    if s == [] then [] else [LowerChar(s[0])] + Lower(s[1..])
  }

  /** Lower-casing twice is lower-casing once. */
  lemma LowerIdempotent(s: string)
    ensures Lower(Lower(s)) == Lower(s)
  {
  }

  /** Characters that are not letters (whitespace, separators, punctuation) pass
      through `lower` unchanged. */
  lemma LowerKeeps(s: string, c: char)
    requires !IsUpper(c) && !IsLower(c)
    ensures c in Lower(s) <==> c in s
  {
    if c in s {
      var k :| 0 <= k < |s| && s[k] == c;
      assert Lower(s)[k] == c;
    }
    if c in Lower(s) {
      var k :| 0 <= k < |s| && Lower(s)[k] == c;
      assert s[k] == c;
    }
  }

  /** Python's `str.startswith(prefix)`. */
  predicate StartsWith(s: string, prefix: string) {
    |prefix| <= |s| && s[..|prefix|] == prefix
  }

  /** The length of the longest prefix of `s` made of characters in `cs`. */
  function SpanIn(s: string, cs: set<char>): (n: nat)
    ensures n <= |s|
    ensures forall k :: 0 <= k < n ==> s[k] in cs
    ensures n < |s| ==> s[n] !in cs
  {
    if s != [] && s[0] in cs then 1 + SpanIn(s[1..], cs) else 0
  }

  /** The length of the longest prefix of `s` made of characters not in `cs`. */
  function SpanNotIn(s: string, cs: set<char>): (n: nat)
    ensures n <= |s|
    ensures forall k :: 0 <= k < n ==> s[k] !in cs
    ensures n < |s| ==> s[n] in cs
  {
    if s != [] && s[0] !in cs then 1 + SpanNotIn(s[1..], cs) else 0
  }

  /** The length of the longest suffix of `s` made of characters in `cs`. */
  function TrailIn(s: string, cs: set<char>): (n: nat)
    ensures n <= |s|
    ensures forall k :: |s| - n <= k < |s| ==> s[k] in cs
    ensures n < |s| ==> s[|s| - 1 - n] !in cs
  {
    if s != [] && s[|s| - 1] in cs then 1 + TrailIn(s[..|s| - 1], cs) else 0
  }

  /** `s[i..j]` is what stripping the characters `cs` from both ends of `s`
      leaves: everything outside is in `cs` and, unless nothing is left, the
      first and last characters kept are not. */
  ghost predicate StripBounds(s: string, cs: set<char>, i: int, j: int)
    requires 0 <= i <= j <= |s|
  {
    && (forall k :: 0 <= k < i ==> s[k] in cs)
    && (forall k :: j <= k < |s| ==> s[k] in cs)
    && (i < j ==> s[i] !in cs && s[j - 1] !in cs)
  }

  ghost predicate StripsTo(s: string, cs: set<char>, r: string) {
    exists i, j :: 0 <= i <= j <= |s| && StripBounds(s, cs, i, j) && r == s[i..j]
  }

  /** Python's `s.strip(chars)`: drop leading, then trailing, characters in `cs`. */
  function StripChars(s: string, cs: set<char>): (r: string)
    ensures StripsTo(s, cs, r)
  {
    var i := SpanIn(s, cs);
    var j := |s| - TrailIn(s[i..], cs);
    assert forall k :: j <= k < |s| ==> s[k] == s[i..][k - i];
    assert StripBounds(s, cs, i, j);
    s[i..j]
  }

  /** The slice `StripChars` keeps, as indices into `s`. */
  lemma StripCharsSlice(s: string, cs: set<char>) returns (i: int, j: int)
    ensures 0 <= i <= j <= |s| && StripBounds(s, cs, i, j) && StripChars(s, cs) == s[i..j]
  {
    i := SpanIn(s, cs);
    j := |s| - TrailIn(s[i..], cs);
    assert forall k :: j <= k < |s| ==> s[k] == s[i..][k - i];
  }

  /** The characterisation of stripping admits a single slice. */
  lemma StripBoundsUnique(s: string, cs: set<char>, i1: int, j1: int, i2: int, j2: int)
    requires 0 <= i1 <= j1 <= |s| && StripBounds(s, cs, i1, j1)
    requires 0 <= i2 <= j2 <= |s| && StripBounds(s, cs, i2, j2)
    ensures s[i1..j1] == s[i2..j2]
  {
    if i1 < j1 && i2 < j2 {
      assert i1 == i2 && j1 == j2;
    } else if i1 < j1 || i2 < j2 {
      assert false;
    }
  }

  /** `StripChars` is the only result the characterisation allows. */
  lemma StripCharsUnique(s: string, cs: set<char>, r: string)
    requires StripsTo(s, cs, r)
    ensures r == StripChars(s, cs)
  {
    var i1, j1 :| 0 <= i1 <= j1 <= |s| && StripBounds(s, cs, i1, j1) && r == s[i1..j1];
    var i2, j2 := StripCharsSlice(s, cs);
    StripBoundsUnique(s, cs, i1, j1, i2, j2);
  }

  /** A string made only of characters in `cs` strips to the empty string. */
  lemma StripAllGone(s: string, cs: set<char>)
    requires forall k :: 0 <= k < |s| ==> s[k] in cs
    ensures StripChars(s, cs) == []
  {
    var i, j := StripCharsSlice(s, cs);
  }

  /** When `s` starts with a character outside `cs`, stripping keeps a prefix of `s`. */
  lemma StripKeepsPrefix(s: string, cs: set<char>)
    requires s != [] && s[0] !in cs
    ensures StartsWith(s, StripChars(s, cs))
  {
    var i, j := StripCharsSlice(s, cs);
  }

  /** When neither end of `s` is in `cs`, stripping changes nothing. */
  lemma StripNothing(s: string, cs: set<char>)
    requires s != [] && s[0] !in cs && s[|s| - 1] !in cs
    ensures StripChars(s, cs) == s
  {
    assert StripBounds(s, cs, 0, |s|);
    assert s[0..|s|] == s;
    StripCharsUnique(s, cs, s);
  }

  /** Python's `str.strip()` without arguments. */
  function Strip(s: string): string {
    StripChars(s, Whitespace)
  }

  /** A piece of `split()`: non-empty and free of whitespace. */
  predicate IsWord(w: string) {
    w != [] && forall k :: 0 <= k < |w| ==> w[k] !in Whitespace
  }

  /** Python's `str.split()` without arguments: the maximal runs of
      non-whitespace characters, in order. */
  function Split(s: string): (words: seq<string>)
    ensures forall k :: 0 <= k < |words| ==> IsWord(words[k])
    decreases |s|
  {
    var i := SpanIn(s, Whitespace);
    if i == |s| then []
    else
      var rest := s[i..];
      var n := SpanNotIn(rest, Whitespace);
      [rest[..n]] + Split(rest[n..])
  }

  /** The words joined by single spaces, as `" ".join(words)`. */
  function JoinWords(words: seq<string>): string {
    if words == [] then []
    else if |words| == 1 then words[0]
    else words[0] + " " + JoinWords(words[1..])
  }

  /** Leading whitespace does not change what `split()` returns. */
  lemma SplitSkipsSpace(c: char, t: string)
    requires c in Whitespace
    ensures Split([c] + t) == Split(t)
  {
    var s := [c] + t;
    assert s[1..] == t;
    var i := SpanIn(t, Whitespace);
    assert SpanIn(s, Whitespace) == 1 + i;
    assert s[1 + i..] == t[i..];
  }

  /** A word followed by nothing or by whitespace splits off as one piece. */
  lemma SplitWord(w: string, t: string)
    requires IsWord(w)
    requires t == [] || t[0] in Whitespace
    ensures Split(w + t) == [w] + Split(t)
  {
    var s := w + t;
    assert s[0] == w[0];
    assert SpanIn(s, Whitespace) == 0;
    assert s[0..] == s;
    assert forall k :: 0 <= k < |w| ==> s[k] == w[k];
    assert t != [] ==> s[|w|] == t[0];
    var n := SpanNotIn(s, Whitespace);
    assert s[..n] == w;
    assert s[n..] == t;
  }

  /** A word, a space and the rest split into the word and the pieces of the rest. */
  lemma SplitWordSpace(w: string, t: string)
    requires IsWord(w)
    ensures Split(w + " " + t) == [w] + Split(t)
  {
    assert w + " " + t == w + ([' '] + t);
    SplitWord(w, [' '] + t);
    SplitSkipsSpace(' ', t);
  }

  /** Splitting single-space-joined words gives the words back. */
  lemma {:induction false} SplitJoinWords(words: seq<string>)
    requires forall k :: 0 <= k < |words| ==> IsWord(words[k])
    ensures Split(JoinWords(words)) == words
  {
    if words == [] {
      assert Split([]) == [];
    } else if |words| == 1 {
      SplitWord(words[0], []);
      assert words[0] + [] == words[0];
      assert Split([]) == [];
    } else {
      SplitWordSpace(words[0], JoinWords(words[1..]));
      SplitJoinWords(words[1..]);
      assert words == [words[0]] + words[1..];
    }
  }

  /** Python's `s.split(sep)` for a single character: the pieces between
      occurrences of `sep`, empty pieces included; always at least one piece. */
  function SplitOn(s: string, sep: char): (fields: seq<string>)
    ensures |fields| >= 1
    ensures forall k :: 0 <= k < |fields| ==> sep !in fields[k]
    decreases |s|
  {
    var n := SpanNotIn(s, {sep});
    if n == |s| then [s] else [s[..n]] + SplitOn(s[n + 1..], sep)
  }

  /** `sep.join(fields)`. */
  function JoinOn(fields: seq<string>, sep: char): string
    requires |fields| >= 1
  {
    if |fields| == 1 then fields[0] else fields[0] + [sep] + JoinOn(fields[1..], sep)
  }

  /** Joining the pieces of `split(sep)` with `sep` rebuilds the string. */
  lemma {:induction false} JoinOnSplitOn(s: string, sep: char)
    ensures JoinOn(SplitOn(s, sep), sep) == s
    decreases |s|
  {
    var n := SpanNotIn(s, {sep});
    if n < |s| {
      JoinOnSplitOn(s[n + 1..], sep);
      var fields := SplitOn(s, sep);
      assert fields[1..] == SplitOn(s[n + 1..], sep);
      assert s == s[..n] + [sep] + s[n + 1..];
    }
  }

  /** Splitting joined separator-free pieces gives the pieces back. */
  lemma {:induction false} SplitOnJoinOn(fields: seq<string>, sep: char)
    requires |fields| >= 1
    requires forall k :: 0 <= k < |fields| ==> sep !in fields[k]
    ensures SplitOn(JoinOn(fields, sep), sep) == fields
  {
    var f := fields[0];
    if |fields| == 1 {
      assert SpanNotIn(f, {sep}) == |f|;
    } else {
      var rest := JoinOn(fields[1..], sep);
      var s := f + [sep] + rest;
      assert forall k :: 0 <= k < |f| ==> s[k] == f[k];
      assert s[|f|] == sep;
      var n := SpanNotIn(s, {sep});
      assert s[..n] == f;
      assert s[n + 1..] == rest;
      SplitOnJoinOn(fields[1..], sep);
      assert fields == [f] + fields[1..];
    }
  }

  /** A string that splits on `sep` into two or more pieces starts with its
      first piece followed by `sep`. */
  lemma SplitOnFirstField(s: string, sep: char)
    requires |SplitOn(s, sep)| >= 2
    ensures StartsWith(s, SplitOn(s, sep)[0] + [sep])
  {
    var fields := SplitOn(s, sep);
    JoinOnSplitOn(s, sep);
    var tail := JoinOn(fields[1..], sep);
    assert s == (fields[0] + [sep]) + tail;
  }
}
