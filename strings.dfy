/**
 * The JavaScript string built-ins that the site-address normaliser and the
 * input checks of index.js rely on: `trim`, `toLowerCase`, `includes`,
 * `split(sep)[0]`, and the regular-expression replacements `/c+$/ -> ""`.
 * JavaScript strings are sequences of UTF-16 code units; every character these
 * operations test for (whitespace, `/`, `.`, `:`, ASCII letters and digits) is
 * in the Basic Multilingual Plane, so no half of a surrogate pair matches any
 * of them and `seq<char>` gives the same answers, counted in scalar values.
 */
module Strings {

  /** The ECMAScript WhiteSpace and LineTerminator code points: what `trim` removes. */
  predicate IsWhitespace(c: char) {
    || c == '\t' || c == '\n' || c == '\U{B}' || c == '\U{C}' || c == '\r' || c == ' '
    || c == '\U{A0}' || c == '\U{1680}' || ('\U{2000}' <= c <= '\U{200A}')
    || c == '\U{2028}' || c == '\U{2029}' || c == '\U{202F}' || c == '\U{205F}'
    || c == '\U{3000}' || c == '\U{FEFF}'
  }

  predicate AllWhitespace(s: string) {
    forall i :: 0 <= i < |s| ==> IsWhitespace(s[i])
  }

  /** No whitespace at either end. */
  predicate Trimmed(s: string) {
    s == [] || (!IsWhitespace(s[0]) && !IsWhitespace(s[|s| - 1]))
  }

  /** Removes leading whitespace: the rest of `s` after its longest all-whitespace prefix. */
  function TrimStart(s: string): (r: string)
    ensures |r| <= |s| && r == s[|s| - |r|..]
    ensures AllWhitespace(s[..|s| - |r|])
    ensures r == [] || !IsWhitespace(r[0])
  {
    if s != [] && IsWhitespace(s[0]) then
      var r := TrimStart(s[1..]);
      assert s[1..][|s| - 1 - |r|..] == s[|s| - |r|..];
      var skipped := s[..|s| - |r|];
      assert AllWhitespace(skipped) by {
        var rest := s[1..][..|s| - 1 - |r|];
        forall i | 0 <= i < |skipped| ensures IsWhitespace(skipped[i]) {
          if i > 0 { assert skipped[i] == rest[i - 1]; }
        }
      }
      r
    else s
  }

  /** Removes trailing whitespace: `s` without its longest all-whitespace suffix. */
  function TrimEnd(s: string): (r: string)
    ensures r <= s
    ensures AllWhitespace(s[|r|..])
    ensures r == [] || !IsWhitespace(r[|r| - 1])
  {
    if s != [] && IsWhitespace(s[|s| - 1]) then
      var r := TrimEnd(s[..|s| - 1]);
      var skipped := s[|r|..];
      assert AllWhitespace(skipped) by {
        var rest := s[..|s| - 1][|r|..];
        forall i | 0 <= i < |skipped| ensures IsWhitespace(skipped[i]) {
          if i < |rest| { assert skipped[i] == rest[i]; }
        }
      }
      r
    else s
  }

  /** `String.prototype.trim`: the middle of `s` between its whitespace ends. */
  function Trim(s: string): (r: string)
    ensures Trimmed(r) && |r| <= |s|
    ensures r == [] <==> AllWhitespace(s)
    ensures exists i :: MiddleAt(s, r, i)
  {
    var e := TrimEnd(s);
    var r := TrimStart(e);
    assert Trimmed(r) && (r == [] <==> AllWhitespace(s)) by { TrimEnds(s, e, r); }
    assert MiddleAt(s, r, |e| - |r|) by { TrimIsMiddle(s, e, r); }
    r
  }

  /** `r` is the slice of `s` starting at `i`, with only whitespace before and after it. */
  predicate MiddleAt(s: string, r: string, i: int) {
    0 <= i <= |s| - |r| && r == s[i..i + |r|] && AllWhitespace(s[..i]) && AllWhitespace(s[i + |r|..])
  }

  /** `TrimStart(TrimEnd(s))` is a slice of `s` with only whitespace around it. */
  lemma TrimIsMiddle(s: string, e: string, r: string)
    requires e <= s && AllWhitespace(s[|e|..])
    requires |r| <= |e| && r == e[|e| - |r|..] && AllWhitespace(e[..|e| - |r|])
    ensures MiddleAt(s, r, |e| - |r|)
  {
    var i := |e| - |r|;
    assert s[i..i + |r|] == e[i..];
    assert s[..i] == e[..i];
  }

  /** Both ends of `TrimStart(TrimEnd(s))` are non-blank, and it is empty only for blank `s`. */
  lemma TrimEnds(s: string, e: string, r: string)
    requires e == TrimEnd(s) && r == TrimStart(e)
    ensures Trimmed(r)
    ensures r == [] <==> AllWhitespace(s)
  {
    if r != [] {
      assert r[|r| - 1] == e[|e| - 1];
      assert s[|e| - 1] == e[|e| - 1];
      assert !IsWhitespace(s[|e| - 1]);
    } else {
      assert e[..|e|] == e;
      TrimmedAwayIsBlank(s, e);
    }
  }

  lemma TrimmedAwayIsBlank(s: string, e: string)
    requires e <= s && AllWhitespace(e) && AllWhitespace(s[|e|..])
    ensures AllWhitespace(s)
  {
    var tail := s[|e|..];
    forall i | 0 <= i < |s| ensures IsWhitespace(s[i]) {
      if i < |e| { assert s[i] == e[i]; } else { assert s[i] == tail[i - |e|]; }
    }
  }

  lemma {:induction false} TrimStartOfTrimmed(s: string)
    requires s == [] || !IsWhitespace(s[0])
    ensures TrimStart(s) == s
  {
  }

  lemma {:induction false} TrimEndOfTrimmed(s: string)
    requires s == [] || !IsWhitespace(s[|s| - 1])
    ensures TrimEnd(s) == s
  {
  }

  /** Trimming text that has no whitespace at either end changes nothing. */
  lemma TrimOfTrimmed(s: string)
    requires Trimmed(s)
    ensures Trim(s) == s
  {
    TrimEndOfTrimmed(s);
    TrimStartOfTrimmed(s);
  }

  /** Text after a non-blank head keeps its leading whitespace. */
  lemma {:induction false} TrimStartAppend(x: string, y: string)
    requires !AllWhitespace(x)
    ensures TrimStart(x + y) == TrimStart(x) + y
  {
    assert x != [];
    if IsWhitespace(x[0]) {
      assert (x + y)[1..] == x[1..] + y;
      assert !AllWhitespace(x[1..]) by {
        var k :| 0 <= k < |x| && !IsWhitespace(x[k]);
        assert x[1..][k - 1] == x[k];
      }
      TrimStartAppend(x[1..], y);
    }
  }

  /** Text before a non-blank tail keeps its trailing whitespace. */
  lemma {:induction false} TrimEndPrepend(x: string, y: string)
    requires !AllWhitespace(y)
    ensures TrimEnd(x + y) == x + TrimEnd(y)
  {
    assert y != [];
    var xy := x + y;
    assert xy[|xy| - 1] == y[|y| - 1];
    if IsWhitespace(y[|y| - 1]) {
      var init := y[..|y| - 1];
      assert xy[..|xy| - 1] == x + init;
      assert !AllWhitespace(init) by {
        var k :| 0 <= k < |y| && !IsWhitespace(y[k]);
        assert init[k] == y[k];
      }
      TrimEndPrepend(x, init);
      assert TrimEnd(xy) == TrimEnd(x + init);
      assert TrimEnd(y) == TrimEnd(init);
    } else {
      assert TrimEnd(xy) == xy && TrimEnd(y) == y;
    }
  }

  /** The regular-expression replacement `/c+$/ -> ""`: drops every trailing `c`. */
  function DropTrailing(s: string, c: char): (r: string)
    ensures r <= s
    ensures forall i :: |r| <= i < |s| ==> s[i] == c
    ensures r == [] || r[|r| - 1] != c
  {
    if s != [] && s[|s| - 1] == c then DropTrailing(s[..|s| - 1], c) else s
  }

  lemma DropTrailingKeeps(s: string, c: char)
    requires s == [] || s[|s| - 1] != c
    ensures DropTrailing(s, c) == s
  {
  }

  /** Appending more `c`s does not change what `DropTrailing` keeps. */
  lemma {:induction false} DropTrailingAppend(s: string, tail: string, c: char)
    requires forall i :: 0 <= i < |tail| ==> tail[i] == c
    ensures DropTrailing(s + tail, c) == DropTrailing(s, c)
  {
    if tail != [] {
      var st := s + tail;
      assert st[..|st| - 1] == s + tail[..|tail| - 1];
      DropTrailingAppend(s, tail[..|tail| - 1], c);
    } else {
      assert s + tail == s;
    }
  }

  /** A head is never dropped when the tail holds a character other than `c`. */
  lemma {:induction false} DropTrailingPrepend(p: string, t: string, c: char)
    requires t != [] && t[0] != c
    ensures DropTrailing(p + t, c) == p + DropTrailing(t, c)
  {
    var pt := p + t;
    if t[|t| - 1] == c {
      assert |t| > 1;
      assert pt[..|pt| - 1] == p + t[..|t| - 1];
      DropTrailingPrepend(p, t[..|t| - 1], c);
    }
  }

  /** `p` occurs in `s` starting at index `i`. */
  predicate OccursAt(s: string, p: string, i: int) {
    0 <= i && i + |p| <= |s| && s[i..i + |p|] == p
  }

  /** `String.prototype.includes`. */
  predicate Contains(s: string, p: string) {
    exists i :: 0 <= i <= |s| - |p| && OccursAt(s, p, i)
  }

  /** Occurrences inside a slice are occurrences in the whole. */
  lemma ContainsInSlice(s: string, p: string, lo: int, hi: int)
    requires 0 <= lo <= hi <= |s| && Contains(s[lo..hi], p)
    ensures Contains(s, p)
  {
    var k :| 0 <= k <= hi - lo - |p| && OccursAt(s[lo..hi], p, k);
    var t := s[lo..hi];
    forall j | lo + k <= j < lo + k + |p| ensures s[j] == p[j - lo - k] {
      assert s[j] == t[j - lo] == t[k..k + |p|][j - lo - k];
    }
    assert OccursAt(s, p, lo + k);
  }

  /** What occurs in the trimmed text occurs in the text. */
  lemma ContainsInTrim(s: string, p: string)
    requires Contains(Trim(s), p)
    ensures Contains(s, p)
  {
    var r := Trim(s);
    var i :| MiddleAt(s, r, i);
    ContainsInMiddle(s, r, i, p);
  }

  lemma ContainsInMiddle(s: string, r: string, i: int, p: string)
    requires MiddleAt(s, r, i) && Contains(r, p)
    ensures Contains(s, p)
  {
    ContainsInSlice(s, p, i, i + |r|);
  }

  /** Trimming keeps a contiguous piece of the text. */
  lemma TrimContained(s: string)
    ensures Contains(s, Trim(s))
  {
    var r := Trim(s);
    var i :| MiddleAt(s, r, i);
    assert OccursAt(s, r, i);
  }

  lemma SliceContained(s: string, lo: int, hi: int)
    requires 0 <= lo <= hi <= |s|
    ensures Contains(s, s[lo..hi])
  {
    assert OccursAt(s, s[lo..hi], lo);
  }

  /** A slice of a piece of `s` is a piece of `s`. */
  lemma PieceOfPiece(s: string, t: string, lo: int, hi: int)
    requires Contains(s, t) && 0 <= lo <= hi <= |t|
    ensures Contains(s, t[lo..hi])
  {
    var k :| 0 <= k <= |s| - |t| && OccursAt(s, t, k);
    var piece := t[lo..hi];
    var window := s[k + lo..k + hi];
    assert t == s[k..k + |t|];
    forall j | 0 <= j < hi - lo ensures window[j] == piece[j] {
      assert window[j] == s[k + lo + j] == t[lo + j];
    }
    assert OccursAt(s, piece, k + lo);
  }

  /** A suffix of a prefix of a piece of `s` is a piece of `s`. */
  lemma SuffixOfPrefixContained(s: string, t: string, d: string, r: string)
    requires Contains(s, t) && d <= t && |r| <= |d| && r == d[|d| - |r|..]
    ensures Contains(s, r)
  {
    assert r == t[|d| - |r|..|d|];
    PieceOfPiece(s, t, |d| - |r|, |d|);
  }

  /** A piece of a prefix of a piece of `s` is a piece of `s`. */
  lemma PieceOfPrefixContained(s: string, t: string, prefix: string, p: string)
    requires Contains(s, t) && prefix <= t && Contains(prefix, p)
    ensures Contains(s, p)
  {
    assert prefix == t[0..|prefix|];
    PieceOfPiece(s, t, 0, |prefix|);
    ContainsTrans(s, prefix, p);
  }

  /** What occurs in a piece of `s` occurs in `s`. */
  lemma ContainsTrans(s: string, t: string, p: string)
    requires Contains(s, t) && Contains(t, p)
    ensures Contains(s, p)
  {
    var k :| 0 <= k <= |s| - |t| && OccursAt(s, t, k);
    assert s[k..k + |t|] == t;
    ContainsInSlice(s, p, k, k + |t|);
  }

  /**
   * `s.split(sep)[0]` for a non-empty separator: the text before the first
   * occurrence of `sep`, or all of `s` when `sep` does not occur.
   */
  function BeforeFirst(s: string, sep: string): (r: string)
    requires sep != []
    ensures r <= s
    ensures forall i :: 0 <= i < |r| ==> !OccursAt(s, sep, i)
    ensures r == s || OccursAt(s, sep, |r|)
    decreases |s|
  {
    if |s| < |sep| then s
    else if s[..|sep|] == sep then []
    else
      var rest := BeforeFirst(s[1..], sep);
      assert forall i :: 1 <= i ==> (OccursAt(s, sep, i) <==> OccursAt(s[1..], sep, i - 1)) by {
        forall i | 1 <= i ensures OccursAt(s, sep, i) <==> OccursAt(s[1..], sep, i - 1) {
          if i + |sep| <= |s| { assert s[1..][i - 1..i - 1 + |sep|] == s[i..i + |sep|]; }
        }
      }
      [s[0]] + rest
  }

  /** `BeforeFirst` keeps all of `s` exactly when the separator does not occur. */
  lemma BeforeFirstWhole(s: string, sep: string)
    requires sep != []
    ensures BeforeFirst(s, sep) == s <==> !Contains(s, sep)
  {
    var r := BeforeFirst(s, sep);
    if r != s {
      assert OccursAt(s, sep, |r|);
    }
  }

  /** The text before the first separator does not contain the separator. */
  lemma BeforeFirstLacks(s: string, sep: string)
    requires sep != []
    ensures !Contains(BeforeFirst(s, sep), sep)
  {
    var r := BeforeFirst(s, sep);
    forall k | 0 <= k <= |r| - |sep| ensures !OccursAt(r, sep, k) {
      assert r[k..k + |sep|] == s[k..k + |sep|];
      assert !OccursAt(s, sep, k);
    }
  }

  /** ASCII letters lower-cased; every other character unchanged. */
  function LowerChar(c: char): char {
    if 'A' <= c <= 'Z' then (c as int + 32) as char else c
  }

  /** `String.prototype.toLowerCase`, restricted to the ASCII letters. */
  function ToLower(s: string): (r: string)
    ensures |r| == |s|
    ensures forall i :: 0 <= i < |r| ==> !('A' <= r[i] <= 'Z')
    ensures forall i :: 0 <= i < |s| ==> (r[i] == s[i] <==> !('A' <= s[i] <= 'Z'))
    ensures forall i :: 0 <= i < |s| && 'A' <= s[i] <= 'Z' ==> r[i] as int - s[i] as int == 'a' as int - 'A' as int
  {
    seq(|s|, i requires 0 <= i < |s| => LowerChar(s[i]))
  }

  lemma ToLowerSlice(s: string, lo: int, hi: int)
    requires 0 <= lo <= hi <= |s|
    ensures ToLower(s)[lo..hi] == ToLower(s[lo..hi])
  {
  }

  /** An occurrence of an all-lower-case pattern survives lower-casing the text. */
  lemma ContainsLowered(s: string, p: string)
    requires ToLower(p) == p && Contains(s, p)
    ensures Contains(ToLower(s), p)
  {
    var k :| 0 <= k <= |s| - |p| && OccursAt(s, p, k);
    ToLowerSlice(s, k, k + |p|);
    assert OccursAt(ToLower(s), p, k);
  }
}
