/**
 The Python string operations that `build.py` relies on: `str.isspace`, the
 regular-expression class `\w`, `str.strip`, `str.startswith`, `str.find`,
 `str.rfind` and `str.split('\n')`, each stated over `seq<char>`.
 */
module Text {

  /** Python's `str.isspace()`; `str.strip()`, `str.split()` and the regular
      expression class `\s` all use this same set of characters. */
  predicate IsSpace(c: char) {
    || ('\t' <= c <= '\r')
    || ('\U{1C}' <= c <= ' ')
    || c == '\U{85}' || c == '\U{A0}' || c == '\U{1680}'
    || ('\U{2000}' <= c <= '\U{200A}')
    || c == '\U{2028}' || c == '\U{2029}' || c == '\U{202F}' || c == '\U{205F}' || c == '\U{3000}'
  }

  /** The regular-expression class `\w`, restricted to ASCII. */
  predicate IsWordChar(c: char) {
    ('a' <= c <= 'z') || ('A' <= c <= 'Z') || ('0' <= c <= '9') || c == '_'
  }

  predicate AllSpace(s: string) {
    forall k :: 0 <= k < |s| ==> IsSpace(s[k])
  }

  predicate NoNewline(s: string) {
    forall k :: 0 <= k < |s| ==> s[k] != '\n'
  }

  predicate StartsWith(s: string, prefix: string) {
    |prefix| <= |s| && s[..|prefix|] == prefix
  }

  /** `pattern` occurs in `s` starting at index `k`. */
  predicate MatchesAt(s: string, pattern: string, k: int) {
    0 <= k && k + |pattern| <= |s| && s[k..k + |pattern|] == pattern
  }

  /** Number of whitespace characters `str.lstrip()` removes. */
  function LeadingSpace(s: string): (a: nat)
    ensures a <= |s|
    decreases |s|
  {
    if |s| > 0 && IsSpace(s[0]) then 1 + LeadingSpace(s[1..]) else 0
  }

  /** `lstrip()` removes all the leading whitespace and nothing more. */
  lemma {:induction false} LeadingSpaceSpec(s: string)
    ensures AllSpace(s[..LeadingSpace(s)])
    ensures LeadingSpace(s) < |s| ==> !IsSpace(s[LeadingSpace(s)])
    decreases |s|
  {
    if |s| > 0 && IsSpace(s[0]) {
      LeadingSpaceSpec(s[1..]);
      assert s[..LeadingSpace(s)] == [s[0]] + s[1..][..LeadingSpace(s[1..])];
    }
  }

  /** Number of whitespace characters `str.rstrip()` removes. */
  function TrailingSpace(s: string): (b: nat)
    ensures b <= |s|
    decreases |s|
  {
    if |s| > 0 && IsSpace(s[|s| - 1]) then 1 + TrailingSpace(s[..|s| - 1]) else 0
  }

  /** The characters `rstrip()` removes are whitespace, and the one before
      them is not. */
  lemma {:induction false} TrailingSpaceAt(s: string)
    ensures forall k :: |s| - TrailingSpace(s) <= k < |s| ==> IsSpace(s[k])
    ensures TrailingSpace(s) < |s| ==> !IsSpace(s[|s| - TrailingSpace(s) - 1])
    decreases |s|
  {
    if |s| > 0 && IsSpace(s[|s| - 1]) {
      var t := s[..|s| - 1];
      TrailingSpaceAt(t);
      assert forall k :: 0 <= k < |t| ==> t[k] == s[k];
    }
  }

  /** `rstrip()` removes all the trailing whitespace and nothing more. */
  lemma TrailingSpaceSpec(s: string)
    ensures AllSpace(s[|s| - TrailingSpace(s)..])
    ensures TrailingSpace(s) < |s| ==> !IsSpace(s[|s| - TrailingSpace(s) - 1])
  {
    TrailingSpaceAt(s);
    var a := |s| - TrailingSpace(s);
    forall k | 0 <= k < |s[a..]| ensures IsSpace(s[a..][k]) {
      assert s[a..][k] == s[a + k];
    }
  }

  /** `str.strip()`: `s` without its leading and its trailing whitespace. */
  function Strip(s: string): string {
    var a := LeadingSpace(s);
    s[a..|s| - TrailingSpace(s[a..])]
  }

  /** `r` is `s` with its whitespace at both ends cut away: it is the infix
      of `s` that starts at `a`, everything around it is whitespace, it has
      no whitespace at either end, and it is empty exactly when `s` is all
      whitespace. */
  predicate TrimmedInfix(s: string, a: int, r: string) {
    && 0 <= a && a + |r| <= |s|
    && r == s[a..a + |r|]
    && AllSpace(s[..a]) && AllSpace(s[a + |r|..])
    && (r == [] || (!IsSpace(r[0]) && !IsSpace(r[|r| - 1])))
    && (r == [] <==> AllSpace(s))
  }

  /** What `strip()` removes is whitespace and what it keeps has none at
      either end: the result is the infix of `s` that starts after its
      leading whitespace and is followed only by whitespace, and it is empty
      exactly when `s` is all whitespace. */
  lemma StripSpec(s: string)
    ensures TrimmedInfix(s, LeadingSpace(s), Strip(s))
  {
    var a := LeadingSpace(s);
    LeadingSpaceSpec(s);
    TrailingSpaceSpec(s[a..]);
    TrimSpec(s, a, TrailingSpace(s[a..]), Strip(s));
  }

  /** Cutting a whitespace run of `a` characters off the front of `s` and
      one of `c` characters off the back of the rest, where the characters
      next to both cuts are not whitespace, leaves a trimmed infix. */
  lemma TrimSpec(s: string, a: nat, c: nat, r: string)
    requires a + c <= |s| && r == s[a..|s| - c]
    requires AllSpace(s[..a]) && (a < |s| ==> !IsSpace(s[a]))
    requires AllSpace(s[a..][|s[a..]| - c..]) && (c < |s[a..]| ==> !IsSpace(s[a..][|s[a..]| - c - 1]))
    ensures TrimmedInfix(s, a, r)
  {
    var e := |s| - c;
    assert s[e..] == s[a..][e - a..];
    if a < e {
      assert r[e - a - 1] == s[a..][e - a - 1];
    } else {
      assert s == s[..a] + s[e..];
    }
  }

  /** Whitespace in front of a string adds to its leading whitespace. */
  lemma {:induction false} LeadingSpaceAfter(a: string, r: string)
    requires AllSpace(a)
    ensures LeadingSpace(a + r) == |a| + LeadingSpace(r)
    decreases |a|
  {
    if |a| > 0 {
      assert (a + r)[0] == a[0];
      assert (a + r)[1..] == a[1..] + r;
      LeadingSpaceAfter(a[1..], r);
    } else {
      assert a + r == r;
    }
  }

  /** Whitespace behind a string adds to its trailing whitespace. */
  lemma {:induction false} TrailingSpaceBefore(r: string, b: string)
    requires AllSpace(b)
    ensures TrailingSpace(r + b) == |b| + TrailingSpace(r)
    decreases |b|
  {
    if |b| > 0 {
      var s := r + b;
      assert s[|s| - 1] == b[|b| - 1];
      assert s[..|s| - 1] == r + b[..|b| - 1];
      var c := b[..|b| - 1];
      assert AllSpace(c) by {
        forall k | 0 <= k < |c| ensures IsSpace(c[k]) {
          assert c[k] == b[k];
        }
      }
      TrailingSpaceBefore(r, b[..|b| - 1]);
    } else {
      assert r + b == r;
    }
  }

  /** `strip()` has one answer: a string with no whitespace at either end,
      surrounded only by whitespace, is what `strip()` keeps. */
  lemma StripUnique(a: string, m: string, b: string)
    requires AllSpace(a) && AllSpace(b)
    requires m == [] || (!IsSpace(m[0]) && !IsSpace(m[|m| - 1]))
    ensures Strip(a + m + b) == m
  {
    var s := a + m + b;
    if m == [] {
      assert AllSpace(s) by {
        forall k | 0 <= k < |s| ensures IsSpace(s[k]) {
          if k < |a| { assert s[k] == a[k]; } else { assert s[k] == b[k - |a|]; }
        }
      }
      assert Strip(s) == [] by {
        StripSpec(s);
      }
    } else {
      assert Strip(s) == m by {
        assert s == a + (m + b);
        LeadingSpaceAfter(a, m + b);
        assert s[|a|..] == m + b;
        TrailingSpaceBefore(m, b);
        assert TrailingSpace(m) == 0;
        assert s[|a|..|s| - |b|] == m;
      }
    }
  }

  /** Removing leading whitespace first does not change `strip()`. */
  lemma StripDropLeading(s: string)
    ensures Strip(s[LeadingSpace(s)..]) == Strip(s)
  {
    var t := s[LeadingSpace(s)..];
    LeadingSpaceSpec(s);
    assert LeadingSpace(t) == 0;
    assert t[0..] == t;
  }

  /** Stripping a string with no whitespace at either end leaves it
      unchanged. */
  lemma StripTrimmed(s: string)
    requires s == [] || (!IsSpace(s[0]) && !IsSpace(s[|s| - 1]))
    ensures Strip(s) == s
  {
  }

  /** Leading whitespace does not change the result of `strip()`. */
  lemma StripAfterSpace(c: char, s: string)
    requires IsSpace(c)
    ensures Strip([c] + s) == Strip(s)
  {
    assert ([c] + s)[1..] == s;
  }

  /** Where Python's `text[:n]` ends: `n` counts from the end when negative,
      and the result is clamped to the text. */
  function SliceEnd(n: int, len: nat): (e: nat)
    ensures e <= len
  {
    if n >= 0 then (if n < len then n else len)
    else if len + n < 0 then 0 else len + n
  }

  /** `s.find(pattern, start)` for a non-negative `start`: the least index at or
      after `start` where `pattern` occurs, or -1 when there is none. */
  function Find(s: string, pattern: string, start: nat): (r: int)
    ensures r == -1 || (start <= r && MatchesAt(s, pattern, r))
    ensures r == -1 ==> forall k :: start <= k ==> !MatchesAt(s, pattern, k)
    ensures r != -1 ==> forall k :: start <= k < r ==> !MatchesAt(s, pattern, k)
    decreases |s| - start
  {
    if start + |pattern| > |s| then -1
    else if s[start..start + |pattern|] == pattern then start
    else Find(s, pattern, start + 1)
  }

  /** A first occurrence is unique: if `p` is a match and nothing between
      `start` and `p` is, `Find` returns `p`. */
  lemma FindFirst(s: string, pattern: string, start: nat, p: int)
    requires start <= p && MatchesAt(s, pattern, p)
    requires forall k :: start <= k < p ==> !MatchesAt(s, pattern, k)
    ensures Find(s, pattern, start) == p
  {
  }

  /** `s.rfind(c)` for a one-character needle: the greatest index holding `c`,
      or -1 when `c` does not occur. */
  function RFindChar(s: string, c: char): (r: int)
    ensures -1 <= r < |s|
    ensures r >= 0 ==> s[r] == c
    ensures forall k :: r < k < |s| ==> s[k] != c
    decreases |s|
  {
    if |s| == 0 then -1
    else if s[|s| - 1] == c then |s| - 1
    else RFindChar(s[..|s| - 1], c)
  }

  /** Index of the first newline of `s`, or `|s|` when it has none. */
  function LineEnd(s: string): (n: nat)
    ensures n <= |s|
    ensures NoNewline(s[..n])
    ensures n < |s| ==> s[n] == '\n'
    decreases |s|
  {
    if |s| == 0 || s[0] == '\n' then 0 else 1 + LineEnd(s[1..])
  }

  /** A string without a newline is all one line. */
  lemma {:induction false} LineEndNoNewline(s: string)
    requires NoNewline(s)
    ensures LineEnd(s) == |s|
    decreases |s|
  {
    if |s| > 0 {
      LineEndNoNewline(s[1..]);
    }
  }

  /** `'\n'.join(lines)` */
  function JoinLines(lines: seq<string>): string
    requires |lines| > 0
    decreases |lines|
  {
    if |lines| == 1 then lines[0] else lines[0] + "\n" + JoinLines(lines[1..])
  }

  /** `s.split('\n')`: the pieces between newlines, at least one, none holding
      a newline, which rejoined give back `s`. */
  function SplitLines(s: string): (lines: seq<string>)
    ensures |lines| > 0
    ensures forall k :: 0 <= k < |lines| ==> NoNewline(lines[k])
    ensures JoinLines(lines) == s
    decreases |s|
  {
    var n := LineEnd(s);
    if n == |s| then [s]
    else
      var rest := SplitLines(s[n + 1..]);
      assert s == s[..n] + "\n" + s[n + 1..];
      [s[..n]] + rest
  }

  /** The other direction of the round trip: splitting a join of newline-free
      lines gives back those lines. */
  lemma {:induction false} SplitJoinLines(lines: seq<string>)
    requires |lines| > 0
    requires forall k :: 0 <= k < |lines| ==> NoNewline(lines[k])
    ensures SplitLines(JoinLines(lines)) == lines
    decreases |lines|
  {
    var s := JoinLines(lines);
    var l0 := lines[0];
    if |lines| == 1 {
      assert s == l0;
      var n := LineEnd(s);
      if n < |s| {
        assert false;
      }
    } else {
      var rest := JoinLines(lines[1..]);
      assert s == l0 + "\n" + rest;
      var n := LineEnd(s);
      assert s[..|l0|] == l0;
      if n < |l0| {
        assert false;
      }
      assert s[|l0|] == '\n';
      if n > |l0| {
        assert false;
      }
      assert s[..n] == l0;
      assert s[n + 1..] == rest;
      SplitJoinLines(lines[1..]);
    }
  }
}
