/**
 The excerpt of a post (`generate_snippet`): the body with its whitespace
 runs collapsed to single spaces and the runs at both ends dropped, cut
 back to the last space that fits when it is too long, and then marked
 with an ellipsis.
 */
module Snippet {
  import opened Text

  /** U+2026, the horizontal ellipsis appended to a shortened excerpt. */
  const Ellipsis: char := '…'

  /** The length limit `process_posts` uses. */
  const DefaultMaxChars: int := 220

  // ---------------------------------------------------------------------
  // `str.split()` and `' '.join`

  /** Length of the run of non-whitespace characters that `s` starts with. */
  function WordLen(s: string): (w: nat)
    ensures w <= |s|
    ensures |s| > 0 && !IsSpace(s[0]) ==> w > 0
    decreases |s|
  {
    if |s| == 0 || IsSpace(s[0]) then 0 else 1 + WordLen(s[1..])
  }

  /** A word as `split()` returns it: non-empty, without whitespace. */
  predicate IsWord(w: string) {
    |w| > 0 && forall k :: 0 <= k < |w| ==> !IsSpace(w[k])
  }

  predicate AllWords(ws: seq<string>) {
    forall j :: 0 <= j < |ws| ==> IsWord(ws[j])
  }

  /** `s.split()`: the maximal runs of non-whitespace characters, in order. */
  function Words(s: string): seq<string>
    decreases |s|
  {
    if |s| == 0 then []
    else if IsSpace(s[0]) then Words(s[1..])
    else
      var w := WordLen(s);
      [s[..w]] + Words(s[w..])
  }

  /** `' '.join(ws)` */
  function Join(ws: seq<string>): string
    decreases |ws|
  {
    if |ws| == 0 then ""
    else if |ws| == 1 then ws[0]
    else ws[0] + " " + Join(ws[1..])
  }

  /** `' '.join(s.split())` */
  function Collapse(s: string): string {
    Join(Words(s))
  }

  /** Text in which the only whitespace is single spaces between words. */
  predicate Normalized(t: string) {
    && (forall k :: 0 <= k < |t| && IsSpace(t[k]) ==> t[k] == ' ' && 0 < k < |t| - 1)
    && (forall i, j :: 0 <= i < |t| && 0 <= j < |t| && j == i + 1 ==> !(IsSpace(t[i]) && IsSpace(t[j])))
  }

  /** The characters of `s` that are not whitespace, in order. */
  function NonSpace(s: string): string
    decreases |s|
  {
    if |s| == 0 then []
    else (if IsSpace(s[0]) then [] else [s[0]]) + NonSpace(s[1..])
  }

  /** The words written one after the other. */
  function Concat(ws: seq<string>): string
    decreases |ws|
  {
    if |ws| == 0 then "" else ws[0] + Concat(ws[1..])
  }

  /** The run `WordLen` measures is whitespace-free and ends at whitespace
      or at the end of `s`. */
  lemma {:induction false} WordLenSpec(s: string)
    ensures forall k :: 0 <= k < WordLen(s) ==> !IsSpace(s[k])
    ensures WordLen(s) < |s| ==> IsSpace(s[WordLen(s)])
    decreases |s|
  {
    if |s| > 0 && !IsSpace(s[0]) {
      WordLenSpec(s[1..]);
      forall k | 0 < k < WordLen(s) ensures !IsSpace(s[k]) {
        assert s[k] == s[1..][k - 1];
      }
    }
  }

  /** A word followed by whitespace, or by nothing, is measured exactly. */
  lemma {:induction false} WordLenOfWord(w: string, tail: string)
    requires forall k :: 0 <= k < |w| ==> !IsSpace(w[k])
    requires |tail| == 0 || IsSpace(tail[0])
    ensures WordLen(w + tail) == |w|
    decreases |w|
  {
    if |w| > 0 {
      assert (w + tail)[1..] == w[1..] + tail;
      WordLenOfWord(w[1..], tail);
    } else {
      assert w + tail == tail;
    }
  }

  /** `split()` returns words only. */
  lemma {:induction false} WordsAreWords(s: string)
    ensures AllWords(Words(s))
    decreases |s|
  {
    if |s| > 0 {
      if IsSpace(s[0]) {
        WordsAreWords(s[1..]);
      } else {
        var w := WordLen(s);
        WordLenSpec(s);
        WordsAreWords(s[w..]);
        var ws := Words(s);
        assert ws == [s[..w]] + Words(s[w..]);
        forall j | 0 <= j < |ws| ensures IsWord(ws[j]) {
          if j > 0 {
            assert ws[j] == Words(s[w..])[j - 1];
          }
        }
      }
    }
  }

  /** Round trip: splitting words joined by single spaces gives the words
      back. */
  lemma {:induction false} WordsOfJoin(ws: seq<string>)
    requires AllWords(ws)
    ensures Words(Join(ws)) == ws
    decreases |ws|
  {
    if |ws| == 1 {
      WordLenOfWord(ws[0], "");
      assert ws[0] + "" == ws[0];
      assert ws[0][|ws[0]|..] == "";
      assert ws[0][..|ws[0]|] == ws[0];
    } else if |ws| > 1 {
      var rest := Join(ws[1..]);
      assert AllWords(ws[1..]) by {
        forall j | 0 <= j < |ws[1..]| ensures IsWord(ws[1..][j]) {
          assert ws[1..][j] == ws[j + 1];
        }
      }
      WordsOfJoin(ws[1..]);
      var s := ws[0] + (" " + rest);
      assert Join(ws) == s;
      WordLenOfWord(ws[0], " " + rest);
      assert s[..|ws[0]|] == ws[0];
      assert s[|ws[0]|..] == " " + rest;
      assert (" " + rest)[1..] == rest;
    }
  }

  /** Words joined by single spaces are normalized text. */
  lemma {:induction false} JoinNormalized(ws: seq<string>)
    requires AllWords(ws)
    ensures Normalized(Join(ws))
    ensures |ws| > 0 ==> |Join(ws)| > 0 && !IsSpace(Join(ws)[0])
    decreases |ws|
  {
    if |ws| > 1 {
      var w := ws[0];
      var rest := Join(ws[1..]);
      assert AllWords(ws[1..]) by {
        forall j | 0 <= j < |ws[1..]| ensures IsWord(ws[1..][j]) {
          assert ws[1..][j] == ws[j + 1];
        }
      }
      JoinNormalized(ws[1..]);
      var t := Join(ws);
      assert t == w + " " + rest;
      assert forall k :: 0 <= k < |w| ==> t[k] == w[k];
      forall k | 0 <= k < |t| && IsSpace(t[k])
        ensures t[k] == ' ' && 0 < k < |t| - 1 && !IsSpace(t[k + 1])
      {
        if k > |w| {
          assert t[k] == rest[k - |w| - 1];
          assert t[k + 1] == rest[k - |w|];
        }
      }
    }
  }

  /** After the first word of normalized text and the single space behind
      it comes normalized text that starts with a word. */
  lemma NormalizedAfterWord(t: string, w: nat)
    requires Normalized(t) && w < |t| && IsSpace(t[w])
    ensures w + 1 < |t| && !IsSpace(t[w + 1])
    ensures Normalized(t[w + 1..])
  {
    var u := t[w + 1..];
    forall k | 0 <= k < |u| && IsSpace(u[k])
      ensures u[k] == ' ' && 0 < k < |u| - 1 && !IsSpace(u[k + 1])
    {
      assert u[k] == t[w + 1 + k];
    }
  }

  /** `split()` skips a leading whitespace character. */
  lemma WordsSkip(s: string)
    requires |s| > 0 && IsSpace(s[0])
    ensures Words(s) == Words(s[1..])
  {
  }

  /** `split()` takes the leading word, then splits the rest. */
  lemma WordsTake(s: string)
    requires |s| > 0 && !IsSpace(s[0])
    ensures Words(s) == [s[..WordLen(s)]] + Words(s[WordLen(s)..])
  {
  }

  /** Normalized text with a space in it is its first word, then the words
      of the normalized text after the space, of which there is at least
      one. */
  lemma NormalizedWordsSplit(t: string)
    requires Normalized(t) && 0 < |t| && WordLen(t) < |t|
    ensures 0 < WordLen(t)
    ensures Normalized(t[WordLen(t) + 1..])
    ensures Words(t) == [t[..WordLen(t)]] + Words(t[WordLen(t) + 1..])
    ensures |Words(t[WordLen(t) + 1..])| > 0
    ensures t == t[..WordLen(t)] + " " + t[WordLen(t) + 1..]
  {
    var w := WordLen(t);
    WordLenSpec(t);
    NormalizedAfterWord(t, w);
    var u := t[w + 1..];
    assert !IsSpace(t[0]);
    WordsTake(t);
    assert t[w..][1..] == u;
    WordsSkip(t[w..]);
    assert !IsSpace(u[0]) by {
      assert u[0] == t[w + 1];
    }
    WordsTake(u);
    assert t[w] == ' ';
    SplitAround(t, w);
  }

  /** A string is what comes before index `w`, the character there, and what
      comes after. */
  lemma SplitAround(t: string, w: nat)
    requires w < |t|
    ensures t == t[..w] + [t[w]] + t[w + 1..]
  {
  }

  /** Normalized text is the join of its own words. */
  lemma {:induction false} NormalizedJoinWords(t: string)
    requires Normalized(t)
    ensures Join(Words(t)) == t
    decreases |t|
  {
    if |t| > 0 {
      var w := WordLen(t);
      if w == |t| {
        WordLenSpec(t);
        assert t[..w] == t && t[w..] == [];
      } else {
        var u := t[w + 1..];
        NormalizedWordsSplit(t);
        NormalizedJoinWords(u);
      }
    }
  }

  /** The collapsed body is normalized text. */
  lemma CollapseNormalized(s: string)
    ensures Normalized(Collapse(s))
  {
    WordsAreWords(s);
    JoinNormalized(Words(s));
  }

  /** Collapsing leaves text unchanged exactly when it is already normalized. */
  lemma CollapseFixpoint(t: string)
    ensures Collapse(t) == t <==> Normalized(t)
  {
    if Normalized(t) {
      NormalizedJoinWords(t);
    } else {
      CollapseNormalized(t);
    }
  }

  /** Collapsing twice is collapsing once. */
  lemma CollapseIdempotent(s: string)
    ensures Collapse(Collapse(s)) == Collapse(s)
  {
    CollapseNormalized(s);
    CollapseFixpoint(Collapse(s));
  }

  lemma {:induction false} NonSpaceAppend(a: string, b: string)
    ensures NonSpace(a + b) == NonSpace(a) + NonSpace(b)
    decreases |a|
  {
    if |a| > 0 {
      assert (a + b)[1..] == a[1..] + b;
      NonSpaceAppend(a[1..], b);
    } else {
      assert a + b == b;
    }
  }

  lemma {:induction false} NonSpaceOfWord(w: string)
    requires forall k :: 0 <= k < |w| ==> !IsSpace(w[k])
    ensures NonSpace(w) == w
    decreases |w|
  {
    if |w| > 0 {
      NonSpaceOfWord(w[1..]);
    }
  }

  /** The non-whitespace characters of a text are its words, concatenated. */
  lemma {:induction false} NonSpaceWords(s: string)
    ensures NonSpace(s) == Concat(Words(s))
    decreases |s|
  {
    if |s| > 0 {
      if IsSpace(s[0]) {
        NonSpaceWords(s[1..]);
      } else {
        var w := WordLen(s);
        WordLenSpec(s);
        assert s == s[..w] + s[w..];
        NonSpaceAppend(s[..w], s[w..]);
        NonSpaceOfWord(s[..w]);
        NonSpaceWords(s[w..]);
        assert Words(s) == [s[..w]] + Words(s[w..]);
      }
    }
  }

  /** The non-whitespace characters of joined words are the words,
      concatenated. */
  lemma {:induction false} NonSpaceJoin(ws: seq<string>)
    requires AllWords(ws)
    ensures NonSpace(Join(ws)) == Concat(ws)
    decreases |ws|
  {
    if |ws| == 1 {
      NonSpaceOfWord(ws[0]);
      assert Concat(ws) == ws[0] + Concat([]);
    } else if |ws| > 1 {
      assert AllWords(ws[1..]) by {
        forall j | 0 <= j < |ws[1..]| ensures IsWord(ws[1..][j]) {
          assert ws[1..][j] == ws[j + 1];
        }
      }
      NonSpaceJoin(ws[1..]);
      NonSpaceAppend(ws[0] + " ", Join(ws[1..]));
      NonSpaceAppend(ws[0], " ");
      NonSpaceOfWord(ws[0]);
      assert NonSpace(" ") == [];
    }
  }

  /** Collapsing keeps every non-whitespace character, in order: only the
      whitespace changes. */
  lemma CollapseKeepsText(s: string)
    ensures NonSpace(Collapse(s)) == NonSpace(s)
  {
    WordsAreWords(s);
    NonSpaceJoin(Words(s));
    NonSpaceWords(s);
  }

  /** Collapsing keeps the words of the body, in order, so every whitespace
      run between two words becomes exactly one space. */
  lemma CollapseKeepsWords(s: string)
    ensures Words(Collapse(s)) == Words(s)
  {
    WordsAreWords(s);
    WordsOfJoin(Words(s));
  }

  // ---------------------------------------------------------------------
  // Truncation

  /** `snippet.rfind(' ')`, then the cut back to it when it is past index 0. */
  function CutAtLastSpace(p: string): (q: string)
    ensures StartsWith(p, q)
  {
    var last := RFindChar(p, ' ');
    if last > 0 then p[..last] else p
  }

  /** The cut keeps `p` whole when it has no space past index 0; otherwise
      it ends right before the last space of `p`. */
  lemma CutAtLastSpaceSpec(p: string)
    ensures (forall k :: 0 < k < |p| ==> p[k] != ' ') ==> CutAtLastSpace(p) == p
    ensures (exists k :: 0 < k < |p| && p[k] == ' ') ==>
              && 0 < |CutAtLastSpace(p)| < |p|
              && p[|CutAtLastSpace(p)|] == ' '
              && forall k :: |CutAtLastSpace(p)| < k < |p| ==> p[k] != ' '
  {
  }

  /** `generate_snippet(body, max_chars)` */
  function GenerateSnippet(body: string, maxChars: int): (r: string)
    ensures |Collapse(body)| <= maxChars ==> r == Collapse(body)
    ensures |Collapse(body)| > maxChars ==>
              && |r| > 0 && r[|r| - 1] == Ellipsis
              && StartsWith(Collapse(body), r[..|r| - 1])
    ensures 0 <= maxChars < |Collapse(body)| ==> |r| <= maxChars + 1
  {
    var text := Collapse(body);
    if |text| <= maxChars then text
    else
      var p := text[..SliceEnd(maxChars, |text|)];
      var q := CutAtLastSpace(p);
      assert (q + [Ellipsis])[..|q|] == q;
      q + [Ellipsis]
  }

  /** The snippet of a too-long body is its collapsed text cut to the limit,
      cut again before the last space when there is one past index 0, and
      then the ellipsis. */
  lemma SnippetCut(body: string, maxChars: int)
    requires 0 <= maxChars < |Collapse(body)|
    ensures GenerateSnippet(body, maxChars) == CutAtLastSpace(Collapse(body)[..maxChars]) + [Ellipsis]
  {
  }

  /** A shortened snippet never splits a word: it ends where the last space
      among the first `maxChars` characters of the collapsed text stands,
      unless they hold no space past index 0, in which case it keeps all of
      them. */
  lemma SnippetWordBoundary(body: string, maxChars: int)
    requires 0 <= maxChars < |Collapse(body)|
    ensures var n := |GenerateSnippet(body, maxChars)| - 1;
      || (n == maxChars && forall k :: 0 < k < maxChars ==> Collapse(body)[k] != ' ')
      || (&& 0 < n < maxChars && Collapse(body)[n] == ' '
          && forall k :: n < k < maxChars ==> Collapse(body)[k] != ' ')
  {
    var t := Collapse(body);
    var p := t[..maxChars];
    SnippetCut(body, maxChars);
    CutAtLastSpaceSpec(p);
    if exists k :: 0 < k < |p| && p[k] == ' ' {
      var q := CutAtLastSpace(p);
      assert p[|q|] == t[|q|];
      forall k | |q| < k < maxChars ensures t[k] != ' ' {
        assert t[k] == p[k];
      }
    } else {
      forall k | 0 < k < maxChars ensures t[k] != ' ' {
        assert t[k] == p[k];
      }
    }
  }

  /** A body without whitespace that is longer than the limit keeps exactly
      the first `maxChars` characters, then the ellipsis. */
  lemma SnippetOfOneWord(body: string, maxChars: int)
    requires |body| > 0 && forall k :: 0 <= k < |body| ==> !IsSpace(body[k])
    requires 0 <= maxChars < |body|
    ensures GenerateSnippet(body, maxChars) == body[..maxChars] + [Ellipsis]
  {
    WordLenOfWord(body, "");
    assert body + "" == body;
    assert body[..|body|] == body;
    assert Words(body[|body|..]) == [];
    assert Collapse(body) == body;
    CutAtLastSpaceSpec(body[..maxChars]);
  }
}
