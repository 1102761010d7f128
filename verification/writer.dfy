/**
 A writer for headers and the round trip it completes with the parser: a
 document rendered from stores with well-formed keys and newline-free texts
 parses back to the map those stores build, and to the stripped body.
 */
module HeaderWriter {
  import opened Text
  import opened Frontmatter

  /** A store the writer can put into a header: a key of word characters,
      texts without newlines, and at least one item in a list (a `key:` line
      with no dash line after it reads back as an empty scalar). */
  predicate Writable(x: Assignment) {
    && IsKey(x.key)
    && match x.value
       case Scalar(t) => NoNewline(t)
       case List(items) => |items| > 0 && forall j :: 0 <= j < |items| ==> NoNewline(items[j])
  }

  predicate AllWritable(stores: seq<Assignment>) {
    forall j :: 0 <= j < |stores| ==> Writable(stores[j])
  }

  /** `key: "text"` */
  function WriteScalarLine(key: string, t: string): string {
    key + ":" + (" " + Quote(t))
  }

  /** `- "item"` */
  function ItemLine(item: string): string {
    "- " + Quote(item)
  }

  function ItemLines(items: seq<string>): seq<string>
    decreases |items|
  {
    if |items| == 0 then [] else [ItemLine(items[0])] + ItemLines(items[1..])
  }

  /** The lines of one store: a scalar on one line, a list as a `key:` line
      followed by one dash line per item. */
  function StoreLines(x: Assignment): seq<string> {
    match x.value
    case Scalar(t) => [WriteScalarLine(x.key, t)]
    case List(items) => [x.key + ":" + ""] + ItemLines(items)
  }

  function HeaderLines(stores: seq<Assignment>): seq<string>
    decreases |stores|
  {
    if |stores| == 0 then [] else StoreLines(stores[0]) + HeaderLines(stores[1..])
  }

  /** Each line preceded by a newline. */
  function Block(lines: seq<string>): string
    decreases |lines|
  {
    if |lines| == 0 then "" else "\n" + lines[0] + Block(lines[1..])
  }

  /** A document with a header holding `stores` and then `body`. */
  function Render(stores: seq<Assignment>, body: string): string {
    "---" + Block(HeaderLines(stores)) + "\n---\n" + body
  }

  /** A line that can sit in a rendered header: no newline, at least two
      characters that do not both read `-`, and no whitespace at either end. */
  predicate SafeLine(l: string) {
    && NoNewline(l)
    && |l| >= 2
    && !(l[0] == '-' && l[1] == '-')
    && !IsSpace(l[0]) && !IsSpace(l[|l| - 1])
  }

  predicate AllSafe(lines: seq<string>) {
    forall j :: 0 <= j < |lines| ==> SafeLine(lines[j])
  }

  // ---------------------------------------------------------------------
  // Parsing the lines of one store

  /** A dash line written for an item reads back as that item. */
  lemma ItemLineRoundTrip(item: string)
    ensures IsDashLine(ItemLine(item))
    ensures ListItem(ItemLine(item)) == item
  {
    var l := ItemLine(item);
    StripTrimmed(l);
    assert l[1..] == [' '] + Quote(item);
    StripAfterSpace(' ', Quote(item));
    StripTrimmed(Quote(item));
    StripQuoteRoundTrip(item);
  }

  /** The items of the written dash lines are the items written. */
  lemma {:induction false} ItemLinesRoundTrip(items: seq<string>)
    ensures |ItemLines(items)| == |items|
    ensures forall j :: 0 <= j < |items| ==> IsDashLine(ItemLines(items)[j])
    ensures ListItems(ItemLines(items)) == items
    decreases |items|
  {
    if |items| > 0 {
      ItemLinesRoundTrip(items[1..]);
      ItemLineRoundTrip(items[0]);
      var ls := ItemLines(items);
      assert ls[1..] == ItemLines(items[1..]);
      forall j | 0 < j < |items| ensures IsDashLine(ls[j]) {
        assert ls[j] == ItemLines(items[1..])[j - 1];
      }
    }
  }

  /** The lines after a store start with a key, or there are none. */
  predicate KeyLineNext(rest: seq<string>) {
    |rest| == 0 || (|rest[0]| > 0 && IsWordChar(rest[0][0]))
  }

  /** A written scalar line is one step that stores the scalar. */
  lemma ScalarStoreStep(x: Assignment, rest: seq<string>)
    requires Writable(x) && x.value.Scalar?
    ensures Step(StoreLines(x) + rest) == StepResult(1, Some(x))
  {
    var t := x.value.text;
    var lines := StoreLines(x) + rest;
    assert lines[0] == x.key + ":" + (" " + Quote(t));
    assert NoNewline(" " + Quote(t)) by {
      assert forall k :: 0 < k < |" " + Quote(t)| ==> (" " + Quote(t))[k] == (Quote(t))[k - 1];
      assert forall k :: 0 < k < |Quote(t)| - 1 ==> Quote(t)[k] == t[k - 1];
    }
    ClassifyKeyLine(x.key, " " + Quote(t));
    StripAfterSpace(' ', Quote(t));
    StripTrimmed(Quote(t));
    StripQuoteRoundTrip(t);
    ScalarStep(lines);
  }

  /** A written list is one step that stores the list, as long as what
      follows it starts with a key. */
  lemma ListStoreStep(x: Assignment, rest: seq<string>)
    requires Writable(x) && x.value.List?
    requires KeyLineNext(rest)
    ensures Step(StoreLines(x) + rest) == StepResult(|StoreLines(x)|, Some(x))
  {
    var items := x.value.items;
    var lines := StoreLines(x) + rest;
    var n := 1 + |items|;
    ItemLinesRoundTrip(items);
    assert lines[0] == x.key + ":" + "";
    ClassifyKeyLine(x.key, "");
    assert lines[1..n] == ItemLines(items);
    forall j | 1 <= j < n ensures IsDashLine(lines[j]) {
      assert lines[j] == ItemLines(items)[j - 1];
    }
    if n < |lines| {
      assert lines[n] == rest[0];
      NotDashLine(rest[0]);
    }
    ListStepAt(lines, 0, n, items);
    assert lines[0..] == lines;
  }

  /** A written store is one step that performs it, when what follows it
      starts with a key. */
  lemma StoreStep(x: Assignment, rest: seq<string>)
    requires Writable(x) && KeyLineNext(rest)
    ensures Step(StoreLines(x) + rest) == StepResult(|StoreLines(x)|, Some(x))
  {
    if x.value.Scalar? {
      ScalarStoreStep(x, rest);
    } else {
      ListStoreStep(x, rest);
    }
  }

  /** The lines of the stores after the first start with a key. */
  lemma HeaderLinesTail(stores: seq<Assignment>)
    requires |stores| > 0 && AllWritable(stores)
    ensures AllWritable(stores[1..])
    ensures KeyLineNext(HeaderLines(stores[1..]))
    ensures HeaderLines(stores) == StoreLines(stores[0]) + HeaderLines(stores[1..])
  {
    assert forall j :: 0 <= j < |stores[1..]| ==> stores[1..][j] == stores[j + 1];
    if |stores| > 1 {
      StoreLinesSafe(stores[1]);
    }
  }

  /** The stores written in a header are the stores its parsing loop
      performs, in the same order. */
  lemma {:induction false} AssignmentsOfHeader(stores: seq<Assignment>)
    requires AllWritable(stores)
    ensures Assignments(HeaderLines(stores)) == stores
    decreases |stores|
  {
    if |stores| > 0 {
      var x := stores[0];
      var rest := HeaderLines(stores[1..]);
      HeaderLinesTail(stores);
      var lines := StoreLines(x) + rest;
      StoreStep(x, rest);
      AssignmentsFirst(lines, x);
      assert lines[|StoreLines(x)|..] == rest;
      AssignmentsOfHeader(stores[1..]);
    }
  }

  // ---------------------------------------------------------------------
  // The header text

  lemma {:induction false} ItemLinesSafe(items: seq<string>)
    requires forall j :: 0 <= j < |items| ==> NoNewline(items[j])
    ensures AllSafe(ItemLines(items))
    decreases |items|
  {
    if |items| > 0 {
      var l := ItemLine(items[0]);
      assert NoNewline(l) by {
        forall k | 0 <= k < |l| ensures l[k] != '\n' {
          if 3 <= k < |l| - 1 {
            assert l[k] == items[0][k - 3];
          }
        }
      }
      ItemLinesSafe(items[1..]);
      var ls := ItemLines(items);
      forall j | 0 <= j < |ls| ensures SafeLine(ls[j]) {
        if j > 0 {
          assert ls[j] == ItemLines(items[1..])[j - 1];
        }
      }
    }
  }

  lemma StoreLinesSafe(x: Assignment)
    requires Writable(x)
    ensures AllSafe(StoreLines(x))
    ensures IsWordChar(StoreLines(x)[0][0])
  {
    var key := x.key;
    assert (key + ":")[0] == key[0];
    match x.value
    case Scalar(t) =>
      var l := WriteScalarLine(key, t);
      assert l[0] == key[0];
      assert NoNewline(l) by {
        forall k | 0 <= k < |l| ensures l[k] != '\n' {
          if k < |key| {
            assert l[k] == key[k];
          } else if |key| + 3 <= k < |l| - 1 {
            assert l[k] == t[k - |key| - 3];
          }
        }
      }
    case List(items) =>
      var l := key + ":" + "";
      assert l[0] == key[0];
      assert NoNewline(l) by {
        forall k | 0 <= k < |l| ensures l[k] != '\n' {
          if k < |key| {
            assert l[k] == key[k];
          }
        }
      }
      ItemLinesSafe(items);
      var ls := StoreLines(x);
      forall j | 0 <= j < |ls| ensures SafeLine(ls[j]) {
        if j > 0 {
          assert ls[j] == ItemLines(items)[j - 1];
        }
      }
  }

  lemma {:induction false} HeaderLinesSafe(stores: seq<Assignment>)
    requires AllWritable(stores)
    ensures AllSafe(HeaderLines(stores))
    decreases |stores|
  {
    if |stores| > 0 {
      StoreLinesSafe(stores[0]);
      assert AllWritable(stores[1..]) by {
        forall j | 0 <= j < |stores[1..]| ensures Writable(stores[1..][j]) {
          assert stores[1..][j] == stores[j + 1];
        }
      }
      HeaderLinesSafe(stores[1..]);
      var a := StoreLines(stores[0]);
      var b := HeaderLines(stores[1..]);
      forall j | 0 <= j < |a + b| ensures SafeLine((a + b)[j]) {
        if j >= |a| {
          assert (a + b)[j] == b[j - |a|];
        }
      }
    }
  }

  /** A pattern found after a prefix is found in the whole at the shifted
      index, and conversely. */
  lemma MatchesAtShift(p: string, s: string, pattern: string, k: int)
    requires 0 <= k
    ensures MatchesAt(p + s, pattern, |p| + k) <==> MatchesAt(s, pattern, k)
  {
    if 0 <= k && k + |pattern| <= |s| {
      assert (p + s)[|p| + k..|p| + k + |pattern|] == s[k..k + |pattern|];
    }
  }

  /** No closing delimiter starts inside a block of safe lines, whatever
      follows it: every newline there is followed by two characters of a line
      that are not both `-`. */
  lemma {:induction false} NoClosingInBlock(lines: seq<string>, tail: string, k: int)
    requires AllSafe(lines)
    requires 0 <= k < |Block(lines)|
    ensures !MatchesAt(Block(lines) + tail, Closing, k)
    decreases |lines|
  {
    var l := lines[0];
    var rest := Block(lines[1..]);
    var x := Block(lines) + tail;
    assert x == "\n" + l + (rest + tail);
    if k == 0 {
      assert x[1] == l[0] && x[2] == l[1];
    } else if k <= |l| {
      assert x[k] == l[k - 1];
    } else {
      assert AllSafe(lines[1..]) by {
        forall j | 0 <= j < |lines[1..]| ensures SafeLine(lines[1..][j]) {
          assert lines[1..][j] == lines[j + 1];
        }
      }
      NoClosingInBlock(lines[1..], tail, k - 1 - |l|);
      MatchesAtShift("\n" + l, rest + tail, Closing, k - 1 - |l|);
    }
  }

  /** A block of lines is a newline and then the lines joined by newlines. */
  lemma {:induction false} BlockJoin(lines: seq<string>)
    requires |lines| > 0
    ensures Block(lines) == "\n" + JoinLines(lines)
    decreases |lines|
  {
    if |lines| > 1 {
      BlockJoin(lines[1..]);
    } else {
      assert Block(lines[1..]) == "";
    }
  }

  /** Joined lines start with the first character of the first line and end
      with the last character of the last line. */
  lemma {:induction false} JoinLinesEnds(lines: seq<string>)
    requires |lines| > 0
    requires forall j :: 0 <= j < |lines| ==> |lines[j]| > 0
    ensures |JoinLines(lines)| > 0
    ensures JoinLines(lines)[0] == lines[0][0]
    ensures JoinLines(lines)[|JoinLines(lines)| - 1] == lines[|lines| - 1][|lines[|lines| - 1]| - 1]
    decreases |lines|
  {
    if |lines| > 1 {
      var tail := lines[1..];
      forall j | 0 <= j < |tail| ensures |tail[j]| > 0 {
        assert tail[j] == lines[j + 1];
      }
      JoinLinesEnds(tail);
      var jt := JoinLines(tail);
      var s := lines[0] + "\n" + jt;
      assert JoinLines(lines) == s;
      assert s[0] == lines[0][0];
      assert s[|s| - 1] == jt[|jt| - 1];
      assert tail[|tail| - 1] == lines[|lines| - 1];
    }
  }

  /** The header text of a rendered document, stripped and split, gives
      back the header lines. */
  lemma HeaderTextLines(lines: seq<string>)
    requires AllSafe(lines)
    ensures ParseHeaderLines(SplitLines(Strip(Block(lines)))) == ParseHeaderLines(lines)
  {
    if |lines| == 0 {
      assert SplitLines(Strip(Block(lines))) == [""] by {
        assert Strip(Block(lines)) == "";
        assert SplitLines("") == [""];
      }
      assert Assignments([""]) == [] by {
        assert Classify("") == Blank;
        assert Assignments([""]) == Stored(StepResult(1, None)) + Assignments([""][1..]);
      }
    } else {
      var j := JoinLines(lines);
      assert Strip(Block(lines)) == j by {
        BlockJoin(lines);
        JoinLinesEnds(lines);
        StripAfterSpace('\n', j);
        StripTrimmed(j);
      }
      SplitJoinLines(lines);
    }
  }

  /** Where the delimiters of such a document sit. */
  lemma DelimitedParts(header: string, body: string)
    requires forall k :: 0 <= k < |header| ==> !MatchesAt(header + ("\n---\n" + body), Closing, k)
    ensures StartsWith("---" + header + "\n---\n" + body, "---")
    ensures MatchesAt("---" + header + "\n---\n" + body, Closing, 3 + |header|)
    ensures forall k :: 3 <= k < 3 + |header| ==> !MatchesAt("---" + header + "\n---\n" + body, Closing, k)
    ensures ("---" + header + "\n---\n" + body)[3..3 + |header|] == header
    ensures ("---" + header + "\n---\n" + body)[3 + |header| + 4..] == "\n" + body
  {
    var content := "---" + header + "\n---\n" + body;
    var e := 3 + |header|;
    assert content == "---" + (header + ("\n---\n" + body));
    assert content[..3] == "---";
    assert content[e..e + 4] == Closing;
    forall k | 3 <= k < e ensures !MatchesAt(content, Closing, k) {
      MatchesAtShift("---", header + ("\n---\n" + body), Closing, k - 3);
    }
  }

  /** A document made of `---`, a header text in which no closing delimiter
      starts, the closing delimiter, a newline and a body parses into that
      header text and the body, stripped. */
  lemma DelimitedDocument(header: string, body: string)
    requires forall k :: 0 <= k < |header| ==> !MatchesAt(header + ("\n---\n" + body), Closing, k)
    ensures ParseFrontmatter("---" + header + "\n---\n" + body)
         == (ParseHeaderLines(SplitLines(Strip(header))), Strip(body))
  {
    DelimitedParts(header, body);
    ParseFrontmatterSplit("---" + header + "\n---\n" + body, 3 + |header|);
    StripAfterSpace('\n', body);
  }

  /** Round trip: a rendered document parses back to the map its stores
      build and to its body, stripped. */
  lemma RenderRoundTrip(stores: seq<Assignment>, body: string)
    requires AllWritable(stores)
    ensures ParseFrontmatter(Render(stores, body)) == (Apply(map[], stores), Strip(body))
  {
    var lines := HeaderLines(stores);
    HeaderLinesSafe(stores);
    forall k | 0 <= k < |Block(lines)| ensures !MatchesAt(Block(lines) + ("\n---\n" + body), Closing, k) {
      NoClosingInBlock(lines, "\n---\n" + body, k);
    }
    DelimitedDocument(Block(lines), body);
    HeaderTextLines(lines);
    AssignmentsOfHeader(stores);
  }
}
