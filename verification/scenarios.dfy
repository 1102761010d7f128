/**
 Worked cases of the parser, the snippet and the record builder: quoted and
 bare scalars, a dash list, an empty header, and a two-file directory.
 */
module Scenarios {
  import opened Text
  import opened Frontmatter
  import opened HeaderWriter
  import opened Snippet
  import opened Posts

  /** A `key: text` line with a one-line text that has no whitespace at
      either end is a field line holding that text. */
  lemma SpacedFieldLine(key: string, t: string)
    requires IsKey(key) && NoNewline(t)
    requires t == [] || (!IsSpace(t[0]) && !IsSpace(t[|t| - 1]))
    ensures Classify(key + ": " + t) == Field(key, t)
  {
    var tail := " " + t;
    forall k | 0 <= k < |tail| ensures tail[k] != '\n' {
      if k > 0 {
        assert tail[k] == t[k - 1];
      }
    }
    assert key + ": " + t == key + ":" + tail;
    ClassifyKeyLine(key, tail);
    StripAfterSpace(' ', t);
    StripTrimmed(t);
  }

  /** `key: "value"` and `key: value` are read alike, whatever follows them:
      both store the unquoted text and move on by one line. */
  lemma QuotedOrBare(key: string, v: string, rest: seq<string>)
    requires IsKey(key) && NoNewline(v)
    requires v != [] && !IsSpace(v[0]) && !IsSpace(v[|v| - 1]) && !Quoted(v)
    ensures Step([key + ": " + Quote(v)] + rest) == StepResult(1, Some(Assignment(key, Scalar(v))))
    ensures Step([key + ": " + v] + rest) == StepResult(1, Some(Assignment(key, Scalar(v))))
  {
    var q := Quote(v);
    forall k | 0 <= k < |q| ensures q[k] != '\n' {
      if 0 < k < |q| - 1 {
        assert q[k] == v[k - 1];
      }
    }
    SpacedFieldLine(key, q);
    StripQuoteRoundTrip(v);
    var quoted := [key + ": " + q] + rest;
    assert quoted[0] == key + ": " + q;
    ScalarStep(quoted);

    SpacedFieldLine(key, v);
    var bare := [key + ": " + v] + rest;
    assert bare[0] == key + ": " + v;
    ScalarStep(bare);
  }

  /** The item line `- "a"` holds the item `a`, its quotes removed. */
  lemma QuotedItem(v: string)
    requires v == "\"a\""
    ensures ListItem("- " + v) == "a"
  {
    DashItemText([], v, []);
    assert [] + v + [] == v;
    assert v[1..2] == "a";
  }

  /** The item line `- b` holds the item `b`. */
  lemma BareItem(v: string)
    requires v == "b"
    ensures ListItem("- " + v) == "b"
  {
    DashItemText([], v, []);
    assert [] + v + [] == v;
  }

  /** The run of both item lines gives both items, in order. */
  lemma KeywordRun(x: string, y: string)
    requires x == "- \"a\"" && y == "- b"
    ensures ListItems([x, y]) == ["a", "b"]
  {
    QuotedItem(x[2..]);
    BareItem(y[2..]);
    assert x == "- " + x[2..] && y == "- " + y[2..];
    ListItemsSpec([x, y]);
  }

  lemma KeywordHead()
    ensures Classify("keywords:") == Field("keywords", "")
  {
    assert IsKey("keywords");
    assert "keywords:" == "keywords" + ":" + "";
    ClassifyKeyLine("keywords", "");
  }

  lemma KeywordDashes(lines: seq<string>)
    requires lines == ["keywords:", "- \"a\"", "- b"]
    ensures IsDashLine(lines[1])
    ensures DashRun(lines[1..]) == 2
    ensures lines[1..3] == ["- \"a\"", "- b"]
  {
    assert lines[1][0] == '-' && lines[2][0] == '-';
    assert lines[1..][1..][1..] == [];
  }

  /** The `keywords:` line opens a list that takes both item lines. */
  lemma KeywordStep(lines: seq<string>)
    requires lines == ["keywords:", "- \"a\"", "- b"]
    ensures Step(lines) == StepResult(3, Some(Assignment("keywords", List(["a", "b"]))))
  {
    KeywordHead();
    KeywordDashes(lines);
    KeywordRun(lines[1], lines[2]);
    ListStepUnfold(lines);
  }

  /** Lines that one step consumes entirely build the map of its store. */
  lemma OneStepHeader(lines: seq<string>, x: Assignment)
    requires |lines| > 0 && Step(lines) == StepResult(|lines|, Some(x))
    ensures ParseHeaderLines(lines) == map[x.key := x.value]
  {
    assert lines[|lines|..] == [];
    assert Assignments(lines) == [x];
    assert [x][1..] == [];
    assert Apply(map[], [x]) == Apply(map[x.key := x.value], []);
  }

  /** A `keywords:` line followed by the items `- "a"` and `- b` stores the
      list of both items, one layer of quotes removed from the first. */
  lemma KeywordList()
    ensures ParseHeaderLines(["keywords:", "- \"a\"", "- b"]) == map["keywords" := List(["a", "b"])]
  {
    var lines := ["keywords:", "- \"a\"", "- b"];
    KeywordStep(lines);
    OneStepHeader(lines, Assignment("keywords", List(["a", "b"])));
  }

  /** An empty header, `---` directly followed by `\n---`, gives no fields
      and an empty body. */
  lemma EmptyHeader()
    ensures ParseFrontmatter("---\n---") == (map[], "")
  {
    var content := "---\n---";
    ParseFrontmatterSplit(content, 3);
    assert content[3..3] == "";
    assert content[7..] == "";
    assert SplitLines("") == [""];
    assert Assignments([""]) == [];
  }

  /** The post `b.md` of a two-file directory. */
  function SecondPost(): SourceFile {
    SourceFile("b.md", Render([Assignment("title", Scalar("B"))], "Second post"))
  }

  /** Listed as `b.md` then `a.md`, the files are taken as `a.md` then
      `b.md`. */
  lemma TwoPostsOrder(a: SourceFile, b: SourceFile)
    requires a.name == "a.md" && b.name == "b.md"
    ensures SortByName(MarkdownFiles([b, a])) == [a, b]
  {
    assert |a.name| == 4 && a.name[1..] == ".md";
    assert |b.name| == 4 && b.name[1..] == ".md";
    assert IsMarkdown(a.name) && IsMarkdown(b.name);
    assert [b, a][1..] == [a] && [a][1..] == [];
    assert MarkdownFiles([a]) == [a];
    assert MarkdownFiles([b, a]) == [b, a];
    assert NameLeq(a.name, b.name) by {
      assert a.name[0] == 'a' && b.name[0] == 'b';
    }
    assert SortByName([a]) == [a];
    assert !NameLeq(b.name, a.name) by {
      assert a.name[0] == 'a' && b.name[0] == 'b';
    }
    assert Insert(b, [a]) == [a] + Insert(b, []);
  }

  /** A post written by the header writer carries the values its stores
      build, defaults where they store nothing, and its body stripped. */
  lemma RenderedPost(name: string, stores: seq<Assignment>, body: string)
    requires AllWritable(stores)
    ensures var p := MakePost(SourceFile(name, Render(stores, body)));
      var fields := Apply(map[], stores);
      && p.title == Get(fields, "title", Scalar(""))
      && p.sourceTitle == Get(fields, "source_title", Scalar(""))
      && p.sourceUrl == Get(fields, "source_url", Scalar(""))
      && p.linkedinUrl == Get(fields, "linkedin_url", Scalar(""))
      && p.keywords == Get(fields, "keywords", List([]))
      && p.body == Strip(body)
      && p.snippet == GenerateSnippet(Strip(body), DefaultMaxChars)
  {
    RenderRoundTrip(stores, body);
  }

  /** The one store of `b.md` is writable and builds the map `title: B`. */
  lemma TitleStore(stores: seq<Assignment>)
    requires stores == [Assignment("title", Scalar("B"))]
    ensures AllWritable(stores)
    ensures Apply(map[], stores) == map["title" := Scalar("B")]
  {
    assert IsKey("title");
    assert stores[1..] == [];
  }

  /** The rendered `b.md` carries the title `B` and no keywords. */
  lemma SecondPostHeader(file: SourceFile, stores: seq<Assignment>, body: string)
    requires stores == [Assignment("title", Scalar("B"))] && body == "Second post"
    requires file == SourceFile("b.md", Render(stores, body))
    ensures MakePost(file).title == Scalar("B")
    ensures MakePost(file).keywords == List([])
  {
    TitleStore(stores);
    RenderedPost(file.name, stores, body);
  }

  /** The rendered `b.md` has the body `Second post`. */
  lemma SecondPostBody(file: SourceFile, stores: seq<Assignment>, body: string)
    requires stores == [Assignment("title", Scalar("B"))] && body == "Second post"
    requires file == SourceFile("b.md", Render(stores, body))
    ensures MakePost(file).body == "Second post"
  {
    TitleStore(stores);
    RenderedPost(file.name, stores, body);
    assert !IsSpace(body[0]) && !IsSpace(body[|body| - 1]);
    StripTrimmed(body);
  }

  /** A directory listing `b.md` before `a.md`, where `a.md` has no header:
      the records come out as `a` then `b`, `a` with an empty title and its
      whole text as body, `b` with title `B` and body `Second post`. */
  lemma TwoPosts()
    ensures var posts := ProcessPosts([SecondPost(), SourceFile("a.md", "Hello world")]);
      && |posts| == 2
      && posts[0].slug == "a" && posts[0].title == Scalar("") && posts[0].body == "Hello world"
      && posts[1].slug == "b" && posts[1].title == Scalar("B") && posts[1].body == "Second post"
      && posts[1].keywords == List([])
  {
    var a := SourceFile("a.md", "Hello world");
    TwoPostsOrder(a, SecondPost());
    assert a.content[0] == 'H';
    HeaderlessPost(a);
    assert "a.md"[..1] == "a" && "b.md"[..1] == "b";
    SecondPostHeader(SecondPost(), [Assignment("title", Scalar("B"))], "Second post");
    SecondPostBody(SecondPost(), [Assignment("title", Scalar("B"))], "Second post");
  }
}
