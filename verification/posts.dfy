/**
 The record assembly of `process_posts`: the `.md` files of a directory
 listing, in ascending order of name, each turned into a post record from
 its header, its body and the snippet of its body. Reading the files and
 writing the output are not part of this module; the listing arrives as
 name and content pairs.
 */
module Posts {
  import opened Text
  import opened Frontmatter
  import opened Snippet

  /** One entry of the posts directory, with the text of the file. */
  datatype SourceFile = SourceFile(name: string, content: string)

  /** The record written for one post. Header values keep the shape the
      header gave them: a title can be a list and keywords a text. */
  datatype Post = Post(
    slug: string,
    title: Value,
    sourceTitle: Value,
    sourceUrl: Value,
    linkedinUrl: Value,
    keywords: Value,
    body: string,
    snippet: string)

  const MarkdownSuffix: string := ".md"

  /** `filename.endswith('.md')` */
  predicate IsMarkdown(name: string) {
    |name| >= |MarkdownSuffix| && name[|name| - |MarkdownSuffix|..] == MarkdownSuffix
  }

  /** `filename[:-3]` */
  function Slug(name: string): string {
    name[..SliceEnd(-3, |name|)]
  }

  /** `frontmatter.get(key, default)` */
  function Get(fields: Fields, key: string, default: Value): Value {
    if key in fields then fields[key] else default
  }

  /** The post record of one file. */
  function MakePost(file: SourceFile): Post {
    var (fields, body) := ParseFrontmatter(file.content);
    Post(
      Slug(file.name),
      Get(fields, "title", Scalar("")),
      Get(fields, "source_title", Scalar("")),
      Get(fields, "source_url", Scalar("")),
      Get(fields, "linkedin_url", Scalar("")),
      Get(fields, "keywords", List([])),
      body,
      GenerateSnippet(body, DefaultMaxChars))
  }

  /** The slug of a `.md` file is its name without the extension. */
  lemma SlugOfMarkdown(name: string)
    requires IsMarkdown(name)
    ensures Slug(name) + MarkdownSuffix == name
  {
    assert name == name[..|name| - 3] + name[|name| - 3..];
  }

  /** A file without a header, because it does not start with `---` or has
      no `\n---` at or after index 3, gives a record of defaults whose body
      is the whole text, unchanged. */
  lemma HeaderlessPost(file: SourceFile)
    requires !StartsWith(file.content, "---") || forall k :: 3 <= k ==> !MatchesAt(file.content, Closing, k)
    ensures MakePost(file) == Post(Slug(file.name), Scalar(""), Scalar(""), Scalar(""), Scalar(""), List([]),
                                   file.content, GenerateSnippet(file.content, DefaultMaxChars))
  {
  }

  /** The header keys a record carries. */
  predicate IsRecordKey(key: string) {
    key == "title" || key == "source_title" || key == "source_url" || key == "linkedin_url" || key == "keywords"
  }

  /** The value a record holds for one of its header keys. */
  function RecordField(p: Post, key: string): Value
    requires IsRecordKey(key)
  {
    if key == "title" then p.title
    else if key == "source_title" then p.sourceTitle
    else if key == "source_url" then p.sourceUrl
    else if key == "linkedin_url" then p.linkedinUrl
    else p.keywords
  }

  /** What a record holds for a header key its header does not set. */
  function DefaultValue(key: string): Value {
    if key == "keywords" then List([]) else Scalar("")
  }

  /** The header lines of a document whose header ends at `e`. */
  function SplitHeader(content: string, e: nat): seq<string>
    requires 3 <= e <= |content|
  {
    SplitLines(Strip(content[3..e]))
  }

  /** A record holds the default for a key that no header line declares. */
  lemma PostFieldDefault(file: SourceFile, e: nat, key: string)
    requires StartsWith(file.content, "---")
    requires 3 <= e && MatchesAt(file.content, Closing, e)
    requires forall k :: 3 <= k < e ==> !MatchesAt(file.content, Closing, k)
    requires IsRecordKey(key) && !Declares(SplitHeader(file.content, e), key)
    ensures RecordField(MakePost(file), key) == DefaultValue(key)
  {
    ParseFrontmatterSplit(file.content, e);
    HeaderKeys(SplitHeader(file.content, e), key);
  }

  /** A record holds for a declared key what the last header line declaring
      it stores. */
  lemma PostFieldDeclared(file: SourceFile, e: nat, key: string, i: nat)
    requires StartsWith(file.content, "---")
    requires 3 <= e && MatchesAt(file.content, Closing, e)
    requires forall k :: 3 <= k < e ==> !MatchesAt(file.content, Closing, k)
    requires IsRecordKey(key)
    requires i < |SplitHeader(file.content, e)| && DeclaresKey(SplitHeader(file.content, e)[i], key)
    requires forall j :: i < j < |SplitHeader(file.content, e)| ==> !DeclaresKey(SplitHeader(file.content, e)[j], key)
    ensures Step(SplitHeader(file.content, e)[i..]).assignment == Some(Assignment(key, RecordField(MakePost(file), key)))
  {
    ParseFrontmatterSplit(file.content, e);
    LastWriteWins(SplitHeader(file.content, e), i, key);
  }

  /** The body of a record is the text after the header's closing `\n---`,
      stripped, and its snippet is made from that body. */
  lemma PostBody(file: SourceFile, e: nat)
    requires StartsWith(file.content, "---")
    requires 3 <= e && MatchesAt(file.content, Closing, e)
    requires forall k :: 3 <= k < e ==> !MatchesAt(file.content, Closing, k)
    ensures MakePost(file).body == Strip(file.content[e + 4..])
    ensures MakePost(file).snippet == GenerateSnippet(MakePost(file).body, DefaultMaxChars)
  {
    ParseFrontmatterSplit(file.content, e);
  }

  // ---------------------------------------------------------------------
  // Ordering by name

  /** `a <= b` on Python strings: lexicographic by code point. */
  predicate NameLeq(a: string, b: string)
    decreases |a|
  {
    if |a| == 0 then true
    else if |b| == 0 then false
    else if a[0] != b[0] then a[0] < b[0]
    else NameLeq(a[1..], b[1..])
  }

  lemma {:induction false} NameLeqTotal(a: string, b: string)
    ensures NameLeq(a, b) || NameLeq(b, a)
    decreases |a|
  {
    if |a| > 0 && |b| > 0 && a[0] == b[0] {
      NameLeqTotal(a[1..], b[1..]);
    }
  }

  lemma {:induction false} NameLeqTrans(a: string, b: string, c: string)
    requires NameLeq(a, b) && NameLeq(b, c)
    ensures NameLeq(a, c)
    decreases |a|
  {
    if |a| > 0 && |b| > 0 && |c| > 0 && a[0] == b[0] && b[0] == c[0] {
      NameLeqTrans(a[1..], b[1..], c[1..]);
    }
  }

  lemma {:induction false} NameLeqAntisymmetric(a: string, b: string)
    requires NameLeq(a, b) && NameLeq(b, a)
    ensures a == b
    decreases |a|
  {
    if |a| > 0 {
      NameLeqAntisymmetric(a[1..], b[1..]);
      assert a == [a[0]] + a[1..] && b == [b[0]] + b[1..];
    }
  }

  predicate SortedByName(files: seq<SourceFile>) {
    forall i, j :: 0 <= i < j < |files| ==> NameLeq(files[i].name, files[j].name)
  }

  /** `f for f in listing if f.endswith('.md')`, in listing order. */
  function MarkdownFiles(listing: seq<SourceFile>): seq<SourceFile>
    decreases |listing|
  {
    if |listing| == 0 then []
    else (if IsMarkdown(listing[0].name) then [listing[0]] else []) + MarkdownFiles(listing[1..])
  }

  /** The filter keeps the `.md` files, each as often as it is listed, and
      drops the rest. */
  lemma {:induction false} MarkdownFilesSpec(listing: seq<SourceFile>, f: SourceFile)
    ensures multiset(MarkdownFiles(listing))[f] == if IsMarkdown(f.name) then multiset(listing)[f] else 0
    decreases |listing|
  {
    if |listing| > 0 {
      MarkdownFilesSpec(listing[1..], f);
      assert listing == [listing[0]] + listing[1..];
    }
  }

  /** Places `f` before the first file whose name is not below its own. */
  function Insert(f: SourceFile, files: seq<SourceFile>): seq<SourceFile>
    decreases |files|
  {
    if |files| == 0 then [f]
    else if NameLeq(f.name, files[0].name) then [f] + files
    else [files[0]] + Insert(f, files[1..])
  }

  /** `sorted(...)` by name. */
  function SortByName(files: seq<SourceFile>): seq<SourceFile>
    decreases |files|
  {
    if |files| == 0 then [] else Insert(files[0], SortByName(files[1..]))
  }

  lemma {:induction false} InsertPermutes(f: SourceFile, files: seq<SourceFile>)
    ensures multiset(Insert(f, files)) == multiset(files) + multiset{f}
    decreases |files|
  {
    if |files| > 0 && !NameLeq(f.name, files[0].name) {
      InsertPermutes(f, files[1..]);
      assert files == [files[0]] + files[1..];
    }
  }

  /** The tail of a sorted sequence is sorted. */
  lemma SortedTail(files: seq<SourceFile>)
    requires |files| > 0 && SortedByName(files)
    ensures SortedByName(files[1..])
  {
    forall i, j | 0 <= i < j < |files[1..]| ensures NameLeq(files[1..][i].name, files[1..][j].name) {
      assert files[1..][i] == files[i + 1] && files[1..][j] == files[j + 1];
    }
  }

  /** A file whose name is not above the first of a sorted sequence can
      head it. */
  lemma SortedCons(f: SourceFile, files: seq<SourceFile>)
    requires SortedByName(files)
    requires |files| > 0 ==> NameLeq(f.name, files[0].name)
    ensures SortedByName([f] + files)
  {
    var r := [f] + files;
    forall i, j | 0 <= i < j < |r| ensures NameLeq(r[i].name, r[j].name) {
      assert r[j] == files[j - 1];
      if i == 0 && j > 1 {
        NameLeqTrans(f.name, files[0].name, r[j].name);
      } else if i > 0 {
        assert r[i] == files[i - 1];
      }
    }
  }

  /** Everything in `Insert(f, files)` is `f` or comes from `files`. */
  lemma InsertMembers(f: SourceFile, files: seq<SourceFile>, g: SourceFile)
    requires g in Insert(f, files)
    ensures g == f || g in files
  {
    InsertPermutes(f, files);
    assert g in multiset(Insert(f, files));
  }

  lemma {:induction false} InsertSorted(f: SourceFile, files: seq<SourceFile>)
    requires SortedByName(files)
    ensures SortedByName(Insert(f, files))
    decreases |files|
  {
    if |files| == 0 {
    } else if NameLeq(f.name, files[0].name) {
      SortedCons(f, files);
    } else {
      NameLeqTotal(f.name, files[0].name);
      SortedTail(files);
      InsertSorted(f, files[1..]);
      var tail := Insert(f, files[1..]);
      forall g | g in tail ensures NameLeq(files[0].name, g.name) {
        InsertMembers(f, files[1..], g);
        if g != f {
          var m :| 0 <= m < |files[1..]| && files[1..][m] == g;
          assert files[m + 1] == g;
        }
      }
      assert |tail| > 0 ==> tail[0] in tail;
      SortedCons(files[0], tail);
    }
  }

  /** Sorting orders the files by name and keeps each file as often as it
      occurs. */
  lemma {:induction false} SortByNameSpec(files: seq<SourceFile>)
    ensures SortedByName(SortByName(files))
    ensures multiset(SortByName(files)) == multiset(files)
    decreases |files|
  {
    if |files| > 0 {
      SortByNameSpec(files[1..]);
      InsertSorted(files[0], SortByName(files[1..]));
      InsertPermutes(files[0], SortByName(files[1..]));
      assert files == [files[0]] + files[1..];
    }
  }

  /** One record per file, in order. */
  function MakePosts(files: seq<SourceFile>): (posts: seq<Post>)
    ensures |posts| == |files|
    ensures forall i :: 0 <= i < |files| ==> posts[i] == MakePost(files[i])
    decreases |files|
  {
    if |files| == 0 then [] else [MakePost(files[0])] + MakePosts(files[1..])
  }

  /** The record list `process_posts` builds from a directory listing. */
  function ProcessPosts(listing: seq<SourceFile>): seq<Post> {
    MakePosts(SortByName(MarkdownFiles(listing)))
  }

  /** The records are those of the `.md` files of the listing, one per
      file, in ascending order of file name. */
  lemma ProcessPostsSpec(listing: seq<SourceFile>)
    ensures var files := SortByName(MarkdownFiles(listing));
      && (forall f :: multiset(files)[f] == if IsMarkdown(f.name) then multiset(listing)[f] else 0)
      && SortedByName(files)
      && |ProcessPosts(listing)| == |files|
      && forall i :: 0 <= i < |files| ==> ProcessPosts(listing)[i] == MakePost(files[i])
  {
    SortByNameSpec(MarkdownFiles(listing));
    forall f ensures multiset(SortByName(MarkdownFiles(listing)))[f] == if IsMarkdown(f.name) then multiset(listing)[f] else 0 {
      MarkdownFilesSpec(listing, f);
    }
  }

  /** Slugs follow the order of their file names: with `.md` put back, each
      record's slug is not above any later one's. */
  lemma ProcessPostsOrder(listing: seq<SourceFile>)
    ensures var posts := ProcessPosts(listing);
      forall i, j :: 0 <= i < j < |posts| ==> NameLeq(posts[i].slug + MarkdownSuffix, posts[j].slug + MarkdownSuffix)
  {
    var files := SortByName(MarkdownFiles(listing));
    var posts := ProcessPosts(listing);
    ProcessPostsSpec(listing);
    forall k | 0 <= k < |files| ensures Slug(files[k].name) + MarkdownSuffix == files[k].name {
      assert files[k] in multiset(files);
      MarkdownFilesSpec(listing, files[k]);
      SlugOfMarkdown(files[k].name);
    }
    forall i, j | 0 <= i < j < |posts| ensures NameLeq(posts[i].slug + MarkdownSuffix, posts[j].slug + MarkdownSuffix) {
      assert posts[i].slug + MarkdownSuffix == files[i].name;
      assert posts[j].slug + MarkdownSuffix == files[j].name;
    }
  }
}
