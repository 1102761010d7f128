# Post builder: header parser, snippet and record assembly

`build.py` turns a directory of Markdown posts into one list of post
records. This project models the three parts of it that decide what those
records contain:

- `parse_frontmatter`. A document that starts with `---` and has a later
  `\n---` carries a header. The header's `key: value` lines become fields. A
  `key:` line with an empty value that is followed by `-` lines takes those
  lines as a list. Without a header, the whole text is the body, unchanged.
- `generate_snippet`. It collapses every whitespace run of the body to a
  single space and drops the runs at both ends. If the result is longer
  than the limit, it cuts the text at
  the limit, cuts back again to the last space when there is one past
  index 0, and appends `…`.
- The record assembly of `process_posts`:
  - keep the `.md` files of the listing;
  - sort them by name;
  - build one record per file, holding its slug, five header fields with
    their defaults, its body and its snippet.

Modules, one per file:

| file | module | what it holds |
|---|---|---|
| `text.dfy` | `Text` | The Python string operations the code relies on, over `seq<char>`: `str.isspace`, `strip`, `find`, `rfind` and `split('\n')`. Each has lemmas stating what it computes. |
| `frontmatter.dfy` | `Frontmatter` | The header parser. A stepwise definition (`Step`, `Assignments`, `ParseHeaderLines`) and the loop as the source writes it (`ParseHeaderLoop`, `LoopTurn`, `GatherItems`), proved equal. Also lemmas on keys and on last write wins. |
| `writer.dfy` | `HeaderWriter` | A header writer that is not in the source (`Render`). It is an inverse of the parser: rendering stores and parsing the result gives back the map the stores build. |
| `snippet.dfy` | `Snippet` | `generate_snippet`: `split`/`join` as `Words`/`Join`, with their round trip, and the cut. |
| `posts.dfy` | `Posts` | The record assembly: the `.md` filter, a sort by name, and one record per file. |
| `scenarios.dfy` | `Scenarios` | Worked cases: quoted and bare scalars, a keyword list, an empty header, and a two-file directory. |

Behaviour of the code worth knowing:

- **A lone quote.** A value or list item that is the single character `"` or
  `'` both starts and ends with that quote. The code therefore strips it to
  the empty string (`StripQuotes`).
- **The opening delimiter.** It is a prefix test, `startswith('---')`, not a
  line of exactly three hyphens. `----` or `---title` also open a header.
- **The closing delimiter.** Any `\n---` at or after index 3 closes the
  header, including `\n----`. The body starts four characters later, so in
  that case it keeps the extra `-`.
- **Bare and quoted values.** `key: value` and `key: "value"` parse alike
  when the bare text is not empty, has no whitespace at its ends, and does
  not itself start and end with the same quote (`Scenarios.QuotedOrBare`).
  They can differ otherwise: a bare `key:` followed by a dash line opens a
  list, while `key: ""` stores the empty text.
- **A blank line before list items.** A bare `key:` opens a list only when
  the very next line is a dash line. With a blank line in between, the key
  stores the empty text (`Frontmatter.BlankBeforeItems`). The dash lines
  after the blank line are never field lines (`Frontmatter.FieldLineNotDash`),
  so each is skipped without storing anything (`Frontmatter.SkipLine`).

## Model

| member | source | states |
|---|---|---|
| Text.StripSpec | build.py:17-18 | `strip()` gives the infix of `s` that starts after its leading whitespace. Everything it removes is whitespace, and the result has no whitespace at either end. The result is empty exactly when `s` is all whitespace. |
| Text.StripUnique | build.py:17-18 | `strip()` has one answer: text with no whitespace at either end, surrounded only by whitespace, is what it keeps. |
| Text.StripDropLeading | build.py:32 | Dropping the whitespace that `\s*` skips before group 2 does not change what `strip()` gives. |
| Text.Find | build.py:13 | `find` returns the least index at or after `start` where the pattern occurs, or -1 exactly when there is none. |
| Text.FindFirst | build.py:13 | A match at `p` with no match between `start` and `p` is the one `find` returns. |
| Text.RFindChar | build.py:64 | `rfind(' ')` is -1 or an index holding a space, and no later index holds one. |
| Text.SplitLines | build.py:21 | `split('\n')` gives at least one piece, no piece holds a newline, and joining the pieces with newlines gives back the text. |
| Text.SplitJoinLines | build.py:21 | The converse round trip: splitting a newline join of newline-free lines gives those lines back. |
| Frontmatter.ParseFrontmatter | build.py:8-15 | A document that does not start with `---`, or has no `\n---` at or after index 3, has no fields, and its body is the whole text, not stripped. |
| Frontmatter.ParseFrontmatterSplit | build.py:13-21 | Otherwise the first `\n---` at or after index 3 splits the document. The header lines are the stripped text between index 3 and it, split on newlines. The body is the stripped text four characters after it. |
| Frontmatter.ClassifyBlank | build.py:24-27 | A line is skipped as blank exactly when it is all whitespace. |
| Frontmatter.ClassifyField | build.py:29-33 | A non-blank line is a field line exactly when it starts with a run of word characters followed by a colon. Its key is that run, and its value is the rest of the line, stripped. |
| Frontmatter.ClassifyKeyLine | build.py:29-33 | For a key of word characters, `key:` followed by newline-free text is a field line for that key, whose value is the text stripped. |
| Frontmatter.StripQuotes | build.py:48-51 | Text that starts and ends with the same quote loses exactly those two characters; a lone quote becomes empty. Any other text is kept unchanged. |
| Frontmatter.StripQuoteRoundTrip | build.py:40-42 | Exactly one layer of quotes is removed: quoting any text and stripping the quotes gives the text back, even when it holds quotes itself. |
| Frontmatter.DashLineStrip | build.py:35 | A line is a dash line exactly when `line.strip().startswith('-')`. |
| Frontmatter.ListItemOf | build.py:39-42 | The item of the line `- text` is the text stripped, then with one layer of quotes removed, for any text. |
| Frontmatter.DashRun | build.py:38 | The run of dash lines ends at the first line that is not a dash line, or at the end. |
| Frontmatter.ListItemsSpec | build.py:38-44 | One item per line of the run, in order, each the item of its own line. |
| Frontmatter.Step | build.py:23-53 | Every turn of the loop moves the cursor forward, and never past the end, so the loop ends. |
| Frontmatter.StepStores | build.py:29-53 | A turn stores a value exactly when its line is a field line, and it stores under that line's key. |
| Frontmatter.SkipLine | build.py:24-53 | A blank or unmatched line at the cursor stores nothing and moves the cursor by one: the map is that of the lines after it. |
| Frontmatter.BlankBeforeItems | build.py:35-53 | A bare `key:` line followed by a blank line opens no list: that turn stores the empty text under the key and moves the cursor by one. |
| Frontmatter.ScalarLine | build.py:47-53 | A field line that opens no list, with no later line declaring its key, sets that key to its value with one layer of quotes removed. Every other key is as the lines after it leave it. |
| Frontmatter.ListStepShape | build.py:35-46 | A `key:` line with an empty value and a dash line after it takes the longest run of dash lines that follows. It stores their items as a list, and the cursor resumes at the first line that is not a dash line. |
| Frontmatter.StepInterior | build.py:36-46 | The lines a list turn consumes are never field lines, so no key of theirs is stored. |
| Frontmatter.HeaderKeys | build.py:29-53 | The parsed fields have a key exactly when some header line is a field line for that key. |
| Frontmatter.LastWriteWins | build.py:45 | When a key is declared more than once, its value is the one the last declaring line stores. |
| Frontmatter.GatherItems | build.py:37-45 | The inner loop stops at the first line that is not a dash line and gathers the items of the lines it passed, in order. |
| Frontmatter.LoopTurn | build.py:23-53 | One turn of the loop as written has the effect of one step of the stepwise definition. |
| Frontmatter.ParseHeaderLoop | build.py:20-55 | The loop as written builds the same map as the stepwise definition. |
| HeaderWriter.AssignmentsOfHeader | build.py:23-53 | The loop reads back exactly the stores the writer put into the header lines, in order. |
| HeaderWriter.RenderRoundTrip | build.py:8-55 | Round trip: take stores with word-character keys and newline-free texts, and render them with any body. Parsing the result gives the map those stores build and the stripped body. |
| Snippet.WordsOfJoin | build.py:60 | Round trip of `' '.join` and `split()`: splitting words joined by single spaces gives the words back. |
| Snippet.CollapseNormalized | build.py:60 | The collapsed body has only single spaces between words, and no whitespace at either end. |
| Snippet.CollapseFixpoint | build.py:60 | Collapsing leaves a text unchanged exactly when it already has only single spaces between words. |
| Snippet.CollapseIdempotent | build.py:60 | Collapsing twice is the same as collapsing once. |
| Snippet.CollapseKeepsText | build.py:60 | Collapsing keeps every non-whitespace character, in order; only whitespace changes. |
| Snippet.CollapseKeepsWords | build.py:60 | Collapsing keeps the words of the body, in order, so every whitespace run between two words becomes exactly one space. |
| Snippet.CutAtLastSpaceSpec | build.py:64-66 | The cut keeps the prefix whole when it has no space past index 0. Otherwise the prefix ends right before its last space. |
| Snippet.GenerateSnippet | build.py:58-67 | A collapsed body within the limit is the snippet itself. A longer one gives a prefix of the collapsed text followed by `…`, at most one character over the limit. |
| Snippet.SnippetWordBoundary | build.py:63-67 | A shortened snippet stops at the last space among the first `maxChars` characters of the collapsed text: there is a space there and none between it and the limit. The exception: when those characters hold no space past index 0, it keeps all of them. |
| Snippet.SnippetOfOneWord | build.py:60-67 | A whitespace-free body longer than the limit gives exactly its first `maxChars` characters, then `…`. |
| Posts.SlugOfMarkdown | build.py:82 | The slug of a `.md` file name, with `.md` appended, is the file name again. |
| Posts.PostFieldDefault | build.py:83-87 | A record field whose key no header line declares holds the default: `''`, or `[]` for keywords. |
| Posts.PostFieldDeclared | build.py:83-87 | A record field whose key the header declares holds what the last line declaring it stores. |
| Posts.PostBody | build.py:79-89 | The record's body is the text after the header's closing `\n---`, stripped, and its snippet is made from that body. |
| Posts.HeaderlessPost | build.py:79-89 | A file that does not start with `---`, or has no `\n---` at or after index 3, gives all defaults. Its body is the whole text, unchanged. |
| Posts.NameLeqTotal | build.py:71 | Any two file names compare one way or the other under code-point order. |
| Posts.NameLeqTrans | build.py:71 | Code-point order on names is transitive. |
| Posts.NameLeqAntisymmetric | build.py:71 | Two names that are each at most the other are equal. |
| Posts.MarkdownFilesSpec | build.py:71 | The filter keeps each `.md` file as often as it is listed and drops every other file. |
| Posts.InsertPermutes | build.py:71 | Inserting a file adds exactly that file. |
| Posts.SortByNameSpec | build.py:71 | The sorted files are in ascending code-point order of name, and they are a permutation of the input. |
| Posts.MakePosts | build.py:74-91 | One record per file, in the same order. |
| Posts.ProcessPostsSpec | build.py:71-91 | The records come from the `.md` files of the listing, exactly as often as each is listed, in ascending order of file name, one record per file. |
| Posts.ProcessPostsOrder | build.py:71-91 | The slugs of the output, each with `.md` put back, ascend in code-point order. |
| Scenarios.QuotedOrBare | build.py:29-53 | For a key of word characters and a newline-free value that is not empty, has no whitespace at either end, and does not itself start and end with the same quote, `key: "value"` and `key: value` both store `value` and move on by one line, whatever follows. |
| Scenarios.KeywordList | build.py:35-46 | A `keywords:` line followed by `- "a"` and `- b` gives the list `a`, `b`. |
| Scenarios.EmptyHeader | build.py:10-21 | `---\n---` has no fields and an empty body. |
| Scenarios.RenderedPost | build.py:79-89 | A post written by the header writer carries the values its stores build, the defaults otherwise, and its stripped body. |
| Scenarios.TwoPosts | build.py:71-91 | Listed as `b.md` then `a.md`, the records come out as `a` then `b`. `a`, which has no header, has an empty title and its whole text as body. `b` has title `B` and body `Second post`. |

## Left out

- Reading the directory and the files. The listing arrives as a sequence of
  name and content pairs, and the file encoding is not modelled.
- Writing the output: the JSON serialisation, the `const POSTS = …;`
  wrapper, the output file, the confirmation message, and `main` with its
  command-line flags.
- Unicode word characters in keys: `\w` is modelled as ASCII letters, digits
  and `_`. Python's `re` also matches non-ASCII letters and digits there.
- Frontmatter.ClassifyField: states the field test for ASCII keys only, for
  the reason just given.
- Posts.SortByNameSpec: states the order and the permutation, not Python's
  stability for equal names. Names in one directory are distinct, so equal
  names cannot occur.
- HeaderWriter.Render: not part of the source. It is a writer defined here
  so that the parser has an inverse to be checked against. Its
  `Writable` condition lists what a header must avoid to be read back
  unchanged.
- Snippet.GenerateSnippet: takes `maxChars` as any integer, following
  Python's slicing for negative limits. `process_posts` only passes the
  default 220 (`DefaultMaxChars`).
