/**
 The header parser of `build.py` (`parse_frontmatter`): a document that
 starts with `---` and contains a later `\n---` carries a header of
 `key: value` lines, where a key with an empty value followed by `-` lines
 takes those lines as a list.
 */
module Frontmatter {
  import opened Text

  datatype Option<T> = None | Some(value: T)

  /** A header value: one text, or the items of a dash list. Types are not
      enforced, so any key can hold either kind. */
  datatype Value = Scalar(text: string) | List(items: seq<string>)

  type Fields = map<string, Value>

  /** One `fields[key] = value` store of the parsing loop. */
  datatype Assignment = Assignment(key: string, value: Value)

  /** How the loop sees one header line. */
  datatype LineKind = Blank | Field(key: string, value: string) | Unmatched

  /** What one turn of the loop does: how many lines it moves the cursor and
      the store it performs, if any. */
  datatype StepResult = StepResult(consumed: nat, assignment: Option<Assignment>)

  /** A non-empty run of word characters, as matched by `[\w_]+`. */
  predicate IsKey(s: string) {
    |s| > 0 && forall k :: 0 <= k < |s| ==> IsWordChar(s[k])
  }

  /** Length of the longest prefix of word characters. */
  function WordPrefix(s: string): (n: nat)
    ensures n <= |s|
    ensures forall k :: 0 <= k < n ==> IsWordChar(s[k])
    ensures n < |s| ==> !IsWordChar(s[n])
    decreases |s|
  {
    if |s| == 0 || !IsWordChar(s[0]) then 0 else 1 + WordPrefix(s[1..])
  }

  /** `line` opens with a key followed by a colon at index `n`. */
  predicate KeyColonAt(line: string, n: int) {
    0 < n < |line| && line[n] == ':' && IsKey(line[..n])
  }

  /** Group 2 of `:\s*(.*)`: `\s*` skips all whitespace, newlines included,
      and `.*` stops at the next newline. */
  function RestOfLine(s: string): string {
    var t := s[LeadingSpace(s)..];
    t[..LineEnd(t)]
  }

  /** The blank test of the loop, then `re.match(r'^([\w_]+):\s*(.*)', line)`
      with the value `group(2).strip()`. */
  function Classify(line: string): LineKind {
    if Strip(line) == [] then Blank
    else
      var n := WordPrefix(line);
      if 0 < n < |line| && line[n] == ':' then Field(line[..n], Strip(RestOfLine(line[n + 1..])))
      else Unmatched
  }

  /** A line is blank exactly when it is all whitespace. */
  lemma ClassifyBlank(line: string)
    ensures Classify(line).Blank? <==> AllSpace(line)
  {
    StripSpec(line);
  }

  /** A field line opens with its key and a colon. */
  lemma ClassifyFieldParts(line: string)
    requires Classify(line).Field?
    ensures KeyColonAt(line, |Classify(line).key|)
    ensures Classify(line).key == line[..|Classify(line).key|]
    ensures Classify(line).value == Strip(RestOfLine(line[|Classify(line).key| + 1..]))
  {
    assert KeyColonAt(line, WordPrefix(line));
  }

  /** Any other line has no key followed by a colon at its start. */
  lemma ClassifyNotField(line: string, m: int)
    requires !Classify(line).Field?
    ensures !KeyColonAt(line, m)
  {
    if KeyColonAt(line, m) {
      KeyColonAtWordPrefix(line, m);
      StripSpec(line);
    }
  }

  /** A line is a field line exactly when it opens with a key and a colon;
      the key is that prefix and the value is the rest of the line after the
      colon and any whitespace, stripped. */
  lemma ClassifyField(line: string)
    ensures Classify(line).Field? <==> exists n :: KeyColonAt(line, n)
    ensures Classify(line).Field? ==>
              && KeyColonAt(line, |Classify(line).key|)
              && Classify(line).key == line[..|Classify(line).key|]
              && Classify(line).value == Strip(RestOfLine(line[|Classify(line).key| + 1..]))
  {
    if Classify(line).Field? {
      ClassifyFieldParts(line);
    } else {
      forall m ensures !KeyColonAt(line, m) {
        ClassifyNotField(line, m);
      }
    }
  }

  /** The run of word characters at the start of `key + tail` is `key`
      when `tail` starts with a character outside `\w`. */
  lemma {:induction false} WordPrefixKey(key: string, tail: string)
    requires forall k :: 0 <= k < |key| ==> IsWordChar(key[k])
    requires |tail| > 0 && !IsWordChar(tail[0])
    ensures WordPrefix(key + tail) == |key|
    decreases |key|
  {
    if |key| > 0 {
      assert (key + tail)[1..] == key[1..] + tail;
      WordPrefixKey(key[1..], tail);
    } else {
      assert key + tail == tail;
    }
  }

  /** On a line without newlines, group 2 of the pattern is the rest of the
      line after its leading whitespace, and stripping it strips the rest. */
  lemma RestOfOneLine(rest: string)
    requires NoNewline(rest)
    ensures Strip(RestOfLine(rest)) == Strip(rest)
  {
    var t := rest[LeadingSpace(rest)..];
    assert NoNewline(t) by {
      forall k | 0 <= k < |t| ensures t[k] != '\n' {
        assert t[k] == rest[LeadingSpace(rest) + k];
      }
    }
    LineEndNoNewline(t);
    assert t[..|t|] == t;
    StripDropLeading(rest);
  }

  /** A line made of a key, a colon and a newline-free rest is a field line
      for that key whose value is the rest, stripped. */
  lemma ClassifyKeyLine(key: string, rest: string)
    requires IsKey(key) && NoNewline(rest)
    ensures Classify(key + ":" + rest) == Field(key, Strip(rest))
  {
    var line := key + ":" + rest;
    assert line[0] == key[0];
    StripSpec(line);
    assert line == key + (":" + rest);
    WordPrefixKey(key, ":" + rest);
    assert line[..|key|] == key;
    assert line[|key| + 1..] == rest;
    RestOfOneLine(rest);
  }

  /** The colon after a key sits right after the longest run of word
      characters, so a line has at most one key. */
  lemma KeyColonAtWordPrefix(line: string, m: int)
    requires KeyColonAt(line, m)
    ensures m == WordPrefix(line)
    ensures !AllSpace(line)
  {
    assert line[..m][0] == line[0];
  }

  predicate IsQuote(c: char) {
    c == '"' || c == '\''
  }

  /** Both ends carry the same quote character. For a one-character string
      the first and the last character are the same one. */
  predicate Quoted(s: string) {
    |s| > 0 && IsQuote(s[0]) && s[|s| - 1] == s[0]
  }

  /** `s[1:-1]` when `s` starts and ends with `"` or with `'`; a lone quote
      therefore becomes the empty string. */
  function StripQuotes(s: string): (r: string)
    ensures !Quoted(s) ==> r == s
    ensures Quoted(s) ==> |r| == if |s| == 1 then 0 else |s| - 2
    ensures Quoted(s) && |s| >= 2 ==> s == [s[0]] + r + [s[0]]
  {
    if Quoted(s) then (if |s| == 1 then [] else s[1..|s| - 1]) else s
  }

  /** The quoted form a writer would produce. */
  function Quote(s: string): string {
    "\"" + s + "\""
  }

  /** Exactly one layer of quotes is removed, whatever is inside. */
  lemma StripQuoteRoundTrip(s: string)
    ensures StripQuotes(Quote(s)) == s
  {
    assert Quote(s)[1..|Quote(s)| - 1] == s;
  }

  /** A line whose first character after any leading whitespace is `-`. */
  predicate IsDashLine(line: string) {
    LeadingSpace(line) < |line| && line[LeadingSpace(line)] == '-'
  }

  /** The dash test is the source's `line.strip().startswith('-')`. */
  lemma DashLineStrip(line: string)
    ensures IsDashLine(line) <==> StartsWith(Strip(line), "-")
  {
    StripSpec(line);
    if Strip(line) != [] {
      assert Strip(line)[0] == line[LeadingSpace(line)];
    }
  }

  /** One list item, `line.strip()[1:].strip()` unquoted: the leading dash
      removed, the rest stripped and one layer of quotes removed. */
  function ListItem(line: string): string {
    var t := Strip(line);
    StripQuotes(Strip(if |t| > 0 then t[1..] else t))
  }

  /** The item of the line `- text` is the text stripped, with one layer of
      quotes removed. */
  lemma ListItemOf(v: string)
    ensures ListItem("- " + v) == StripQuotes(Strip(v))
  {
    var m := Strip(v);
    StripSpec(v);
    var a := v[..LeadingSpace(v)];
    var b := v[LeadingSpace(v) + |m|..];
    assert v == a + m + b;
    if m == [] {
      DashItemBlank(v);
    } else {
      DashItemText(a, m, b);
    }
  }

  /** A dash followed only by whitespace holds the empty item. */
  lemma DashItemBlank(v: string)
    requires AllSpace(v)
    ensures ListItem("- " + v) == []
  {
    var sv := " " + v;
    assert AllSpace(sv) by {
      forall k | 0 <= k < |sv| ensures IsSpace(sv[k]) {
        if k > 0 { assert sv[k] == v[k - 1]; }
      }
    }
    assert "- " + v == [] + "-" + sv;
    StripUnique([], "-", sv);
    StripUnique([], [], []);
  }

  /** A dash followed by text `m` padded with whitespace holds `m`, with one
      layer of quotes removed. */
  lemma DashItemText(a: string, m: string, b: string)
    requires AllSpace(a) && AllSpace(b)
    requires m != [] && !IsSpace(m[0]) && !IsSpace(m[|m| - 1])
    ensures ListItem("- " + (a + m + b)) == StripQuotes(m)
  {
    var head := "- " + a + m;
    DashLineTrailing(a, m, b);
    assert head[1..] == [' '] + (a + m + []);
    StripAfterSpace(' ', a + m + []);
    StripUnique(a, m, []);
  }

  /** Stripping a dash line with text after the dash only drops the
      whitespace behind that text. */
  lemma DashLineTrailing(a: string, m: string, b: string)
    requires AllSpace(b)
    requires m != [] && !IsSpace(m[|m| - 1])
    ensures Strip("- " + (a + m + b)) == "- " + a + m
  {
    var head := "- " + a + m;
    assert head[|head| - 1] == m[|m| - 1];
    assert "- " + (a + m + b) == [] + head + b;
    StripUnique([], head, b);
  }

  /** Length of the run of dash lines that `lines` starts with. */
  function DashRun(lines: seq<string>): (n: nat)
    ensures n <= |lines|
    ensures forall k :: 0 <= k < n ==> IsDashLine(lines[k])
    ensures n < |lines| ==> !IsDashLine(lines[n])
    decreases |lines|
  {
    if |lines| == 0 || !IsDashLine(lines[0]) then 0 else 1 + DashRun(lines[1..])
  }

  /** The items of a run of dash lines, one per line and in order. */
  function ListItems(run: seq<string>): seq<string>
    decreases |run|
  {
    if |run| == 0 then [] else [ListItem(run[0])] + ListItems(run[1..])
  }

  /** One item per line of the run, in order. */
  lemma {:induction false} ListItemsSpec(run: seq<string>)
    ensures |ListItems(run)| == |run|
    ensures forall k :: 0 <= k < |run| ==> ListItems(run)[k] == ListItem(run[k])
    decreases |run|
  {
    if |run| > 0 {
      ListItemsSpec(run[1..]);
      forall k | 0 < k < |run| ensures ListItems(run)[k] == ListItem(run[k]) {
        assert run[1..][k - 1] == run[k];
      }
    }
  }

  /** Items are gathered one line at a time, in order. */
  lemma {:induction false} ListItemsSnoc(run: seq<string>)
    requires |run| > 0
    ensures ListItems(run) == ListItems(run[..|run| - 1]) + [ListItem(run[|run| - 1])]
    decreases |run|
  {
    if |run| > 1 {
      assert run[1..][..|run| - 2] == run[..|run| - 1][1..];
      ListItemsSnoc(run[1..]);
    }
  }

  /** The items of `lines[a..b + 1]` are those of `lines[a..b]` and one more. */
  lemma ListItemsExtend(lines: seq<string>, a: nat, b: nat)
    requires a <= b < |lines|
    ensures ListItems(lines[a..b + 1]) == ListItems(lines[a..b]) + [ListItem(lines[b])]
  {
    ListItemsSnoc(lines[a..b + 1]);
    SliceExtend(lines, a, b);
  }

  lemma SliceExtend<T>(xs: seq<T>, a: nat, b: nat)
    requires a <= b < |xs|
    ensures |xs[a..b + 1]| == b - a + 1
    ensures xs[a..b + 1][..b - a] == xs[a..b]
    ensures xs[a..b + 1][b - a] == xs[b]
  {
  }

  /** A field line with an empty value followed by a dash line opens a list. */
  predicate OpensList(lines: seq<string>)
    requires |lines| > 0
  {
    var c := Classify(lines[0]);
    c.Field? && c.value == [] && |lines| > 1 && IsDashLine(lines[1])
  }

  /** One turn of the loop, at the first of `lines`: how far the cursor
      moves and what it stores. The cursor always moves forward and never
      past the end, so the loop ends. */
  function Step(lines: seq<string>): (s: StepResult)
    requires |lines| > 0
    ensures 1 <= s.consumed <= |lines|
  {
    var c := Classify(lines[0]);
    if c.Field? then
      if c.value == [] && |lines| > 1 && IsDashLine(lines[1]) then
        var n := DashRun(lines[1..]);
        StepResult(1 + n, Some(Assignment(c.key, List(ListItems(lines[1..1 + n])))))
      else
        StepResult(1, Some(Assignment(c.key, Scalar(StripQuotes(c.value)))))
    else
      StepResult(1, None)
  }

  /** A step stores exactly when its first line is a field line, and it
      stores under that line's key. */
  lemma StepStores(lines: seq<string>)
    requires |lines| > 0
    ensures Step(lines).assignment.Some? <==> Classify(lines[0]).Field?
    ensures Step(lines).assignment.Some? ==> Step(lines).assignment.value.key == Classify(lines[0]).key
  {
  }

  /** Blank and unmatched lines move the cursor by one and store nothing. */
  lemma SkipStep(lines: seq<string>)
    requires |lines| > 0 && !Classify(lines[0]).Field?
    ensures Step(lines) == StepResult(1, None)
  {
  }

  /** A field line that opens no list moves the cursor by one and stores its
      value, stripped of one layer of quotes. */
  lemma ScalarStep(lines: seq<string>)
    requires |lines| > 0 && Classify(lines[0]).Field? && !OpensList(lines)
    ensures Step(lines) == StepResult(1, Some(Assignment(Classify(lines[0]).key, Scalar(StripQuotes(Classify(lines[0]).value)))))
  {
  }

  /** The list branch of a step, unfolded. */
  lemma ListStepUnfold(lines: seq<string>)
    requires |lines| > 0 && OpensList(lines)
    ensures Step(lines).consumed == 1 + DashRun(lines[1..])
    ensures Step(lines).assignment == Some(Assignment(Classify(lines[0]).key, List(ListItems(lines[1..1 + DashRun(lines[1..])]))))
  {
  }

  /** The run `DashRun` measures after the first line, in the indices of
      `lines`. */
  lemma DashRunAfterFirst(lines: seq<string>)
    requires |lines| > 0
    ensures forall k :: 1 <= k < 1 + DashRun(lines[1..]) ==> IsDashLine(lines[k])
    ensures 1 + DashRun(lines[1..]) < |lines| ==> !IsDashLine(lines[1 + DashRun(lines[1..])])
  {
    var n := DashRun(lines[1..]);
    forall k | 1 <= k < 1 + n ensures IsDashLine(lines[k]) {
      assert lines[1..][k - 1] == lines[k];
    }
    if 1 + n < |lines| {
      assert lines[1..][n] == lines[1 + n];
    }
  }

  /** A field line that opens a list takes the longest run of dash lines
      after it, one item per line in order, and the cursor resumes at the
      first line that is not a dash line. */
  lemma ListStepShape(lines: seq<string>)
    requires |lines| > 0 && OpensList(lines)
    ensures 2 <= Step(lines).consumed
    ensures forall k :: 1 <= k < Step(lines).consumed ==> IsDashLine(lines[k])
    ensures Step(lines).consumed == |lines| || !IsDashLine(lines[Step(lines).consumed])
    ensures Step(lines).assignment == Some(Assignment(Classify(lines[0]).key, List(ListItems(lines[1..Step(lines).consumed]))))
  {
    ListStepUnfold(lines);
    DashRunAfterFirst(lines);
    assert IsDashLine(lines[1..][0]);
  }

  /** The lines a step moves over after its first are list items, never field
      lines. */
  lemma StepInterior(lines: seq<string>)
    requires |lines| > 0
    ensures forall i :: 0 < i < Step(lines).consumed ==> !Classify(lines[i]).Field?
  {
    if OpensList(lines) {
      ListStepShape(lines);
    } else {
      assert Step(lines).consumed == 1;
    }
    forall i | 0 < i < Step(lines).consumed
      ensures !Classify(lines[i]).Field?
    {
      if Classify(lines[i]).Field? {
        FieldLineNotDash(lines[i]);
      }
    }
  }

  /** The store a step performs, as a sequence of zero or one stores. */
  function Stored(s: StepResult): seq<Assignment> {
    if s.assignment.Some? then [s.assignment.value] else []
  }

  /** The stores the loop performs over `lines`, in order. */
  function Assignments(lines: seq<string>): seq<Assignment>
    decreases |lines|
  {
    if |lines| == 0 then []
    else
      var s := Step(lines);
      Stored(s) + Assignments(lines[s.consumed..])
  }

  /** Performs stores in order on a map, so a later store to a key replaces an
      earlier one. */
  function Apply(fields: Fields, stores: seq<Assignment>): Fields
    decreases |stores|
  {
    if |stores| == 0 then fields else Apply(fields[stores[0].key := stores[0].value], stores[1..])
  }

  /** The map the loop builds from the header lines. */
  function ParseHeaderLines(lines: seq<string>): Fields {
    Apply(map[], Assignments(lines))
  }

  /** A store to `k` is made somewhere in `stores`. */
  predicate Assigns(stores: seq<Assignment>, k: string) {
    exists j :: 0 <= j < |stores| && stores[j].key == k
  }

  lemma AssignsAppend(xs: seq<Assignment>, ys: seq<Assignment>, k: string)
    ensures Assigns(xs + ys, k) <==> Assigns(xs, k) || Assigns(ys, k)
  {
    if Assigns(xs + ys, k) {
      var j :| 0 <= j < |xs + ys| && (xs + ys)[j].key == k;
      if j >= |xs| { assert ys[j - |xs|] == (xs + ys)[j]; }
    }
    if Assigns(ys, k) {
      var j :| 0 <= j < |ys| && ys[j].key == k;
      assert (xs + ys)[|xs| + j] == ys[j];
    }
    if Assigns(xs, k) {
      var j :| 0 <= j < |xs| && xs[j].key == k;
      assert (xs + ys)[j] == xs[j];
    }
  }

  lemma {:induction false} ApplyAppend(fields: Fields, xs: seq<Assignment>, ys: seq<Assignment>)
    ensures Apply(fields, xs + ys) == Apply(Apply(fields, xs), ys)
    decreases |xs|
  {
    if |xs| > 0 {
      assert (xs + ys)[1..] == xs[1..] + ys;
      ApplyAppend(fields[xs[0].key := xs[0].value], xs[1..], ys);
    } else {
      assert xs + ys == ys;
    }
  }

  /** A key no store touches keeps its entry, or its absence. */
  lemma {:induction false} ApplyUntouched(fields: Fields, stores: seq<Assignment>, k: string)
    requires !Assigns(stores, k)
    ensures k in Apply(fields, stores) <==> k in fields
    ensures k in fields ==> Apply(fields, stores)[k] == fields[k]
    decreases |stores|
  {
    if |stores| > 0 {
      assert !Assigns(stores[1..], k) by {
        forall j | 0 <= j < |stores[1..]| ensures stores[1..][j].key != k {
          assert stores[1..][j] == stores[j + 1];
        }
      }
      ApplyUntouched(fields[stores[0].key := stores[0].value], stores[1..], k);
    }
  }

  /** The keys of the result are the keys already present and the keys stored. */
  lemma {:induction false} ApplyKeys(fields: Fields, stores: seq<Assignment>, k: string)
    ensures k in Apply(fields, stores) <==> k in fields || Assigns(stores, k)
    decreases |stores|
  {
    if |stores| > 0 {
      ApplyKeys(fields[stores[0].key := stores[0].value], stores[1..], k);
      if Assigns(stores[1..], k) {
        var j :| 0 <= j < |stores[1..]| && stores[1..][j].key == k;
        assert stores[j + 1].key == k;
      }
      if Assigns(stores, k) && stores[0].key != k {
        var j :| 0 <= j < |stores| && stores[j].key == k;
        assert stores[1..][j - 1].key == k;
      }
    }
  }

  /** The last store to a key decides its value. */
  lemma {:induction false} ApplyLastStore(fields: Fields, stores: seq<Assignment>, j: nat)
    requires j < |stores|
    requires forall i :: j < i < |stores| ==> stores[i].key != stores[j].key
    ensures stores[j].key in Apply(fields, stores)
    ensures Apply(fields, stores)[stores[j].key] == stores[j].value
    decreases |stores|
  {
    var k := stores[j].key;
    if j == 0 {
      assert !Assigns(stores[1..], k) by {
        forall i | 0 <= i < |stores[1..]| ensures stores[1..][i].key != k {
          assert stores[1..][i] == stores[i + 1];
        }
      }
      ApplyUntouched(fields[k := stores[0].value], stores[1..], k);
    } else {
      assert stores[1..][j - 1] == stores[j];
      ApplyLastStore(fields[stores[0].key := stores[0].value], stores[1..], j - 1);
    }
  }

  /** A line that starts with neither whitespace nor `-` is no dash line. */
  lemma NotDashLine(line: string)
    requires |line| > 0 && !IsSpace(line[0]) && line[0] != '-'
    ensures !IsDashLine(line)
  {
  }

  /** A `key:` line never counts as a dash line, so a list run stops at the
      next field line. */
  lemma FieldLineNotDash(line: string)
    requires Classify(line).Field?
    ensures !IsDashLine(line)
  {
    var c := Classify(line);
    ClassifyField(line);
    assert IsWordChar(line[0]) by { assert line[..|c.key|][0] == line[0]; }
    NotDashLine(line);
  }

  /** `line` is a field line for key `k`. */
  predicate DeclaresKey(line: string, k: string) {
    Classify(line).Field? && Classify(line).key == k
  }

  /** Some line of `lines` is a field line for key `k`. */
  predicate Declares(lines: seq<string>, k: string) {
    exists i :: 0 <= i < |lines| && DeclaresKey(lines[i], k)
  }

  lemma DeclaresSplit(lines: seq<string>, n: nat, k: string)
    requires 1 <= n <= |lines|
    requires forall i :: 0 < i < n ==> !Classify(lines[i]).Field?
    ensures Declares(lines, k) <==> DeclaresKey(lines[0], k) || Declares(lines[n..], k)
  {
    if Declares(lines, k) {
      var i :| 0 <= i < |lines| && DeclaresKey(lines[i], k);
      if i >= n { assert lines[n..][i - n] == lines[i]; }
    }
    if Declares(lines[n..], k) {
      var i :| 0 <= i < |lines[n..]| && DeclaresKey(lines[n..][i], k);
      assert lines[n + i] == lines[n..][i];
    }
  }

  /** One step stores to `k` exactly when its first line declares `k`. */
  lemma StepStoresKey(lines: seq<string>, k: string)
    requires |lines| > 0
    ensures Assigns(Stored(Step(lines)), k) <==> DeclaresKey(lines[0], k)
  {
    StepStores(lines);
    var st := Step(lines);
    if Assigns(Stored(st), k) {
      assert Stored(st)[0].key == k;
    }
    if DeclaresKey(lines[0], k) {
      assert Stored(st)[0].key == k;
    }
  }

  /** One step stores to `k` exactly when its first line declares `k`, and
      the lines it moves over declare nothing. */
  lemma StepKeys(lines: seq<string>, k: string)
    requires |lines| > 0
    ensures Assigns(Stored(Step(lines)), k) <==> DeclaresKey(lines[0], k)
    ensures Declares(lines, k) <==> DeclaresKey(lines[0], k) || Declares(lines[Step(lines).consumed..], k)
  {
    StepStoresKey(lines, k);
    StepInterior(lines);
    DeclaresSplit(lines, Step(lines).consumed, k);
  }

  /** The loop stores to a key exactly when some header line declares it:
      blank lines, unmatched lines and list items never add a key. */
  lemma {:induction false} AssignmentsKeys(lines: seq<string>, k: string)
    ensures Assigns(Assignments(lines), k) <==> Declares(lines, k)
    decreases |lines|
  {
    if |lines| > 0 {
      var s := Step(lines);
      var rest := lines[s.consumed..];
      assert Assignments(lines) == Stored(s) + Assignments(rest);
      AssignmentsKeys(rest, k);
      AssignsAppend(Stored(s), Assignments(rest), k);
      StepKeys(lines, k);
    }
  }

  /** The keys of the parsed header are exactly the keys its field lines
      declare. */
  lemma HeaderKeys(lines: seq<string>, k: string)
    ensures k in ParseHeaderLines(lines) <==> Declares(lines, k)
  {
    ApplyKeys(map[], Assignments(lines), k);
    AssignmentsKeys(lines, k);
  }

  /** A step at a line that declares `k` stores to `k`, and a later
      declaration lies at or after the line where the step leaves the
      cursor. */
  lemma StepDeclared(lines: seq<string>, k: string)
    requires |lines| > 0 && DeclaresKey(lines[0], k)
    ensures Stored(Step(lines)) == [Step(lines).assignment.value]
    ensures Step(lines).assignment.value.key == k
    ensures forall j :: 0 < j < |lines| && DeclaresKey(lines[j], k) ==> Step(lines).consumed <= j
  {
    StepStores(lines);
    StepInterior(lines);
  }

  /** A store that no later store overrides decides its key. */
  lemma ApplyFirstStore(fields: Fields, x: Assignment, ys: seq<Assignment>)
    requires !Assigns(ys, x.key)
    ensures x.key in Apply(fields, [x] + ys)
    ensures Apply(fields, [x] + ys)[x.key] == x.value
  {
    assert ([x] + ys)[1..] == ys;
    ApplyUntouched(fields[x.key := x.value], ys, x.key);
  }

  /** The base case: the first line is the last to declare `k`. */
  lemma LastDeclarationFirst(fields: Fields, lines: seq<string>, k: string)
    requires |lines| > 0 && DeclaresKey(lines[0], k)
    requires forall j :: 0 < j < |lines| ==> !DeclaresKey(lines[j], k)
    ensures k in Apply(fields, Assignments(lines))
    ensures Step(lines).assignment == Some(Assignment(k, Apply(fields, Assignments(lines))[k]))
  {
    var n := Step(lines).consumed;
    StepDeclared(lines, k);
    var x := Step(lines).assignment.value;
    AssignmentsFirst(lines, x);
    NoDeclarationAfter(lines, n, k);
    AssignmentsKeys(lines[n..], k);
    ApplyFirstStore(fields, x, Assignments(lines[n..]));
  }

  /** The stores of lines whose first step stores `x`. */
  lemma AssignmentsFirst(lines: seq<string>, x: Assignment)
    requires |lines| > 0 && Step(lines).assignment == Some(x)
    ensures Assignments(lines) == [x] + Assignments(lines[Step(lines).consumed..])
  {
  }

  /** Lines past the first that never declare `k` still do not after the
      first `n` are dropped. */
  lemma NoDeclarationAfter(lines: seq<string>, n: nat, k: string)
    requires 1 <= n <= |lines|
    requires forall j :: 0 < j < |lines| ==> !DeclaresKey(lines[j], k)
    ensures !Declares(lines[n..], k)
  {
    forall j | 0 <= j < |lines[n..]| ensures !DeclaresKey(lines[n..][j], k) {
      assert lines[n..][j] == lines[n + j];
    }
  }

  /** Dropping the first `n` lines keeps a declaration at `i` the last one. */
  lemma LastDeclarationShift(lines: seq<string>, n: nat, i: nat, k: string)
    requires n <= i < |lines| && DeclaresKey(lines[i], k)
    requires forall j :: i < j < |lines| ==> !DeclaresKey(lines[j], k)
    ensures lines[n..][i - n..] == lines[i..] && DeclaresKey(lines[n..][i - n], k)
    ensures forall j :: i - n < j < |lines[n..]| ==> !DeclaresKey(lines[n..][j], k)
  {
    assert lines[n..][i - n] == lines[i];
    forall j | i - n < j < |lines[n..]| ensures !DeclaresKey(lines[n..][j], k) {
      assert lines[n..][j] == lines[n + j];
    }
  }

  lemma {:induction false} LastDeclarationWins(fields: Fields, lines: seq<string>, i: nat, k: string)
    requires i < |lines| && DeclaresKey(lines[i], k)
    requires forall j :: i < j < |lines| ==> !DeclaresKey(lines[j], k)
    ensures k in Apply(fields, Assignments(lines))
    ensures Step(lines[i..]).assignment == Some(Assignment(k, Apply(fields, Assignments(lines))[k]))
    decreases |lines|
  {
    if i == 0 {
      assert lines[i..] == lines;
      LastDeclarationFirst(fields, lines, k);
    } else {
      var n := Step(lines).consumed;
      var xs := Stored(Step(lines));
      var rest := lines[n..];
      assert Assignments(lines) == xs + Assignments(rest);
      ApplyAppend(fields, xs, Assignments(rest));
      assert i >= n by {
        StepInterior(lines);
      }
      LastDeclarationShift(lines, n, i, k);
      LastDeclarationWins(Apply(fields, xs), rest, i - n, k);
    }
  }

  /** When a key is declared more than once, the last declaration decides its
      value: it is what the step at that line stores. */
  lemma LastWriteWins(lines: seq<string>, i: nat, k: string)
    requires i < |lines| && DeclaresKey(lines[i], k)
    requires forall j :: i < j < |lines| ==> !DeclaresKey(lines[j], k)
    ensures k in ParseHeaderLines(lines)
    ensures Step(lines[i..]).assignment == Some(Assignment(k, ParseHeaderLines(lines)[k]))
  {
    LastDeclarationWins(map[], lines, i, k);
  }

  /** A blank or unmatched line at the cursor stores nothing and moves the
      cursor by one: the map is that of the lines after it. */
  lemma SkipLine(line: string, rest: seq<string>)
    requires !Classify(line).Field?
    ensures ParseHeaderLines([line] + rest) == ParseHeaderLines(rest)
  {
    var lines := [line] + rest;
    assert lines[0..] == lines && lines[1..] == rest;
    SkipStep(lines);
    LoopSkip(map[], lines, 0, 1);
  }

  /** A blank line right after a `key:` line with an empty value keeps the
      list from opening: the key stores the empty text, and dash lines after
      the blank line are later skipped as unmatched lines. */
  lemma BlankBeforeItems(lines: seq<string>)
    requires |lines| > 1 && Classify(lines[0]).Field? && Classify(lines[0]).value == []
    requires AllSpace(lines[1])
    ensures Step(lines) == StepResult(1, Some(Assignment(Classify(lines[0]).key, Scalar(""))))
  {
  }

  /** A field line that opens no list, with no later line declaring its key,
      sets that key to its value with one layer of quotes removed; every
      other key is as the lines after it leave it. */
  lemma ScalarLine(line: string, rest: seq<string>)
    requires Classify(line).Field? && !OpensList([line] + rest)
    requires !Declares(rest, Classify(line).key)
    ensures ParseHeaderLines([line] + rest)
            == ParseHeaderLines(rest)[Classify(line).key := Scalar(StripQuotes(Classify(line).value))]
  {
    var lines := [line] + rest;
    var c := Classify(line);
    var x := Assignment(c.key, Scalar(StripQuotes(c.value)));
    assert lines[0..] == lines && lines[1..] == rest;
    ScalarStep(lines);
    LoopStore(map[], lines, 0, 1, x);
    AssignmentsKeys(rest, c.key);
    ApplyCommute(map[], x, Assignments(rest));
  }

  /** A store that no later store touches can be made last instead of
      first. */
  lemma {:induction false} ApplyCommute(fields: Fields, x: Assignment, stores: seq<Assignment>)
    requires !Assigns(stores, x.key)
    ensures Apply(fields[x.key := x.value], stores) == Apply(fields, stores)[x.key := x.value]
    decreases |stores|
  {
    if |stores| > 0 {
      var y := stores[0];
      assert y.key != x.key;
      assert !Assigns(stores[1..], x.key) by {
        forall j | 0 <= j < |stores[1..]| ensures stores[1..][j].key != x.key {
          assert stores[1..][j] == stores[j + 1];
        }
      }
      assert fields[x.key := x.value][y.key := y.value] == fields[y.key := y.value][x.key := x.value];
      ApplyCommute(fields[y.key := y.value], x, stores[1..]);
    }
  }

  /** The stores from cursor `i` on are those of the step there, then those
      from where it leaves the cursor. */
  lemma AssignmentsAt(lines: seq<string>, i: nat, next: nat, a: Option<Assignment>)
    requires i < next && i < |lines| && Step(lines[i..]) == StepResult(next - i, a)
    ensures next <= |lines|
    ensures Assignments(lines[i..]) == Stored(StepResult(next - i, a)) + Assignments(lines[next..])
  {
    assert lines[i..][next - i..] == lines[next..];
  }

  /** A step that stores nothing leaves the map to the rest of the lines. */
  lemma LoopSkip(fields: Fields, lines: seq<string>, i: nat, next: nat)
    requires i < next && i < |lines| && Step(lines[i..]) == StepResult(next - i, None)
    ensures next <= |lines|
    ensures Apply(fields, Assignments(lines[i..])) == Apply(fields, Assignments(lines[next..]))
  {
    AssignmentsAt(lines, i, next, None);
    assert Stored(StepResult(next - i, None)) == [];
    assert [] + Assignments(lines[next..]) == Assignments(lines[next..]);
  }

  /** A step that stores `x` updates the map with it, then the rest of the
      lines follow. */
  lemma LoopStore(fields: Fields, lines: seq<string>, i: nat, next: nat, x: Assignment)
    requires i < next && i < |lines| && Step(lines[i..]) == StepResult(next - i, Some(x))
    ensures next <= |lines|
    ensures Apply(fields, Assignments(lines[i..])) == Apply(fields[x.key := x.value], Assignments(lines[next..]))
  {
    AssignmentsAt(lines, i, next, Some(x));
    StoreFirst(fields, x, Assignments(lines[next..]));
  }

  /** Performing `x` first is one update before the rest. */
  lemma StoreFirst(fields: Fields, x: Assignment, rest: seq<Assignment>)
    ensures Apply(fields, [x] + rest) == Apply(fields[x.key := x.value], rest)
  {
    assert ([x] + rest)[1..] == rest;
  }

  /** The step at a list field line, given where the inner loop of the
      source stopped and what it gathered. */
  lemma ListStepAt(lines: seq<string>, start: nat, i: nat, items: seq<string>)
    requires start < |lines| && Classify(lines[start]).Field?
    requires Classify(lines[start]).value == [] && start + 1 < |lines| && IsDashLine(lines[start + 1])
    requires start + 1 <= i <= |lines|
    requires forall j :: start + 1 <= j < i ==> IsDashLine(lines[j])
    requires i == |lines| || !IsDashLine(lines[i])
    requires items == ListItems(lines[start + 1..i])
    ensures Step(lines[start..]) == StepResult(i - start, Some(Assignment(Classify(lines[start]).key, List(items))))
  {
    var ls := lines[start..];
    assert ls[0] == lines[start] && ls[1] == lines[start + 1];
    ListStepShape(ls);
    var m := Step(ls).consumed;
    if m < i - start {
      assert false;
    }
    if m > i - start {
      assert false;
    }
    assert ls[1..m] == lines[start + 1..i];
  }

  /** The inner loop of the source: from `from`, gather the items of the
      dash lines up to the first line that is not one. */
  method GatherItems(lines: seq<string>, from: nat) returns (items: seq<string>, next: nat)
    requires from <= |lines|
    ensures from <= next <= |lines|
    ensures forall j :: from <= j < next ==> IsDashLine(lines[j])
    ensures next == |lines| || !IsDashLine(lines[next])
    ensures items == ListItems(lines[from..next])
  {
    items := [];
    next := from;
    assert lines[from..next] == [];
    while next < |lines| && IsDashLine(lines[next])
      invariant from <= next <= |lines|
      invariant forall j :: from <= j < next ==> IsDashLine(lines[j])
      invariant items == ListItems(lines[from..next])
      decreases |lines| - next
    {
      GatherOne(lines, from, next, items);
      items := items + [ListItem(lines[next])];
      next := next + 1;
    }
  }

  /** One turn of the inner loop keeps its invariant. */
  lemma GatherOne(lines: seq<string>, from: nat, next: nat, items: seq<string>)
    requires from <= next < |lines| && IsDashLine(lines[next])
    requires forall j :: from <= j < next ==> IsDashLine(lines[j])
    requires items == ListItems(lines[from..next])
    ensures forall j :: from <= j < next + 1 ==> IsDashLine(lines[j])
    ensures items + [ListItem(lines[next])] == ListItems(lines[from..next + 1])
  {
    ListItemsExtend(lines, from, next);
  }

  /** One turn of the parsing loop at cursor `i`, as the source writes it:
      skip a blank line, gather a list after a `key:` line followed by a dash
      line, store a scalar after any other `key:` line, and skip anything
      else. The turn moves the cursor forward and does what the stepwise
      definition says. */
  method LoopTurn(lines: seq<string>, i: nat, fields: Fields) returns (next: nat, updated: Fields)
    requires i < |lines|
    ensures i < next <= |lines|
    ensures Apply(fields, Assignments(lines[i..])) == Apply(updated, Assignments(lines[next..]))
  {
    var line := lines[i];
    assert lines[i..][0] == line;
    if Strip(line) == [] {
      SkipStep(lines[i..]);
      LoopSkip(fields, lines, i, i + 1);
      return i + 1, fields;
    }
    var c := Classify(line);
    if c.Field? {
      if c.value == [] && i + 1 < |lines| && IsDashLine(lines[i + 1]) {
        var items;
        items, next := GatherItems(lines, i + 1);
        ListStepAt(lines, i, next, items);
        LoopStore(fields, lines, i, next, Assignment(c.key, List(items)));
        updated := fields[c.key := List(items)];
      } else {
        if i + 1 < |lines| {
          assert lines[i..][1] == lines[i + 1];
        }
        ScalarStep(lines[i..]);
        LoopStore(fields, lines, i, i + 1, Assignment(c.key, Scalar(StripQuotes(c.value))));
        next, updated := i + 1, fields[c.key := Scalar(StripQuotes(c.value))];
      }
    } else {
      SkipStep(lines[i..]);
      LoopSkip(fields, lines, i, i + 1);
      next, updated := i + 1, fields;
    }
  }

  /** The parsing loop of the source: a cursor over the header lines, moved
      by one turn at a time. It builds the same map as the stepwise
      definition. */
  method ParseHeaderLoop(lines: seq<string>) returns (fields: Fields)
    ensures fields == ParseHeaderLines(lines)
  {
    fields := map[];
    var i := 0;
    assert lines[i..] == lines;
    while i < |lines|
      invariant i <= |lines|
      invariant Apply(fields, Assignments(lines[i..])) == ParseHeaderLines(lines)
      decreases |lines| - i
    {
      i, fields := LoopTurn(lines, i, fields);
    }
    assert lines[i..] == [];
  }

  /** The closing delimiter of a header. */
  const Closing: string := "\n---"


  /** `parse_frontmatter`: the header fields and the body of a document.
      Without a leading `---`, or without a `\n---` at or after index 3, the
      document has no header and its body is the whole text, unstripped. */
  function ParseFrontmatter(content: string): (r: (Fields, string))
    ensures !StartsWith(content, "---") ==> r == (map[], content)
    ensures (forall k :: 3 <= k ==> !MatchesAt(content, Closing, k)) ==> r == (map[], content)
  {
    if !StartsWith(content, "---") then (map[], content)
    else
      var end := Find(content, Closing, 3);
      if end == -1 then (map[], content)
      else (ParseHeaderLines(SplitLines(Strip(content[3..end]))), Strip(content[end + 4..]))
  }

  /** Otherwise the first `\n---` at or after index 3 ends the header: the
      header text is what lies between index 3 and it, stripped, and the body
      is what follows its four characters, stripped. A `\n----` line closes
      the header too, leaving `-` at the start of the body. */
  lemma ParseFrontmatterSplit(content: string, e: nat)
    requires StartsWith(content, "---")
    requires 3 <= e && MatchesAt(content, Closing, e)
    requires forall k :: 3 <= k < e ==> !MatchesAt(content, Closing, k)
    ensures ParseFrontmatter(content) == (ParseHeaderLines(SplitLines(Strip(content[3..e]))), Strip(content[e + 4..]))
  {
    var end := Find(content, Closing, 3);
    assert end == e by {
      FindFirst(content, Closing, 3, e);
    }
    assert content[3..end] == content[3..e];
  }
}
