/** The tagged-lyrics parser (`parseTaggedLyrics` in src/main.ts): one
    forward pass over the lines of a lyric file that groups tagged lines into
    rows separated by blank lines. */
module Parser {
  import opened Wrappers
  import opened Text
  import opened Tags

  /** One lyric row: the text gathered for each tag between two blank lines. */
  type Row = map<TagKey, string>

  /** The parser's state between two lines: the finished rows, the row being
      built and the tag that continuation lines are appended to. */
  datatype State = State(rows: seq<Row>, row: Row, last: Option<TagKey>)

  const Start: State := State([], map[], None)

  /** How a right-trimmed line is treated. */
  datatype LineKind =
    | Blank
    | Tagged(name: string, content: string)
    | Continuation

  predicate NoLineTerminator(s: string) {
    forall i :: 0 <= i < |s| ==> !IsLineTerminator(s[i])
  }

  /** `line` matches /^\[([^\]]+)\]\s*(.*)$/ and the engine reports `name`
      and `content` as its two groups: `[`, a non-empty name without `]`,
      `]`, white space, then a content without line terminators. `\s*` is
      greedy, so the content does not start with white space. */
  predicate IsTagMatch(line: string, name: string, content: string) {
    && 0 < |name|
    && |name| + 2 + |content| <= |line|
    && line[0] == '['
    && (forall i :: 0 <= i < |name| ==> line[i + 1] == name[i] && name[i] != ']')
    && line[|name| + 1] == ']'
    && (forall i :: 0 <= i < |content| ==> line[|line| - |content| + i] == content[i])
    && WhiteBetween(line, |name| + 2, |line| - |content|)
    && NoLineTerminator(content)
    && (content == [] || !IsWhite(content[0]))
  }

  /** Index of the first `c` in `s` at or after `from`, or |s| when there is none. */
  function FindFrom(s: string, c: char, from: nat): (n: nat)
    requires from <= |s|
    ensures from <= n <= |s|
    ensures forall i :: from <= i < n ==> s[i] != c
    ensures n < |s| ==> s[n] == c
    decreases |s| - from
  {
    if from == |s| || s[from] == c then from else FindFrom(s, c, from + 1)
  }

  /** Index of the first character at or after `from` that is not white
      space: where a greedy `\s*` starting at `from` stops. */
  function SkipWhite(s: string, from: nat): (n: nat)
    requires from <= |s|
    ensures from <= n <= |s|
    ensures WhiteBetween(s, from, n)
    ensures n < |s| ==> !IsWhite(s[n])
    decreases |s| - from
  {
    if from == |s| || !IsWhite(s[from]) then from else SkipWhite(s, from + 1)
  }

  /** Classification of a right-trimmed line: blank when `trim` leaves
      nothing (that is, when the line is all white space: see the contract
      of `Trim`), tagged when the tag-line pattern matches, otherwise a
      continuation. */
  function Classify(line: string): LineKind {
    if AllWhite(line) then Blank
    else if line[0] != '[' then Continuation
    else
      var n := FindFrom(line, ']', 1);
      if n == 1 || n == |line| then Continuation
      else
        var j := SkipWhite(line, n + 1);
        var content := line[j..];
        if NoLineTerminator(content) then Tagged(line[1..n], content) else Continuation
  }

  /** Exactly the lines that are all white space are blank. */
  lemma ClassifyBlank(line: string)
    ensures Classify(line) == Blank <==> AllWhite(line)
  {
  }

  /** A line classified as tagged matches the tag-line pattern with the reported groups. */
  lemma ClassifySound(line: string)
    ensures Classify(line).Tagged? ==> IsTagMatch(line, Classify(line).name, Classify(line).content)
  {
    if Classify(line).Tagged? {
      var n := FindFrom(line, ']', 1);
      TagMatchAt(line, n, SkipWhite(line, n + 1));
    }
  }

  /** The groups of a match whose `]` is at index `n` and whose content starts at `j`. */
  lemma TagMatchAt(line: string, n: nat, j: nat)
    requires 1 < n < |line| && line[0] == '['
    requires forall i :: 1 <= i < n ==> line[i] != ']'
    requires line[n] == ']'
    requires n + 1 <= j <= |line|
    requires WhiteBetween(line, n + 1, j)
    requires j < |line| ==> !IsWhite(line[j])
    requires NoLineTerminator(line[j..])
    ensures IsTagMatch(line, line[1..n], line[j..])
  {
  }

  /** A line that fits the tag-line pattern is classified as tagged, with
      exactly the groups of that match. */
  lemma ClassifyTagMatch(line: string, name: string, content: string)
    requires IsTagMatch(line, name, content)
    ensures Classify(line) == Tagged(name, content)
  {
    var n := FindFrom(line, ']', 1);
    forall i | 1 <= i <= |name|
      ensures line[i] != ']'
    {
      assert line[i] == name[i - 1];
    }
    assert n == |name| + 1;
    var j := SkipWhite(line, n + 1);
    var p := |line| - |content|;
    assert |content| > 0 ==> !IsWhite(line[p]) by {
      if |content| > 0 { assert line[p] == content[0]; }
    }
    assert j == p;
    assert line[j..] == content;
    assert line[1..n] == name;
  }

  /** Text for `key` after appending `text`: an entry that is absent or
      empty (falsy) is replaced, any other is joined with a newline. */
  function Appended(row: Row, key: TagKey, text: string): string {
    if key in row && row[key] != [] then row[key] + "\n" + text else text
  }

  /** `pushRowIfAny`: the row is kept when it has a key, and `last` is reset. */
  function Flush(st: State): State {
    if st.row != map[] then State(st.rows + [st.row], map[], None)
    else st.(last := None)
  }

  /** One iteration of the loop over the lines. */
  function Step(st: State, raw: string): State {
    var line := TrimEnd(raw);
    match Classify(line)
    case Blank => Flush(st)
    case Tagged(name, content) =>
      (match MapTag(name)
       case None => st.(last := None)
       case Some(key) => st.(row := st.row[key := Appended(st.row, key, content)], last := Some(key)))
    case Continuation =>
      (match st.last
       case None => st
       case Some(key) => st.(row := st.row[key := Appended(st.row, key, line)]))
  }

  /** The state after the given lines, starting from `st`. */
  function RunFrom(st: State, lines: seq<string>): State
    decreases |lines|
  {
    if lines == [] then st
    else Step(RunFrom(st, lines[..|lines| - 1]), lines[|lines| - 1])
  }

  /** The lines of a text: one leading byte-order mark dropped, CR LF and
      CR turned into LF, then split at LF. */
  function Lines(text: string): seq<string> {
    Split(ToLF(StripBom(text)))
  }

  /** The rows of a sequence of lines, the last row flushed at the end. */
  function ParseLines(lines: seq<string>): seq<Row> {
    Flush(RunFrom(Start, lines)).rows
  }

  function Parse(text: string): seq<Row> {
    ParseLines(Lines(text))
  }

  /** The parser as the program runs it: a loop that updates `rows`, `row`
      and `last` line by line. */
  method ParseTaggedLyrics(text: string) returns (rows: seq<Row>)
    ensures rows == Parse(text)
  {
    var norm := ToLF(StripBom(text));
    var lines := Split(norm);
    rows := [];
    var row: Row := map[];
    var last: Option<TagKey> := None;
    for i := 0 to |lines|
      invariant State(rows, row, last) == RunFrom(Start, lines[..i])
    {
      RunFromNext(Start, lines, i);
      ghost var before := State(rows, row, last);
      var line := TrimEnd(lines[i]);
      match Classify(line)
      case Blank =>
        TrimEndAllWhite(lines[i]);
        ClassifyBlank(line);
        StepBlank(before, lines[i]);
        if row != map[] {
          rows := rows + [row];
          row := map[];
        }
        last := None;
      case Tagged(name, content) =>
        var key := MapTag(name);
        match key {
          case None =>
            StepUnknownTag(before, lines[i]);
            last := None;
          case Some(k) =>
            StepKnownTag(before, lines[i], k);
            row := row[k := Appended(row, k, content)];
            last := Some(k);
        }
      case Continuation =>
        StepContinuation(before, lines[i]);
        if last.Some? {
          row := row[last.value := Appended(row, last.value, line)];
        }
    }
    assert lines[..|lines|] == lines;
    if row != map[] {
      rows := rows + [row];
    }
  }

  // ---------------------------------------------------------------------
  // Properties of the parser

  predicate IsContinuationLine(raw: string) {
    Classify(TrimEnd(raw)) == Continuation
  }

  /** A line with a bracketed label that is not a known alias. */
  predicate IsUnknownTagLine(raw: string) {
    var k := Classify(TrimEnd(raw));
    k.Tagged? && MapTag(k.name) == None
  }

  predicate IsBlankLine(raw: string) {
    AllWhite(raw)
  }

  /** Number of blank (white-space only) lines. */
  function BlankCount(lines: seq<string>): (n: nat)
    ensures n <= |lines|
    decreases |lines|
  {
    if lines == [] then 0
    else BlankCount(lines[..|lines| - 1]) + (if IsBlankLine(lines[|lines| - 1]) then 1 else 0)
  }

  lemma {:induction false} RunFromAppend(st: State, a: seq<string>, b: seq<string>)
    ensures RunFrom(st, a + b) == RunFrom(RunFrom(st, a), b)
    decreases |b|
  {
    if b == [] {
      assert a + b == a;
    } else {
      var n := |b| - 1;
      assert (a + b)[..|a + b| - 1] == a + b[..n];
      assert (a + b)[|a + b| - 1] == b[n];
      RunFromAppend(st, a, b[..n]);
    }
  }

  lemma RunFromNext(st: State, lines: seq<string>, i: nat)
    requires i < |lines|
    ensures RunFrom(st, lines[..i + 1]) == Step(RunFrom(st, lines[..i]), lines[i])
  {
    assert lines[..i + 1][..i] == lines[..i];
  }

  lemma RunFromSingle(st: State, x: string)
    ensures RunFrom(st, [x]) == Step(st, x)
  {
    assert [x][..0] == [];
  }

  lemma RunFromCons(st: State, x: string, rest: seq<string>)
    ensures RunFrom(st, [x] + rest) == RunFrom(Step(st, x), rest)
  {
    RunFromAppend(st, [x], rest);
    assert [x][..0] == [];
  }

  predicate RowsNonEmpty(rows: seq<Row>) {
    forall i :: 0 <= i < |rows| ==> rows[i] != map[]
  }

  // The four cases of `Step`, one lemma each.

  lemma StepBlank(st: State, raw: string)
    requires IsBlankLine(raw)
    ensures Step(st, raw) == Flush(st)
  {
    TrimEndAllWhite(raw);
    ClassifyBlank(TrimEnd(raw));
  }

  lemma StepKnownTag(st: State, raw: string, key: TagKey)
    requires Classify(TrimEnd(raw)).Tagged? && MapTag(Classify(TrimEnd(raw)).name) == Some(key)
    ensures Step(st, raw) ==
      st.(row := st.row[key := Appended(st.row, key, Classify(TrimEnd(raw)).content)], last := Some(key))
  {
  }

  lemma StepUnknownTag(st: State, raw: string)
    requires IsUnknownTagLine(raw)
    ensures Step(st, raw) == st.(last := None)
  {
  }

  lemma StepContinuation(st: State, raw: string)
    requires IsContinuationLine(raw)
    ensures Step(st, raw) ==
      if st.last.Some? then st.(row := st.row[st.last.value := Appended(st.row, st.last.value, TrimEnd(raw))])
      else st
  {
  }

  /** A text that stands on a tag line as it is: non-empty, without white
      space at either end and without line terminators. */
  predicate Clean(s: string) {
    s != [] && !IsWhite(s[0]) && !IsWhite(s[|s| - 1]) && NoLineTerminator(s)
  }

  /** The tag line `[name]s` with the canonical name of `t`. */
  function TagLine(t: TagKey, s: string): string {
    "[" + Name(t) + "]" + s
  }

  /** A tag line with a clean text is one line that starts with `[`. */
  lemma TagLineSingle(t: TagKey, s: string)
    requires Clean(s)
    ensures var l := TagLine(t, s); '\n' !in l && '\r' !in l && l[0] == '['
  {
    var l := TagLine(t, s);
    forall i | 0 <= i < |l|
      ensures l[i] != '\n' && l[i] != '\r'
    {
      if i >= |l| - |s| {
        assert l[i] == s[i - (|l| - |s|)];
      }
    }
  }

  /** A line `[name]content` with a canonical tag name and a content
      without surrounding white space adds the content to the current row
      under that tag and makes the tag the one continuations go to. */
  lemma CanonicalTagLine(st: State, t: TagKey, content: string)
    requires Clean(content)
    ensures Step(st, TagLine(t, content)) ==
      st.(row := st.row[t := Appended(st.row, t, content)], last := Some(t))
  {
    var name := Name(t);
    var line := "[" + name + "]" + content;
    assert line[|line| - 1] == content[|content| - 1];
    TrimEndUnpadded(line);
    assert !IsWhite(line[0]);
    assert forall i :: 0 <= i < |name| ==> name[i] != ']' by {
      match t
      case Lang(Ja) => assert name == "ja";
      case Lang(Romaji) => assert name == "romaji";
      case Lang(Zh) => assert name == "zh";
      case Lang(ZhJp) => assert name == "zh-jp";
      case All => assert name == "all";
    }
    assert IsTagMatch(line, name, content);
    ClassifyTagMatch(line, name, content);
    MapTagCanonical(t);
    StepKnownTag(st, line, t);
  }

  /** Only a blank line can complete a row; every other line leaves the list of rows alone. */
  lemma StepRows(st: State, raw: string)
    ensures IsBlankLine(raw) ==> Step(st, raw) == Flush(st)
    ensures !IsBlankLine(raw) ==> Step(st, raw).rows == st.rows
  {
    var k := Classify(TrimEnd(raw));
    TrimEndAllWhite(raw);
    ClassifyBlank(TrimEnd(raw));
    if k.Tagged? {
      if MapTag(k.name).Some? {
        StepKnownTag(st, raw, MapTag(k.name).value);
      } else {
        StepUnknownTag(st, raw);
      }
    } else if k.Continuation? {
      StepContinuation(st, raw);
    } else {
      StepBlank(st, raw);
    }
  }

  lemma StepRowCount(st: State, raw: string)
    ensures |Step(st, raw).rows| <= |st.rows| + (if IsBlankLine(raw) then 1 else 0)
  {
    StepRows(st, raw);
  }

  lemma FlushRowsNonEmpty(st: State)
    requires RowsNonEmpty(st.rows)
    ensures RowsNonEmpty(Flush(st).rows)
  {
  }

  /** Rows are only ever completed when they hold a key, so no parsed row is empty. */
  lemma {:induction false} RunFromRowsNonEmpty(st: State, lines: seq<string>)
    requires RowsNonEmpty(st.rows)
    ensures RowsNonEmpty(RunFrom(st, lines).rows)
    decreases |lines|
  {
    if lines != [] {
      var n := |lines| - 1;
      RunFromRowsNonEmpty(st, lines[..n]);
      var mid := RunFrom(st, lines[..n]);
      assert RunFrom(st, lines) == Step(mid, lines[n]);
      StepRows(mid, lines[n]);
      FlushRowsNonEmpty(mid);
    }
  }

  lemma ParseRowsNonEmpty(text: string)
    ensures RowsNonEmpty(Parse(text))
  {
    RunFromRowsNonEmpty(Start, Lines(text));
    FlushRowsNonEmpty(RunFrom(Start, Lines(text)));
  }

  /** Only a blank line completes a row during the pass. */
  lemma {:induction false} RunFromRowCount(st: State, lines: seq<string>)
    ensures |RunFrom(st, lines).rows| <= |st.rows| + BlankCount(lines)
    decreases |lines|
  {
    if lines != [] {
      var n := |lines| - 1;
      RunFromRowCount(st, lines[..n]);
      var mid := RunFrom(st, lines[..n]);
      assert RunFrom(st, lines) == Step(mid, lines[n]);
      StepRowCount(mid, lines[n]);
      assert BlankCount(lines) == BlankCount(lines[..n]) + (if IsBlankLine(lines[n]) then 1 else 0);
    }
  }

  /** A text yields at most one row more than it has blank lines. */
  lemma ParseRowCount(text: string)
    ensures |Parse(text)| <= BlankCount(Lines(text)) + 1
  {
    RunFromRowCount(Start, Lines(text));
  }

  /** Normalising line ends beforehand does not change the rows. */
  lemma ParseIgnoresLineEnds(text: string)
    ensures Parse(ToLF(text)) == Parse(text)
  {
    StripBomToLF(text);
    ToLFIdempotent(StripBom(text));
  }

  /** The same lines with CR LF or CR line ends parse as with LF line ends. */
  lemma ParseLineEndStyles(ls: seq<string>, sep: string)
    requires sep == "\r\n" || sep == "\r"
    requires forall i :: 0 <= i < |ls| ==> '\n' !in ls[i] && '\r' !in ls[i]
    ensures Parse(Join(ls, sep)) == Parse(Join(ls, "\n"))
  {
    ToLFJoin(ls, sep);
    ParseIgnoresLineEnds(Join(ls, sep));
    ToLFJoin(ls, "\n");
    ParseIgnoresLineEnds(Join(ls, "\n"));
  }

  /** Lines whose line ends mix LF, CR LF and CR parse as with LF line ends. */
  lemma ParseMixedLineEnds(ls: seq<string>, seps: seq<string>)
    requires |ls| == |seps| + 1
    requires forall i :: 0 <= i < |ls| ==> '\n' !in ls[i] && '\r' !in ls[i]
    requires forall i :: 0 <= i < |seps| ==> IsLineEnd(seps[i])
    requires NoFusedEnds(ls, seps)
    ensures Parse(JoinSeps(ls, seps)) == Parse(Join(ls, "\n"))
  {
    ToLFJoinSeps(ls, seps);
    ParseIgnoresLineEnds(JoinSeps(ls, seps));
  }

  /** A text made of lines joined with LF is parsed line by line, as long
      as the first line does not start with a byte-order mark. */
  lemma ParseJoinedLines(ls: seq<string>)
    requires |ls| >= 1
    requires forall i :: 0 <= i < |ls| ==> '\n' !in ls[i] && '\r' !in ls[i]
    requires ls[0] == [] || ls[0][0] != BOM
    ensures Parse(Join(ls, "\n")) == ParseLines(ls)
  {
    var t := Join(ls, "\n");
    if |ls| > 1 {
      assert t == ls[0] + "\n" + Join(ls[1..], "\n");
    }
    assert t == [] || t[0] != BOM;
    ToLFJoin(ls, "\n");
    SplitJoin(ls);
  }

  /** One leading byte-order mark is ignored. */
  lemma ParseIgnoresBom(text: string)
    requires text == [] || text[0] != BOM
    ensures Parse([BOM] + text) == Parse(text)
  {
    assert ([BOM] + text)[1..] == text;
  }

  /** While `last` is unset, continuation lines change nothing. */
  lemma {:induction false} OrphanLinesDropped(st: State, conts: seq<string>)
    requires st.last == None
    requires forall i :: 0 <= i < |conts| ==> IsContinuationLine(conts[i])
    ensures RunFrom(st, conts) == st
    decreases |conts|
  {
    if conts != [] {
      var n := |conts| - 1;
      OrphanLinesDropped(st, conts[..n]);
      assert RunFrom(st, conts) == Step(st, conts[n]);
      StepContinuation(st, conts[n]);
    }
  }

  /** A line that is not a continuation line does not read `last`. */
  lemma StepIgnoresLast(st: State, x: string, l: Option<TagKey>)
    requires !IsContinuationLine(x)
    ensures Step(st.(last := l), x) == Step(st, x)
  {
  }

  /** An unknown tag line and the continuation lines after it contribute
      nothing: removing them leaves the rows unchanged. */
  lemma UnknownTagBlockIgnored(pre: seq<string>, u: string, conts: seq<string>, post: seq<string>)
    requires IsUnknownTagLine(u)
    requires forall i :: 0 <= i < |conts| ==> IsContinuationLine(conts[i])
    requires post == [] || !IsContinuationLine(post[0])
    ensures ParseLines(pre + [u] + conts + post) == ParseLines(pre + post)
  {
    SpliceAssoc(pre, u, conts, post);
    UnknownTagLines(RunFrom(Start, pre), u, conts);
    LastIgnoredBefore(RunFrom(Start, pre), post);
    SkipMiddle(pre, [u] + conts, post);
  }

  lemma SpliceAssoc<T>(pre: seq<T>, u: T, mid: seq<T>, post: seq<T>)
    ensures pre + [u] + mid + post == pre + ([u] + mid) + post
  {
  }

  /** Lines in the middle that only reset `last`, followed by lines whose
      rows do not depend on `last`, can be removed. */
  lemma SkipMiddle(pre: seq<string>, mid: seq<string>, post: seq<string>)
    requires RunFrom(RunFrom(Start, pre), mid) == RunFrom(Start, pre).(last := None)
    requires Flush(RunFrom(RunFrom(Start, pre).(last := None), post)).rows == Flush(RunFrom(RunFrom(Start, pre), post)).rows
    ensures ParseLines(pre + mid + post) == ParseLines(pre + post)
  {
    RunFromAppend(Start, pre + mid, post);
    RunFromAppend(Start, pre, mid);
    RunFromAppend(Start, pre, post);
  }

  /** An unknown tag line clears `last`, and the continuation lines after it change nothing. */
  lemma UnknownTagLines(st: State, u: string, conts: seq<string>)
    requires IsUnknownTagLine(u)
    requires forall i :: 0 <= i < |conts| ==> IsContinuationLine(conts[i])
    ensures RunFrom(st, [u] + conts) == st.(last := None)
  {
    RunFromCons(st, u, conts);
    StepUnknownTag(st, u);
    OrphanLinesDropped(st.(last := None), conts);
  }

  /** The rows finally produced do not depend on `last` when the next line is not a continuation line. */
  lemma LastIgnoredBefore(st: State, post: seq<string>)
    requires post == [] || !IsContinuationLine(post[0])
    ensures Flush(RunFrom(st.(last := None), post)).rows == Flush(RunFrom(st, post)).rows
  {
    if post != [] {
      assert [post[0]] + post[1..] == post;
      RunFromCons(st.(last := None), post[0], post[1..]);
      RunFromCons(st, post[0], post[1..]);
      StepIgnoresLast(st, post[0], None);
    }
  }

  /** After a blank line, continuation lines are dropped until the next tag line. */
  lemma BlankLineEndsBlock(pre: seq<string>, b: string, conts: seq<string>, post: seq<string>)
    requires IsBlankLine(b)
    requires forall i :: 0 <= i < |conts| ==> IsContinuationLine(conts[i])
    ensures ParseLines(pre + [b] + conts + post) == ParseLines(pre + [b] + post)
  {
    var st1 := RunFrom(Start, pre + [b]);
    assert st1.last == None by {
      RunFromAppend(Start, pre, [b]);
      assert [b][..0] == [];
    }
    RunFromAppend(Start, pre + [b] + conts, post);
    RunFromAppend(Start, pre + [b], conts);
    OrphanLinesDropped(st1, conts);
    RunFromAppend(Start, pre + [b], post);
  }

  // ---------------------------------------------------------------------
  // Accumulation of the text of one tag

  /** Pieces with the leading empty ones removed. */
  function DropLeadingEmpty(xs: seq<string>): (ys: seq<string>)
    ensures ys == [] || ys[0] != []
    decreases |xs|
  {
    if xs == [] then []
    else if xs[0] == [] then DropLeadingEmpty(xs[1..])
    else xs
  }

  /** The entry for one tag, as the pieces given for it in source order:
      empty pieces before the first non-empty one vanish, all the rest are
      joined with newlines. */
  function Accumulated(pieces: seq<string>): string {
    Join(DropLeadingEmpty(pieces), "\n")
  }

  lemma {:induction false} JoinSnoc(ys: seq<string>, p: string)
    requires ys != []
    ensures Join(ys + [p], "\n") == Join(ys, "\n") + "\n" + p
    decreases |ys|
  {
    if |ys| > 1 {
      assert (ys + [p])[1..] == ys[1..] + [p];
      JoinSnoc(ys[1..], p);
    }
  }

  lemma {:induction false} DropLeadingEmptySnoc(xs: seq<string>, p: string)
    ensures DropLeadingEmpty(xs + [p]) ==
      if DropLeadingEmpty(xs) == [] then DropLeadingEmpty([p]) else DropLeadingEmpty(xs) + [p]
    decreases |xs|
  {
    if xs != [] {
      assert (xs + [p])[0] == xs[0];
      assert (xs + [p])[1..] == xs[1..] + [p];
      if xs[0] == [] {
        DropLeadingEmptySnoc(xs[1..], p);
      }
    } else {
      assert xs + [p] == [p];
    }
  }

  /** Appending a piece to the accumulated entry: the step `Appended` takes. */
  lemma AccumulatedSnoc(xs: seq<string>, p: string)
    ensures Accumulated(xs + [p]) ==
      var a := Accumulated(xs); if a != [] then a + "\n" + p else p
  {
    DropLeadingEmptySnoc(xs, p);
    var d := DropLeadingEmpty(xs);
    if d != [] {
      JoinSnoc(d, p);
      assert |Join(d, "\n")| >= |d[0]| by {
        if |d| > 1 {
          assert Join(d, "\n") == d[0] + "\n" + Join(d[1..], "\n");
        }
      }
    }
  }

  /** The entry a row holds for `key`, as a list of zero or one piece. */
  function Existing(row: Row, key: TagKey): seq<string> {
    if key in row then [row[key]] else []
  }

  /** Every line right-trimmed. */
  function TrimEndAll(ls: seq<string>): (r: seq<string>)
    ensures |r| == |ls|
    decreases |ls|
  {
    if ls == [] then [] else TrimEndAll(ls[..|ls| - 1]) + [TrimEnd(ls[|ls| - 1])]
  }

  /** A recognised tag line followed by continuation lines: the tag's entry
      becomes the earlier entry, the tag line's content and the continuation
      lines accumulated in source order, `last` becomes the tag, and nothing
      else in the state changes. */
  lemma TagBlockAccumulates(st: State, t: string, conts: seq<string>, key: TagKey)
    requires Classify(TrimEnd(t)).Tagged? && MapTag(Classify(TrimEnd(t)).name) == Some(key)
    requires forall i :: 0 <= i < |conts| ==> IsContinuationLine(conts[i])
    ensures RunFrom(st, [t] + conts) ==
      var pieces := Existing(st.row, key) + [Classify(TrimEnd(t)).content] + TrimEndAll(conts);
      st.(row := st.row[key := Accumulated(pieces)], last := Some(key))
  {
    var c := Classify(TrimEnd(t)).content;
    RunFromCons(st, t, conts);
    StepKnownTag(st, t, key);
    TagBlockFrom(st, conts, key, c);
  }

  /** The state after a tag line for `key` with content `c` and the continuation lines after it. */
  lemma TagBlockFrom(st: State, conts: seq<string>, key: TagKey, c: string)
    requires forall i :: 0 <= i < |conts| ==> IsContinuationLine(conts[i])
    ensures RunFrom(st.(row := st.row[key := Appended(st.row, key, c)], last := Some(key)), conts) ==
      var pieces := Existing(st.row, key) + [c] + TrimEndAll(conts);
      st.(row := st.row[key := Accumulated(pieces)], last := Some(key))
  {
    var e := Existing(st.row, key);
    AppendedAccumulated(st.row, key, c);
    var st1 := st.(row := st.row[key := Appended(st.row, key, c)], last := Some(key));
    ContinuationsAccumulate(st1, conts, key, e + [c]);
    UpdateTwice(st, key, Appended(st.row, key, c), Accumulated(e + [c] + TrimEndAll(conts)), Some(key));
  }

  lemma UpdateTwice(st: State, key: TagKey, v: string, a: string, l: Option<TagKey>)
    ensures var st1 := st.(row := st.row[key := v], last := l);
      st1.(row := st1.row[key := a]) == st.(row := st.row[key := a], last := l)
  {
    assert st.row[key := v][key := a] == st.row[key := a];
  }

  /** Continuation lines after a tag add their right-trimmed text, in order,
      to the entry of that tag. */
  lemma {:induction false} ContinuationsAccumulate(st: State, conts: seq<string>, key: TagKey, pieces: seq<string>)
    requires forall i :: 0 <= i < |conts| ==> IsContinuationLine(conts[i])
    requires st.last == Some(key) && key in st.row && st.row[key] == Accumulated(pieces)
    ensures RunFrom(st, conts) == st.(row := st.row[key := Accumulated(pieces + TrimEndAll(conts))])
    decreases |conts|
  {
    if conts == [] {
      assert pieces + TrimEndAll(conts) == pieces;
      assert st.row[key := st.row[key]] == st.row;
    } else {
      var n := |conts| - 1;
      ContinuationsAccumulate(st, conts[..n], key, pieces);
      var mid := RunFrom(st, conts[..n]);
      assert RunFrom(st, conts) == Step(mid, conts[n]);
      ContinuationAccumulates(mid, conts[n], key, pieces + TrimEndAll(conts[..n]));
      TrimEndAllSnoc(pieces, conts);
    }
  }

  /** A continuation line adds its right-trimmed text as one more piece of the entry of `last`. */
  lemma ContinuationAccumulates(st: State, x: string, key: TagKey, pieces: seq<string>)
    requires IsContinuationLine(x)
    requires st.last == Some(key) && key in st.row && st.row[key] == Accumulated(pieces)
    ensures Step(st, x) == st.(row := st.row[key := Accumulated(pieces + [TrimEnd(x)])])
  {
    StepContinuation(st, x);
    AccumulatedSnoc(pieces, TrimEnd(x));
  }

  lemma TrimEndAllSnoc(front: seq<string>, ls: seq<string>)
    requires ls != []
    ensures front + TrimEndAll(ls) == front + TrimEndAll(ls[..|ls| - 1]) + [TrimEnd(ls[|ls| - 1])]
  {
    assert TrimEndAll(ls) == TrimEndAll(ls[..|ls| - 1]) + [TrimEnd(ls[|ls| - 1])];
  }

  /** `Appended` on a row is the accumulation of the row's entry and the new piece. */
  lemma AppendedAccumulated(row: Row, key: TagKey, text: string)
    ensures Appended(row, key, text) == Accumulated(Existing(row, key) + [text])
  {
    var e := Existing(row, key);
    AccumulatedSnoc(e, text);
    if key in row && row[key] == [] {
      assert DropLeadingEmpty(e) == DropLeadingEmpty(e[1..]);
      assert e[1..] == [];
    }
  }

  // Blocks of tag lines

  /** One entry of a block: a tag and its text. */
  datatype Entry = Entry(tag: TagKey, text: string)

  /** The tag lines of a block of entries, in order. */
  function TagLines(es: seq<Entry>): (ls: seq<string>)
    ensures |ls| == |es|
    decreases |es|
  {
    if es == [] then []
    else TagLines(es[..|es| - 1]) + [TagLine(es[|es| - 1].tag, es[|es| - 1].text)]
  }

  /** The row holding the entries. */
  function EntryRow(es: seq<Entry>): Row
    decreases |es|
  {
    if es == [] then map[] else EntryRow(es[..|es| - 1])[es[|es| - 1].tag := es[|es| - 1].text]
  }

  /** Entries with clean texts and pairwise different tags. */
  predicate Distinct(es: seq<Entry>) {
    && (forall i :: 0 <= i < |es| ==> Clean(es[i].text))
    && (forall i, j :: 0 <= i < j < |es| ==> es[i].tag != es[j].tag)
  }

  /** A tag none of the entries carries has no place in their row. */
  lemma {:induction false} EntryRowMissing(es: seq<Entry>, t: TagKey)
    requires forall i :: 0 <= i < |es| ==> es[i].tag != t
    ensures t !in EntryRow(es)
    decreases |es|
  {
    if es != [] {
      EntryRowMissing(es[..|es| - 1], t);
    }
  }

  /** The entries before the last are distinct too, and none has the last tag. */
  lemma DistinctFront(es: seq<Entry>)
    requires es != [] && Distinct(es)
    ensures Distinct(es[..|es| - 1])
    ensures forall i :: 0 <= i < |es| - 1 ==> es[i].tag != es[|es| - 1].tag
  {
    var n := |es| - 1;
    forall i, j | 0 <= i < j < n
      ensures es[..n][i].tag != es[..n][j].tag
    {
      assert es[..n][i] == es[i] && es[..n][j] == es[j];
    }
  }

  /** Each tag line is the line of the entry at the same place. */
  lemma {:induction false} TagLinesAt(es: seq<Entry>)
    ensures forall i :: 0 <= i < |es| ==> TagLines(es)[i] == TagLine(es[i].tag, es[i].text)
    decreases |es|
  {
    if es != [] {
      TagLinesAt(es[..|es| - 1]);
    }
  }

  lemma TagLinesSnoc(es: seq<Entry>)
    requires es != []
    ensures TagLines(es) == TagLines(es[..|es| - 1]) + [TagLine(es[|es| - 1].tag, es[|es| - 1].text)]
  {
  }

  lemma RunFromSnoc(st: State, front: seq<string>, line: string)
    ensures RunFrom(st, front + [line]) == Step(RunFrom(st, front), line)
  {
    RunFromAppend(st, front, [line]);
    RunFromSingle(RunFrom(st, front), line);
  }

  lemma FillBase(st: State, es: seq<Entry>)
    requires st.row == map[]
    ensures RunFrom(st, TagLines(es[..0])) == st && EntryRow(es[..0]) == st.row
  {
    assert es[..0] == [];
  }

  /** Adding the last entry's text to the row of the others, where its tag
      is absent, gives the row of all the entries. */
  lemma AddEntry(mid: State, es: seq<Entry>)
    requires es != [] && mid.row == EntryRow(es[..|es| - 1])
    requires forall i :: 0 <= i < |es| - 1 ==> es[i].tag != es[|es| - 1].tag
    ensures var e := es[|es| - 1];
      mid.(row := mid.row[e.tag := Appended(mid.row, e.tag, e.text)], last := Some(e.tag))
      == mid.(row := EntryRow(es), last := Some(e.tag))
  {
    EntryRowMissing(es[..|es| - 1], es[|es| - 1].tag);
  }

  /** Starting from an empty row, a block of tag lines with canonical names,
      clean texts and different tags fills the row with exactly those
      entries, and continuations go to the last tag. */
  lemma {:induction false} TagLinesFill(st: State, es: seq<Entry>)
    requires st.row == map[] && es != [] && Distinct(es)
    ensures RunFrom(st, TagLines(es)) == st.(row := EntryRow(es), last := Some(es[|es| - 1].tag))
    decreases |es|
  {
    var n := |es| - 1;
    var e := es[n];
    var front := TagLines(es[..n]);
    var mid := if n == 0 then st else st.(row := EntryRow(es[..n]), last := Some(es[..n][|es[..n]| - 1].tag));
    DistinctFront(es);
    if n == 0 {
      FillBase(st, es);
    } else {
      TagLinesFill(st, es[..n]);
    }
    TagLinesSnoc(es);
    RunFromSnoc(st, front, TagLine(e.tag, e.text));
    CanonicalTagLine(mid, e.tag, e.text);
    AddEntry(mid, es);
  }
}
