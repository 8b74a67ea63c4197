/** A worked example of the whole pipeline: a lyric file of two blocks is
    parsed, then shown under two different selections. */
module Example {
  import opened Wrappers
  import opened Text
  import opened Tags
  import opened Parser
  import opened Selector

  /** The lines of the example file: a ja, romaji and zh block, a blank
      line, then a block with ja and all text. */
  function ExampleLines(a: string, b: string, c: string, d: string, e: string): seq<string> {
    [TagLine(Lang(Ja), a), TagLine(Lang(Romaji), b), TagLine(Lang(Zh), c), "",
     TagLine(Lang(Ja), d), TagLine(All, e)]
  }

  /** The row of the first block. */
  function First(a: string, b: string, c: string): Row {
    map[Lang(Ja) := a, Lang(Romaji) := b, Lang(Zh) := c]
  }

  /** The row of the second block. */
  function Second(d: string, e: string): Row {
    map[Lang(Ja) := d, All := e]
  }

  /** The entries of the first block make the first row. */
  lemma FirstRow(a: string, b: string, c: string)
    ensures EntryRow([Entry(Lang(Ja), a), Entry(Lang(Romaji), b), Entry(Lang(Zh), c)]) == First(a, b, c)
  {
    var es := [Entry(Lang(Ja), a), Entry(Lang(Romaji), b), Entry(Lang(Zh), c)];
    assert es[..2] == [es[0], es[1]];
    assert es[..2][..1] == [es[0]];
    assert es[..2][..1][..0] == [];
    assert EntryRow(es[..2][..1]) == map[Lang(Ja) := a];
    assert EntryRow(es[..2]) == map[Lang(Ja) := a, Lang(Romaji) := b];
  }

  /** The entries of the second block make the second row. */
  lemma SecondRow(d: string, e: string)
    ensures EntryRow([Entry(Lang(Ja), d), Entry(All, e)]) == Second(d, e)
  {
    var es := [Entry(Lang(Ja), d), Entry(All, e)];
    assert es[..1] == [es[0]];
    assert es[..1][..0] == [];
    assert EntryRow(es[..1]) == map[Lang(Ja) := d];
  }

  /** The first block fills the first row. */
  lemma FirstBlock(st: State, a: string, b: string, c: string)
    requires st.row == map[] && Clean(a) && Clean(b) && Clean(c)
    ensures RunFrom(st, TagLines([Entry(Lang(Ja), a), Entry(Lang(Romaji), b), Entry(Lang(Zh), c)]))
      == st.(row := First(a, b, c), last := Some(Lang(Zh)))
  {
    TagLinesFill(st, [Entry(Lang(Ja), a), Entry(Lang(Romaji), b), Entry(Lang(Zh), c)]);
    FirstRow(a, b, c);
  }

  /** The second block fills the second row. */
  lemma SecondBlock(st: State, d: string, e: string)
    requires st.row == map[] && Clean(d) && Clean(e)
    ensures RunFrom(st, TagLines([Entry(Lang(Ja), d), Entry(All, e)]))
      == st.(row := Second(d, e), last := Some(All))
  {
    TagLinesFill(st, [Entry(Lang(Ja), d), Entry(All, e)]);
    SecondRow(d, e);
  }

  /** The example file is its first block, a blank line and its second block. */
  lemma ExampleBlocks(a: string, b: string, c: string, d: string, e: string)
    ensures ExampleLines(a, b, c, d, e) ==
      TagLines([Entry(Lang(Ja), a), Entry(Lang(Romaji), b), Entry(Lang(Zh), c)]) + [""]
      + TagLines([Entry(Lang(Ja), d), Entry(All, e)])
  {
    TagLinesAt([Entry(Lang(Ja), a), Entry(Lang(Romaji), b), Entry(Lang(Zh), c)]);
    TagLinesAt([Entry(Lang(Ja), d), Entry(All, e)]);
  }

  /** The blank line after the first block finishes the first row. */
  lemma ThroughBlank(a: string, b: string, c: string)
    requires Clean(a) && Clean(b) && Clean(c)
    ensures RunFrom(Start, TagLines([Entry(Lang(Ja), a), Entry(Lang(Romaji), b), Entry(Lang(Zh), c)]) + [""])
      == State([First(a, b, c)], map[], None)
  {
    var first := TagLines([Entry(Lang(Ja), a), Entry(Lang(Romaji), b), Entry(Lang(Zh), c)]);
    FirstBlock(Start, a, b, c);
    var s3 := State([], First(a, b, c), Some(Lang(Zh)));
    RunFromAppend(Start, first, [""]);
    RunFromSingle(s3, "");
    StepBlank(s3, "");
    assert Lang(Ja) in s3.row;
  }

  /** The pass over the example lines ends with the first row finished and
      the second one pending. */
  lemma RunExample(a: string, b: string, c: string, d: string, e: string)
    requires Clean(a) && Clean(b) && Clean(c) && Clean(d) && Clean(e)
    ensures RunFrom(Start, ExampleLines(a, b, c, d, e)) == State([First(a, b, c)], Second(d, e), Some(All))
  {
    var first := TagLines([Entry(Lang(Ja), a), Entry(Lang(Romaji), b), Entry(Lang(Zh), c)]);
    var second := TagLines([Entry(Lang(Ja), d), Entry(All, e)]);
    ExampleBlocks(a, b, c, d, e);
    ThroughBlank(a, b, c);
    RunFromAppend(Start, first + [""], second);
    SecondBlock(State([First(a, b, c)], map[], None), d, e);
  }

  /** Each line of the example file is one line, and the file starts with `[`. */
  lemma ExampleLinesSingle(a: string, b: string, c: string, d: string, e: string)
    requires Clean(a) && Clean(b) && Clean(c) && Clean(d) && Clean(e)
    ensures var ls := ExampleLines(a, b, c, d, e);
      (forall i :: 0 <= i < |ls| ==> '\n' !in ls[i] && '\r' !in ls[i]) && ls[0][0] == '['
  {
    TagLineSingle(Lang(Ja), a);
    TagLineSingle(Lang(Romaji), b);
    TagLineSingle(Lang(Zh), c);
    TagLineSingle(Lang(Ja), d);
    TagLineSingle(All, e);
  }

  /** The example file parses into two rows: the blank line closes the
      first, and the `all` line joins the second. */
  lemma ParseExample(a: string, b: string, c: string, d: string, e: string)
    requires Clean(a) && Clean(b) && Clean(c) && Clean(d) && Clean(e)
    ensures Parse(Join(ExampleLines(a, b, c, d, e), "\n")) == [First(a, b, c), Second(d, e)]
  {
    var ls := ExampleLines(a, b, c, d, e);
    ExampleLinesSingle(a, b, c, d, e);
    ParseJoinedLines(ls);
    RunExample(a, b, c, d, e);
    var last := State([First(a, b, c)], Second(d, e), Some(All));
    assert All in last.row;
    assert Flush(last).rows == [First(a, b, c)] + [Second(d, e)];
  }

  // The example shown under two selections

  /** A clean text is its own trimmed form and is not blank. */
  lemma CleanTrimmed(s: string)
    requires Clean(s)
    ensures Trim(s) == s && s != []
  {
    TrimUnpadded(s);
  }

  /** Two rows with non-empty lines are both shown, in order. */
  lemma EmittedTwo(r1: Row, r2: Row, active: seq<LangKey>, selected: set<LangKey>)
    requires RowLine(r1, active, selected) != [] && RowLine(r2, active, selected) != []
    ensures Emitted([r1, r2], active, selected) == [RowLine(r1, active, selected), RowLine(r2, active, selected)]
  {
    var ls := RowLines([r1, r2], active, selected);
    assert ls[..1][..0] == [];
    assert NonEmpty(ls[..1]) == [ls[0]];
    assert NonEmpty(ls) == NonEmpty(ls[..1]) + [ls[1]];
  }

  /** Ja and zh have text in the first row. */
  lemma JaZhAvailable(a: string, b: string, c: string, d: string, e: string)
    requires Clean(a) && Clean(c)
    ensures Available([First(a, b, c), Second(d, e)], Ja) && Available([First(a, b, c), Second(d, e)], Zh)
  {
    CleanTrimmed(a);
    CleanTrimmed(c);
    assert HasText(First(a, b, c), Lang(Ja)) && HasText(First(a, b, c), Lang(Zh));
  }

  /** The active keys of rows with ja and zh text, under {ja, zh}. */
  lemma ActiveJaZh(rows: seq<Row>)
    requires Available(rows, Ja) && Available(rows, Zh)
    ensures ActiveKeys(rows, {Ja, Zh}) == [Ja, Zh]
  {
    ActiveAllAvailable(rows, {Ja, Zh}, [Ja, Zh]);
  }

  /** Romaji has text in the first row. */
  lemma RomajiAvailable(a: string, b: string, c: string, d: string, e: string)
    requires Clean(b)
    ensures Available([First(a, b, c), Second(d, e)], Romaji)
  {
    CleanTrimmed(b);
    assert HasText(First(a, b, c), Lang(Romaji));
  }

  /** The active keys of rows with romaji text, under {romaji}. */
  lemma ActiveRomaji(rows: seq<Row>)
    requires Available(rows, Romaji)
    ensures ActiveKeys(rows, {Romaji}) == [Romaji]
  {
    ActiveAllAvailable(rows, {Romaji}, [Romaji]);
  }

  /** The ja cell of a row with clean ja text. */
  lemma JaCell(row: Row, a: string)
    requires Lang(Ja) in row && row[Lang(Ja)] == a && Clean(a)
    ensures RowCells(row, [Ja]) == [Cell(Lang(Ja), a)]
  {
    CleanTrimmed(a);
    var keys: seq<LangKey> := [Ja];
    assert keys[..0] == [];
  }

  /** Under {ja, zh} the first row shows its ja and zh text, in that order. */
  lemma FirstLineJaZh(a: string, b: string, c: string)
    requires Clean(a) && Clean(c)
    ensures RowLine(First(a, b, c), [Ja, Zh], {Ja, Zh}) == [Cell(Lang(Ja), a), Cell(Lang(Zh), c)]
  {
    var row := First(a, b, c);
    JaCell(row, a);
    CleanTrimmed(c);
    var keys: seq<LangKey> := [Ja, Zh];
    assert keys[..1] == [Ja];
    assert HasText(row, Lang(Zh)) && row[Lang(Zh)] == c;
  }

  /** Under {ja, zh} the second row shows only its ja text. */
  lemma SecondLineJaZh(d: string, e: string)
    requires Clean(d)
    ensures RowLine(Second(d, e), [Ja, Zh], {Ja, Zh}) == [Cell(Lang(Ja), d)]
  {
    var row := Second(d, e);
    JaCell(row, d);
    var keys: seq<LangKey> := [Ja, Zh];
    assert keys[..1] == [Ja];
    assert !HasText(row, Lang(Zh));
  }

  /** With ja and zh selected, the first row shows its ja and zh text in
      that order and the second only its ja text: a language match leaves
      no room for the `all` fallback. */
  lemma SelectExampleJaZh(a: string, b: string, c: string, d: string, e: string)
    requires Clean(a) && Clean(b) && Clean(c) && Clean(d) && Clean(e)
    ensures Select([First(a, b, c), Second(d, e)], {Ja, Zh}) ==
      Rendered([[Cell(Lang(Ja), a), Cell(Lang(Zh), c)], [Cell(Lang(Ja), d)]])
  {
    JaZhAvailable(a, b, c, d, e);
    ActiveJaZh([First(a, b, c), Second(d, e)]);
    FirstLineJaZh(a, b, c);
    SecondLineJaZh(d, e);
    EmittedTwo(First(a, b, c), Second(d, e), [Ja, Zh], {Ja, Zh});
  }

  /** Under {romaji} the first row shows its romaji text. */
  lemma FirstLineRomaji(a: string, b: string, c: string)
    requires Clean(b)
    ensures RowLine(First(a, b, c), [Romaji], {Romaji}) == [Cell(Lang(Romaji), b)]
  {
    CleanTrimmed(b);
    var keys: seq<LangKey> := [Romaji];
    assert keys[..0] == [];
  }

  /** Under {romaji} the second row, without romaji text, falls back to its `all` text. */
  lemma SecondLineRomaji(d: string, e: string)
    requires Clean(e)
    ensures RowLine(Second(d, e), [Romaji], {Romaji}) == [Cell(All, e)]
  {
    CleanTrimmed(e);
    var keys: seq<LangKey> := [Romaji];
    assert keys[..0] == [];
    assert Lang(Romaji) !in Second(d, e);
    assert RowCells(Second(d, e), keys) == [];
  }

  /** With only romaji selected, the first row shows its romaji text and
      the second, which has no romaji text, falls back to its `all` text. */
  lemma SelectExampleRomaji(a: string, b: string, c: string, d: string, e: string)
    requires Clean(a) && Clean(b) && Clean(c) && Clean(d) && Clean(e)
    ensures Select([First(a, b, c), Second(d, e)], {Romaji}) ==
      Rendered([[Cell(Lang(Romaji), b)], [Cell(All, e)]])
  {
    RomajiAvailable(a, b, c, d, e);
    ActiveRomaji([First(a, b, c), Second(d, e)]);
    FirstLineRomaji(a, b, c);
    SecondLineRomaji(d, e);
    EmittedTwo(First(a, b, c), Second(d, e), [Romaji], {Romaji});
  }
}
