/** The display logic of `renderLyrics` and the availability test of
    `updateToggleAvailability` (src/main.ts): which languages a song has,
    which of them are shown, and which cells each parsed row contributes. */
module Selector {
  import opened Text
  import opened Tags
  import opened Parser

  /** One displayed cell: the tag it shows and its trimmed text. */
  datatype Cell = Cell(tag: TagKey, text: string)

  /** What the lyrics area shows for a loaded song: the "no content"
      placeholder, or the non-empty display lines in row order. */
  datatype Display = NoContent | Rendered(lines: seq<seq<Cell>>)

  /** `row[t]?.trim()` is a non-empty string: the entry exists and is not
      all white space (the same test, by the contract of `Trim`). */
  predicate HasText(row: Row, t: TagKey) {
    t in row && !AllWhite(row[t])
  }

  /** `rows.some(r => (r[k]?.trim()?.length ?? 0) > 0)`: some row has
      non-blank text for the language. */
  function Available(rows: seq<Row>, k: LangKey): bool
    decreases |rows|
  {
    rows != [] && (HasText(rows[0], Lang(k)) || Available(rows[1..], k))
  }

  /** A language is available exactly when some row has non-blank text for it. */
  lemma {:induction false} AvailableIff(rows: seq<Row>, k: LangKey)
    ensures Available(rows, k) <==> exists i :: 0 <= i < |rows| && HasText(rows[i], Lang(k))
    decreases |rows|
  {
    if rows != [] {
      AvailableIff(rows[1..], k);
      if exists i :: 0 <= i < |rows| && HasText(rows[i], Lang(k)) {
        var i :| 0 <= i < |rows| && HasText(rows[i], Lang(k));
        if i > 0 {
          assert HasText(rows[1..][i - 1], Lang(k));
        }
      }
      if !HasText(rows[0], Lang(k)) && Available(rows[1..], k) {
        var i :| 0 <= i < |rows| - 1 && HasText(rows[1..][i], Lang(k));
        assert HasText(rows[i + 1], Lang(k));
      }
    }
  }

  /** Every language appears in LANGS. */
  lemma AllInLangs()
    ensures forall k: LangKey :: k in LANGS
  {
    forall k: LangKey
      ensures k in LANGS
    {
      assert LANGS[Rank(k)] == k;
    }
  }

  /** The enabled state of every language toggle for a song: a toggle is
      usable exactly when its language is available. */
  function Availability(rows: seq<Row>): (m: map<LangKey, bool>)
    ensures forall k: LangKey :: k in m && m[k] == Available(rows, k)
  {
    AllInLangs();
    map k | k in LANGS :: Available(rows, k)
  }

  /** Keys in strictly increasing display order. */
  predicate Ordered(ks: seq<LangKey>) {
    forall i, j :: 0 <= i < j < |ks| ==> Rank(ks[i]) < Rank(ks[j])
  }

  /** Cells whose tags are in strictly increasing display order. */
  predicate CellsOrdered(cells: seq<Cell>) {
    forall i, j :: 0 <= i < j < |cells| ==> TagRank(cells[i].tag) < TagRank(cells[j].tag)
  }

  /** The keys of `keys`, in their order, that are selected and available. */
  function ActiveAmong(keys: seq<LangKey>, rows: seq<Row>, selected: set<LangKey>): (r: seq<LangKey>)
    ensures forall k :: k in r <==> k in keys && k in selected && Available(rows, k)
    ensures Ordered(keys) ==> Ordered(r)
    decreases |keys|
  {
    if keys == [] then []
    else
      var n := |keys| - 1;
      var front := ActiveAmong(keys[..n], rows, selected);
      assert Ordered(keys) ==> Ordered(keys[..n]);
      var k := keys[n];
      if k in selected && Available(rows, k) then
        assert Ordered(keys) ==> forall i :: 0 <= i < |front| ==> Rank(front[i]) < Rank(k) by {
          if Ordered(keys) {
            forall i | 0 <= i < |front|
              ensures Rank(front[i]) < Rank(k)
            {
              assert front[i] in keys[..n];
            }
          }
        }
        front + [k]
      else front
  }

  /** `activeKeys`: the languages in LANGS order that are selected and
      have text somewhere in the song. */
  function ActiveKeys(rows: seq<Row>, selected: set<LangKey>): seq<LangKey> {
    ActiveAmong(LANGS, rows, selected)
  }

  /** The language cells of one row for the given keys: one cell per key
      whose trimmed entry is non-empty, holding that trimmed text. */
  function RowCells(row: Row, keys: seq<LangKey>): seq<Cell>
    decreases |keys|
  {
    if keys == [] then []
    else
      var n := |keys| - 1;
      var k := keys[n];
      RowCells(row, keys[..n]) + (if HasText(row, Lang(k)) then [Cell(Lang(k), Trim(row[Lang(k)]))] else [])
  }

  /** Every cell is a language cell for one of the keys whose entry is
      non-blank in the row, and holds that entry trimmed. */
  lemma {:induction false} RowCellsSound(row: Row, keys: seq<LangKey>)
    ensures forall c :: c in RowCells(row, keys) ==>
      c.tag.Lang? && c.tag.key in keys && HasText(row, c.tag) && c.text == Trim(row[c.tag])
    decreases |keys|
  {
    if keys != [] {
      var n := |keys| - 1;
      RowCellsSound(row, keys[..n]);
      forall c | c in RowCells(row, keys)
        ensures c.tag.Lang? && c.tag.key in keys && HasText(row, c.tag) && c.text == Trim(row[c.tag])
      {
        if c in RowCells(row, keys[..n]) {
          assert c.tag.key in keys[..n];
        }
      }
    }
  }

  /** Every key whose entry is non-blank in the row gets its cell. */
  lemma {:induction false} RowCellsComplete(row: Row, keys: seq<LangKey>)
    ensures forall k :: k in keys && HasText(row, Lang(k)) ==> Cell(Lang(k), Trim(row[Lang(k)])) in RowCells(row, keys)
    decreases |keys|
  {
    if keys != [] {
      var n := |keys| - 1;
      var front := RowCells(row, keys[..n]);
      RowCellsComplete(row, keys[..n]);
      forall k | k in keys && HasText(row, Lang(k))
        ensures Cell(Lang(k), Trim(row[Lang(k)])) in RowCells(row, keys)
      {
        if k != keys[n] {
          assert k in keys[..n];
          assert Cell(Lang(k), Trim(row[Lang(k)])) in front;
        }
      }
    }
  }

  /** Cells follow the order of the keys. */
  lemma {:induction false} RowCellsOrdered(row: Row, keys: seq<LangKey>)
    requires Ordered(keys)
    ensures CellsOrdered(RowCells(row, keys))
    decreases |keys|
  {
    if keys != [] {
      var n := |keys| - 1;
      var k := keys[n];
      var front := RowCells(row, keys[..n]);
      RowCellsOrdered(row, keys[..n]);
      RowCellsSound(row, keys[..n]);
      forall i | 0 <= i < |front|
        ensures TagRank(front[i].tag) < Rank(k)
      {
        assert front[i] in front;
        var j :| 0 <= j < n && keys[..n][j] == front[i].tag.key;
      }
    }
  }

  /** The display line of one row: its language cells, or, when it has
      none, the `all` fallback if the row has `all` text and at least one
      language is selected. */
  function RowLine(row: Row, active: seq<LangKey>, selected: set<LangKey>): seq<Cell> {
    var cells := RowCells(row, active);
    if cells == [] && HasText(row, All) && selected != {} then [Cell(All, Trim(row[All]))]
    else cells
  }

  /** The display line of every row, in row order. */
  function RowLines(rows: seq<Row>, active: seq<LangKey>, selected: set<LangKey>): seq<seq<Cell>> {
    seq(|rows|, i requires 0 <= i < |rows| => RowLine(rows[i], active, selected))
  }

  /** The non-empty lines, in their order. */
  function NonEmpty(lines: seq<seq<Cell>>): (r: seq<seq<Cell>>)
    ensures |r| <= |lines|
    ensures forall l :: l in r <==> l in lines && l != []
    decreases |lines|
  {
    if lines == [] then []
    else
      var n := |lines| - 1;
      assert lines == lines[..n] + [lines[n]];
      NonEmpty(lines[..n]) + (if lines[n] != [] then [lines[n]] else [])
  }

  /** The display lines of the rows, in row order, empty lines omitted. */
  function Emitted(rows: seq<Row>, active: seq<LangKey>, selected: set<LangKey>): (lines: seq<seq<Cell>>)
    ensures |lines| <= |rows|
    ensures forall l :: l in lines ==> l != []
  {
    NonEmpty(RowLines(rows, active, selected))
  }

  /** The lyrics area for a loaded song and a selection. */
  function Select(rows: seq<Row>, selected: set<LangKey>): Display {
    var active := ActiveKeys(rows, selected);
    if active == [] then NoContent
    else
      var lines := Emitted(rows, active, selected);
      if lines == [] then NoContent else Rendered(lines)
  }

  // ---------------------------------------------------------------------
  // Properties of the selection

  lemma LangsOrdered()
    ensures Ordered(LANGS)
  {
  }

  /** Two sequences with the same members are both empty or both not. */
  lemma SameMembersEmpty(a: seq<LangKey>, b: seq<LangKey>)
    requires forall k :: k in a <==> k in b
    ensures a == [] <==> b == []
  {
    if a != [] {
      assert a[0] in b;
    }
    if b != [] {
      assert b[0] in a;
    }
  }

  /** The first key of an ordered sequence has the least rank. */
  lemma OrderedFirstLeast(a: seq<LangKey>, i: nat)
    requires Ordered(a) && i < |a|
    ensures Rank(a[0]) <= Rank(a[i])
  {
    if i > 0 {
      assert Rank(a[0]) < Rank(a[i]);
    }
  }

  /** Two ordered sequences with the same keys start with the same key. */
  lemma SameHead(a: seq<LangKey>, b: seq<LangKey>)
    requires Ordered(a) && Ordered(b) && a != [] && b != []
    requires forall k :: k in a <==> k in b
    ensures a[0] == b[0]
  {
    assert a[0] in a && b[0] in b;
    var j :| 0 <= j < |b| && b[j] == a[0];
    var i :| 0 <= i < |a| && a[i] == b[0];
    OrderedFirstLeast(a, i);
    OrderedFirstLeast(b, j);
    assert LANGS[Rank(a[0])] == a[0] && LANGS[Rank(b[0])] == b[0];
  }

  /** A key after the shared head of one ordered sequence comes after it
      in the other as well. */
  lemma TailMember(a: seq<LangKey>, b: seq<LangKey>, k: LangKey)
    requires Ordered(a) && a != [] && b != [] && a[0] == b[0]
    requires forall k :: k in a <==> k in b
    requires k in a[1..]
    ensures k in b[1..]
  {
    var p :| 1 <= p < |a| && a[p] == k;
    assert Rank(a[0]) < Rank(a[p]);
    assert k in b;
    var q :| 0 <= q < |b| && b[q] == k;
    assert b[1..][q - 1] == k;
  }

  lemma OrderedTail(a: seq<LangKey>)
    requires Ordered(a) && a != []
    ensures Ordered(a[1..])
  {
    forall i, j | 0 <= i < j < |a| - 1
      ensures Rank(a[1..][i]) < Rank(a[1..][j])
    {
      assert a[1..][i] == a[i + 1] && a[1..][j] == a[j + 1];
    }
  }

  /** Keys in display order are determined by which keys they hold. */
  lemma {:induction false} OrderedByMembers(a: seq<LangKey>, b: seq<LangKey>)
    requires Ordered(a) && Ordered(b)
    requires forall k :: k in a <==> k in b
    ensures a == b
    decreases |a|
  {
    SameMembersEmpty(a, b);
    if a != [] {
      SameHead(a, b);
      forall k
        ensures k in a[1..] <==> k in b[1..]
      {
        if k in a[1..] {
          TailMember(a, b, k);
        }
        if k in b[1..] {
          TailMember(b, a, k);
        }
      }
      OrderedTail(a);
      OrderedTail(b);
      OrderedByMembers(a[1..], b[1..]);
      assert a == [a[0]] + a[1..] && b == [b[0]] + b[1..];
    }
  }

  /** The active keys are exactly the selected, available languages, in
      LANGS order. */
  lemma ActiveKeysSpec(rows: seq<Row>, selected: set<LangKey>)
    ensures forall k :: k in ActiveKeys(rows, selected) <==> k in selected && Available(rows, k)
    ensures Ordered(ActiveKeys(rows, selected))
  {
    AllInLangs();
    LangsOrdered();
  }

  /** When every selected language is available, the active keys are the
      selection in display order. */
  lemma ActiveAllAvailable(rows: seq<Row>, selected: set<LangKey>, keys: seq<LangKey>)
    requires Ordered(keys) && (forall k :: k in keys <==> k in selected)
    requires forall i :: 0 <= i < |keys| ==> Available(rows, keys[i])
    ensures ActiveKeys(rows, selected) == keys
  {
    ActiveKeysSpec(rows, selected);
    forall k | k in selected
      ensures Available(rows, k)
    {
      var i :| 0 <= i < |keys| && keys[i] == k;
    }
    OrderedByMembers(ActiveKeys(rows, selected), keys);
  }

  /** A row has no language cell exactly when none of the keys has non-blank text in it. */
  lemma RowCellsEmpty(row: Row, keys: seq<LangKey>)
    ensures RowCells(row, keys) == [] <==> forall k :: k in keys ==> !HasText(row, Lang(k))
  {
    RowCellsSound(row, keys);
    RowCellsComplete(row, keys);
    if RowCells(row, keys) != [] {
      assert RowCells(row, keys)[0] in RowCells(row, keys);
    }
  }

  /** The line of one row: cells in display order, each language cell for
      an active key with non-blank text in the row and holding that text
      trimmed, every such key present, and the `all` cell exactly in the
      fallback case, where it is the only cell. */
  lemma RowLineSpec(row: Row, active: seq<LangKey>, selected: set<LangKey>)
    requires Ordered(active)
    ensures var line := RowLine(row, active, selected);
      && CellsOrdered(line)
      && (forall c :: c in line && c.tag.Lang? ==>
            c.tag.key in active && HasText(row, c.tag) && c.text == Trim(row[c.tag]))
      && (forall k :: k in active && HasText(row, Lang(k)) ==> Cell(Lang(k), Trim(row[Lang(k)])) in line)
      && ((exists c :: c in line && c.tag == All) <==>
            (forall k :: k in active ==> !HasText(row, Lang(k))) && HasText(row, All) && selected != {})
      && ((exists c :: c in line && c.tag == All) ==> line == [Cell(All, Trim(row[All]))])
  {
    RowCellsSound(row, active);
    RowCellsComplete(row, active);
    RowCellsOrdered(row, active);
    RowCellsEmpty(row, active);
    var line := RowLine(row, active, selected);
    if RowCells(row, active) == [] && HasText(row, All) && selected != {} {
      assert line[0] in line;
    }
  }

  /** Filtering keeps the order of the lines. */
  lemma {:induction false} NonEmptyAppend(a: seq<seq<Cell>>, b: seq<seq<Cell>>)
    ensures NonEmpty(a + b) == NonEmpty(a) + NonEmpty(b)
    decreases |b|
  {
    if b == [] {
      assert a + b == a;
    } else {
      var n := |b| - 1;
      assert (a + b)[..|a + b| - 1] == a + b[..n];
      assert (a + b)[|a + b| - 1] == b[n];
      NonEmptyAppend(a, b[..n]);
    }
  }

  /** Rows contribute their lines in order. */
  lemma EmittedAppend(a: seq<Row>, b: seq<Row>, active: seq<LangKey>, selected: set<LangKey>)
    ensures Emitted(a + b, active, selected) == Emitted(a, active, selected) + Emitted(b, active, selected)
  {
    var la, lb := RowLines(a, active, selected), RowLines(b, active, selected);
    assert RowLines(a + b, active, selected) == la + lb;
    NonEmptyAppend(la, lb);
  }

  /** One more row adds its line when that line is non-empty. */
  lemma EmittedSnoc(rows: seq<Row>, i: nat, active: seq<LangKey>, selected: set<LangKey>)
    requires i < |rows|
    ensures var line := RowLine(rows[i], active, selected);
      Emitted(rows[..i + 1], active, selected)
      == Emitted(rows[..i], active, selected) + (if line != [] then [line] else [])
  {
    var ls := RowLines(rows[..i + 1], active, selected);
    assert ls[..i] == RowLines(rows[..i], active, selected);
    assert ls[i] == RowLine(rows[i], active, selected);
  }

  /** The emitted lines are exactly the non-empty lines of the rows. */
  lemma EmittedIff(rows: seq<Row>, active: seq<LangKey>, selected: set<LangKey>)
    ensures forall l :: l in Emitted(rows, active, selected) <==>
      l != [] && exists i :: 0 <= i < |rows| && l == RowLine(rows[i], active, selected)
  {
    var ls := RowLines(rows, active, selected);
    forall l | l in ls
      ensures exists i :: 0 <= i < |rows| && l == RowLine(rows[i], active, selected)
    {
      var i :| 0 <= i < |ls| && ls[i] == l;
    }
    forall l | exists i :: 0 <= i < |rows| && l == RowLine(rows[i], active, selected)
      ensures l in ls
    {
      var i :| 0 <= i < |rows| && l == RowLine(rows[i], active, selected);
      assert ls[i] == l;
    }
  }

  /** Nothing is emitted exactly when every row's line is empty. */
  lemma EmittedEmpty(rows: seq<Row>, active: seq<LangKey>, selected: set<LangKey>)
    ensures Emitted(rows, active, selected) == [] <==>
      forall i :: 0 <= i < |rows| ==> RowLine(rows[i], active, selected) == []
  {
    EmittedIff(rows, active, selected);
    var e := Emitted(rows, active, selected);
    if e != [] {
      assert e[0] in e;
    }
    if exists i :: 0 <= i < |rows| && RowLine(rows[i], active, selected) != [] {
      var i :| 0 <= i < |rows| && RowLine(rows[i], active, selected) != [];
      assert RowLine(rows[i], active, selected) in e;
    }
  }

  /** "No content" exactly when no selected language is available in the
      song, or when every row's line is empty. */
  lemma SelectNoContent(rows: seq<Row>, selected: set<LangKey>)
    ensures Select(rows, selected) == NoContent <==>
      (forall k :: k in selected ==> !Available(rows, k))
      || (forall i :: 0 <= i < |rows| ==> RowLine(rows[i], ActiveKeys(rows, selected), selected) == [])
  {
    ActiveKeysSpec(rows, selected);
    var active := ActiveKeys(rows, selected);
    EmittedEmpty(rows, active, selected);
    if active != [] {
      assert active[0] in active;
    }
  }

  /** With no language selected nothing is shown, `all` entries included. */
  lemma EmptySelectionNoContent(rows: seq<Row>)
    ensures Select(rows, {}) == NoContent
  {
    SelectNoContent(rows, {});
  }

  /** When no selected language has text in the song, nothing is shown,
      even for rows with `all` text: the fallback is never reached. */
  lemma UnavailableSelectionNoContent(rows: seq<Row>, selected: set<LangKey>)
    requires forall k :: k in selected ==> !Available(rows, k)
    ensures Select(rows, selected) == NoContent
  {
    SelectNoContent(rows, selected);
  }

  /** Wherever the fallback test runs, some language is selected, so its
      `selectedLangs.size > 0` condition always holds there. */
  lemma FallbackSelectionTestRedundant(rows: seq<Row>, selected: set<LangKey>)
    requires ActiveKeys(rows, selected) != []
    ensures selected != {}
  {
    ActiveKeysSpec(rows, selected);
    assert ActiveKeys(rows, selected)[0] in ActiveKeys(rows, selected);
  }

  /** A language whose entries are all white space is not available. */
  lemma WhitespaceOnlyUnavailable(rows: seq<Row>, k: LangKey)
    requires forall i :: 0 <= i < |rows| && Lang(k) in rows[i] ==> AllWhite(rows[i][Lang(k)])
    ensures !Available(rows, k)
  {
    AvailableIff(rows, k);
  }

  /** Every displayed line comes from one row, is non-empty and in display
      order; each language cell is for a selected, available language with
      non-blank text in that row and holds the text trimmed; an `all` cell
      is the fallback of a row without language cells and stands alone. */
  lemma SelectLines(rows: seq<Row>, selected: set<LangKey>, l: seq<Cell>)
    requires Select(rows, selected).Rendered? && l in Select(rows, selected).lines
    ensures l != [] && CellsOrdered(l)
    ensures exists i :: 0 <= i < |rows| && l == RowLine(rows[i], ActiveKeys(rows, selected), selected)
    ensures forall c :: c in l && c.tag.Lang? ==>
      c.tag.key in selected && Available(rows, c.tag.key)
    ensures (exists c :: c in l && c.tag == All) ==> |l| == 1
  {
    var active := ActiveKeys(rows, selected);
    ActiveKeysSpec(rows, selected);
    EmittedIff(rows, active, selected);
    var i :| 0 <= i < |rows| && l == RowLine(rows[i], active, selected);
    RowLineSpec(rows[i], active, selected);
  }

  /** `renderLyrics` for a loaded song, as the program runs it: the active
      keys, then a loop over the rows that builds each row's line
      (`RenderRow`) and keeps the non-empty ones. */
  method RenderLyrics(rows: seq<Row>, selected: set<LangKey>) returns (d: Display)
    ensures d == Select(rows, selected)
  {
    var activeKeys := ActiveKeys(rows, selected);
    if |activeKeys| == 0 {
      return NoContent;
    }
    var frag: seq<seq<Cell>> := [];
    for i := 0 to |rows|
      invariant frag == Emitted(rows[..i], activeKeys, selected)
    {
      EmittedSnoc(rows, i, activeKeys, selected);
      var line, count := RenderRow(rows[i], activeKeys, selected);
      if count > 0 {
        frag := frag + [line];
      }
    }
    assert rows[..|rows|] == rows;
    if |frag| == 0 {
      d := NoContent;
    } else {
      d := Rendered(frag);
    }
  }

  /** The body of the loop over the rows in `renderLyrics`: the cells of
      the active keys with a counter, then the `all` fallback when the
      counter is still zero. */
  method RenderRow(r: Row, activeKeys: seq<LangKey>, selected: set<LangKey>) returns (line: seq<Cell>, count: nat)
    ensures line == RowLine(r, activeKeys, selected)
    ensures count == |line|
  {
    line := [];
    count := 0;
    for j := 0 to |activeKeys|
      invariant line == RowCells(r, activeKeys[..j]) && count == |line|
    {
      assert activeKeys[..j + 1][..j] == activeKeys[..j];
      var k := activeKeys[j];
      if Lang(k) in r {
        var t := Trim(r[Lang(k)]);
        if t != [] {
          line := line + [Cell(Lang(k), t)];
          count := count + 1;
        }
      }
    }
    assert activeKeys[..|activeKeys|] == activeKeys;
    if count == 0 && All in r {
      var allText := Trim(r[All]);
      if allText != [] && |selected| > 0 {
        line := line + [Cell(All, allText)];
        count := 1;
      }
    }
  }
}
