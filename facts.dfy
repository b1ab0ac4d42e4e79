/** What the editing keys do, stated about the grid specification: the
    inverse pairs, the reflow rules and an end-to-end session. */
module GridFacts {
  import opened Rows
  import opened Outcomes
  import opened Grid
  import Keys
  import Text

  /** `_insert_chr` then `_delete_chr` at the same cell succeeds, and gives
      the state back exactly when the cell pushed off the right edge was a
      blank. */
  lemma InsertThenDelete(s: State, c: Cell)
    requires Valid(s) && s.x < |s.table[s.y]|
    ensures DeleteChr(InsertChr(s, c)).Ok?
    ensures DeleteChr(InsertChr(s, c)).value == s <==> s.table[s.y][|s.table[s.y]| - 1] == Blank
  {
    var row := s.table[s.y];
    ShiftOutShiftIn(row, s.x, c);
    var r := DeleteChr(InsertChr(s, c)).value;
    assert r.table == s.table[s.y := ShiftOut(ShiftIn(row, s.x, c), s.x)];
    if r == s {
      assert r.table[s.y] == row;
    }
  }

  /** At column maxX of a row `_fill` shortened, `_insert_chr` changes
      nothing (the inserted cell is popped again) and `_delete_chr` fails. */
  lemma InsertAtShortenedEnd(s: State, c: Cell)
    requires Valid(s) && s.x == s.maxX == |s.table[s.y]|
    ensures InsertChr(s, c) == s
    ensures DeleteChr(s) == Err(IndexOutOfRange)
  {
    assert s.table[s.y := s.table[s.y]] == s.table;
  }

  /** The row `_cut_until_eol` leaves: the cells before the cursor, then
      blanks up to maxX cells. */
  lemma CutRow(s: State)
    requires Valid(s)
    ensures CutUntilEol(s).table[s.y] == s.table[s.y][..s.x] + Blanks(s.maxX - s.x)
    ensures CutUntilEol(s).buffer == s.table[s.y][s.x..]
  {
  }

  lemma SplitPadding(row: seq<Cell>, x: nat, m: nat, k: seq<Cell>)
    requires x <= m && x <= |row|
    ensures var cut := row[..x] + Blanks(m - x);
      |cut| >= x && cut[..x] == row[..x] && cut[..x] + k + cut[x..] == (row[..x] + k) + Blanks(m - x)
  {
  }

  /** The row `_cut_until_eol` then `_paste` leaves. */
  lemma CutThenPasteRow(s: State)
    requires Valid(s)
    ensures Paste(CutUntilEol(s)).table[s.y]
            == Fit(s.table[s.y][..s.x] + NonBlank(s.table[s.y][s.x..]), s.maxX)
  {
    var row := s.table[s.y];
    var c := CutUntilEol(s);
    CutRow(s);
    var k := NonBlank(row[s.x..]);
    assert NonBlank(c.buffer) == k;
    var cut := c.table[s.y];
    SplitPadding(row, s.x, s.maxX, k);
    assert cut[..s.x] + k + cut[s.x..] == (row[..s.x] + k) + Blanks(s.maxX - s.x);
    assert Paste(c).table[s.y] == Fit(cut[..s.x] + k + cut[s.x..], s.maxX);
    FitPadded(row[..s.x] + k, s.maxX - s.x, s.maxX);
  }

  /** `_cut_until_eol` then `_paste` at the same column, which is what the
      keys C-k then C-u do right of column 0: the buffer holds the cells
      from the cursor to column maxX and is kept by the paste; the row
      becomes the cells before the cursor followed by the glyphs of the cut
      tail, fitted to maxX cells; the cursor ends after them or at maxX. */
  lemma CutThenPaste(s: State)
    requires Valid(s)
    ensures CutUntilEol(s).buffer == s.table[s.y][s.x..]
    ensures Paste(CutUntilEol(s)).buffer == s.table[s.y][s.x..]
    ensures Paste(CutUntilEol(s)).table[s.y]
            == Fit(s.table[s.y][..s.x] + NonBlank(s.table[s.y][s.x..]), s.maxX)
    ensures Paste(CutUntilEol(s)).x == Min(s.x + |NonBlank(s.table[s.y][s.x..])|, s.maxX)
    ensures Paste(CutUntilEol(s)).y == s.y
    ensures OthersUnchanged(s.table, Paste(CutUntilEol(s)).table, s.y)
  {
    CutThenPasteCursor(s);
    CutThenPasteRow(s);
  }

  /** The buffer, the cursor and the other rows after `_cut_until_eol`
      then `_paste`. */
  lemma CutThenPasteCursor(s: State)
    requires Valid(s)
    ensures var c := CutUntilEol(s);
      var p := Paste(c);
      && c.buffer == s.table[s.y][s.x..]
      && p.buffer == c.buffer
      && p.x == Min(s.x + |NonBlank(s.table[s.y][s.x..])|, s.maxX)
      && p.y == s.y
      && OthersUnchanged(s.table, p.table, s.y)
  {
    var row := s.table[s.y];
    var c := CutUntilEol(s);
    assert |row| <= s.maxX + 1;
    assert c.buffer == row[s.x..];
    assert (c.y, c.x) == (s.y, s.x);
    CutThenPasteOthers(s);
  }

  /** `_cut_until_eol` then `_paste` touches no row but the cursor row. */
  lemma CutThenPasteOthers(s: State)
    requires Valid(s)
    ensures OthersUnchanged(s.table, Paste(CutUntilEol(s)).table, s.y)
  {
    var c := CutUntilEol(s);
    assert OthersUnchanged(s.table, c.table, s.y);
    assert OthersUnchanged(c.table, Paste(c).table, s.y);
  }

  lemma CompactTailFits(row: seq<Cell>, x: nat, n: nat)
    requires x <= |row| && n <= |row| && Compact(row[x..])
    ensures Fit(row[..x] + NonBlank(row[x..]), n) == row[..n]
  {
    var k := NonBlank(row[x..]);
    CompactSplits(row[x..]);
    assert row == row[..x] + row[x..];
    assert row == (row[..x] + k) + Blanks(|row[x..]| - |k|);
    FitPadded(row[..x] + k, |row[x..]| - |k|, n);
  }

  /** When the cut tail had no glyph after a blank, `_cut_until_eol` then
      `_paste` gives the row back, cut to its first maxX cells. */
  lemma CutThenPasteCompact(s: State)
    requires Valid(s) && Compact(s.table[s.y][s.x..])
    ensures Paste(CutUntilEol(s)).table[s.y] == s.table[s.y][..s.maxX]
  {
    CutThenPaste(s);
    CompactTailFits(s.table[s.y], s.x, s.maxX);
  }

  /** Pasting a run of cells at the start of a fresh row gives the run
      fitted to maxX cells. */
  lemma PasteIntoBlankRow(k: seq<Cell>, maxX: nat)
    ensures Fit(Blanks(maxX + 1)[..0] + k + Blanks(maxX + 1)[0..], maxX) == Fit(k, maxX)
  {
    assert Blanks(maxX + 1)[..0] + k + Blanks(maxX + 1)[0..] == k + Blanks(maxX + 1);
    FitPadded(k, maxX + 1, maxX);
  }

  /** Enter on a row above the last with glyphs right of the cursor: the
      row keeps its cells before the cursor (blank after, maxX cells), the
      tail's glyphs start a new row below, fitted to maxX cells, the rows
      below move down one and the last row is dropped, the cursor goes to
      the start of the new row and the buffer holds the tail. */
  lemma EnterSplitsLine(s: State)
    requires Valid(s) && s.y < s.maxY && NonBlank(s.table[s.y][s.x..]) != []
    ensures var r := BreakLine(s);
      && r.table[s.y] == s.table[s.y][..s.x] + Blanks(s.maxX - s.x)
      && r.table[s.y + 1] == Fit(NonBlank(s.table[s.y][s.x..]), s.maxX)
      && (forall i :: 0 <= i < s.y ==> r.table[i] == s.table[i])
      && (forall i :: s.y + 1 < i <= s.maxY ==> r.table[i] == s.table[i - 1])
      && r.y == s.y + 1 && r.x == 0
      && r.buffer == s.table[s.y][s.x..]
  {
    assert BreakLine(s) == SplitLine(s);
    SplitLineRows(s);
    SplitLineMoves(s);
  }

  lemma SplitLineRows(s: State)
    requires Valid(s) && s.y < s.maxY
    ensures var r := SplitLine(s);
      && r.table[s.y] == s.table[s.y][..s.x] + Blanks(s.maxX - s.x)
      && r.table[s.y + 1] == Fit(NonBlank(s.table[s.y][s.x..]), s.maxX)
      && r.buffer == s.table[s.y][s.x..]
  {
    var s1 := CutUntilEol(s);
    var s2 := InsertLine(s1.(y := s.y + 1, x := 0), Blanks(s.maxX + 1));
    CutRow(s);
    PasteIntoBlankRow(NonBlank(s1.buffer), s.maxX);
    assert s2.table[s.y] == s1.table[s.y];
  }

  lemma SplitLineMoves(s: State)
    requires Valid(s) && s.y < s.maxY
    ensures var r := SplitLine(s);
      && (forall i :: 0 <= i < s.y ==> r.table[i] == s.table[i])
      && (forall i :: s.y + 1 < i <= s.maxY ==> r.table[i] == s.table[i - 1])
  {
    var s1 := CutUntilEol(s);
    var s2 := InsertLine(s1.(y := s.y + 1, x := 0), Blanks(s.maxX + 1));
    var p := Paste(s2);
    forall i | 0 <= i < s.y ensures p.table[i] == s.table[i] {
      assert p.table[i] == s2.table[i] == s1.table[i];
    }
    forall i | s.y + 1 < i <= s.maxY ensures p.table[i] == s.table[i - 1] {
      assert p.table[i] == s2.table[i] == s1.table[i - 1];
    }
  }

  /** Enter on a row above the last with nothing but blanks from the cursor
      on: a blank row of maxX+1 cells goes in below and the cursor moves to
      its start; on the last row Enter changes nothing. */
  lemma EnterOpensLine(s: State)
    requires Valid(s)
    ensures s.y < s.maxY && NonBlank(s.table[s.y][s.x..]) == [] ==>
      BreakLine(s) == s.(table := s.table[..s.y + 1] + [Blanks(s.maxX + 1)] + s.table[s.y + 1..s.maxY],
                         y := s.y + 1, x := 0)
    ensures s.y == s.maxY ==> BreakLine(s) == s
  {
    if s.y < s.maxY && NonBlank(s.table[s.y][s.x..]) == [] {
      var t := s.table[..s.y + 1] + [Blanks(s.maxX + 1)] + s.table[s.y + 1..s.maxY];
      assert BreakLine(s).table == t;
    }
  }

  /** Delete-forward (C-d, ESC [ 3 x) fails only past the end of the row.
      Otherwise it removes the cursor cell and shifts the row left with a
      blank at the end; only when the row is below the last, nothing but
      blanks follows the removed cell and the next row has fewer than
      `maxX - x + 1` glyphs, the next row is appended at the cursor, the
      result fitted to maxX cells and a blank row added at the bottom. */
  lemma DeleteForwardMerges(s: State)
    requires Valid(s)
    ensures CancelBack(s).Ok? <==> s.x < |s.table[s.y]|
    ensures s.x < |s.table[s.y]| ==>
      var row := s.table[s.y];
      var r := CancelBack(s).value;
      var merge := s.y < s.maxY && NonBlank(row[s.x + 1..]) == []
                   && |NonBlank(s.table[s.y + 1])| < s.maxX - s.x + 1;
      && (merge ==> r.table == s.table[..s.y] + [Fit(row[..s.x] + s.table[s.y + 1], s.maxX)]
                               + s.table[s.y + 2..] + [Blanks(s.maxX + 1)])
      && (!merge ==> r.table == s.table[s.y := ShiftOut(row, s.x)])
      && (r.y, r.x, r.buffer) == (s.y, s.x, s.buffer)
  {
    if s.x < |s.table[s.y]| {
      var row := s.table[s.y];
      var out := ShiftOut(row, s.x);
      assert out[s.x..] == row[s.x + 1..] + [Blank];
      NonBlankAppend(row[s.x + 1..], [Blank]);
      assert out[..s.x] == row[..s.x];
    }
  }

  /** Backspace at column 0 of a row below the first moves the cursor to
      row y-1 at column p, the glyph count of that row capped at maxX, and
      keeps the rows above and the first p cells of row y-1. */
  lemma BackspaceJoinCursor(s: State)
    requires Valid(s) && s.x == 0 && 0 < s.y
    ensures DeleteBack(s).y == s.y - 1
    ensures DeleteBack(s).x == Min(s.maxX, |NonBlank(s.table[s.y - 1])|)
    ensures forall i :: 0 <= i < s.y - 1 ==> DeleteBack(s).table[i] == s.table[i]
    ensures DeleteBack(s).table[s.y - 1][..DeleteBack(s).x] == s.table[s.y - 1][..DeleteBack(s).x]
  {
    var r := JoinAbove(s);
    assert DeleteBack(s) == r;
    var p := r.x;
    var prev := s.table[s.y - 1];
    var chrs := NonBlank(s.table[s.y]);
    if |chrs| < s.maxX - p + 1 {
      assert r.table[s.y - 1] == Fit(prev[..p] + chrs, s.maxX);
    } else {
      assert r.table[s.y - 1] == prev[..p] + chrs[..s.maxX - p + 1];
    }
  }

  /** When the glyphs of row y fit in the rest of row y-1, they are all
      appended after its first p cells, nothing is lost, the rows below
      move up and a blank row is appended. */
  lemma BackspaceJoinFits(s: State)
    requires Valid(s) && s.x == 0 && 0 < s.y
    requires |NonBlank(s.table[s.y])| <= s.maxX - Min(s.maxX, |NonBlank(s.table[s.y - 1])|)
    ensures var p := Min(s.maxX, |NonBlank(s.table[s.y - 1])|);
      var chrs := NonBlank(s.table[s.y]);
      DeleteBack(s).table[s.y - 1] == s.table[s.y - 1][..p] + chrs + Blanks(s.maxX - p - |chrs|)
    ensures forall i :: s.y <= i < s.maxY ==> DeleteBack(s).table[i] == s.table[i + 1]
    ensures DeleteBack(s).table[s.maxY] == Blanks(s.maxX + 1)
  {
    var r := JoinAbove(s);
    assert DeleteBack(s) == r;
    var p := Min(s.maxX, |NonBlank(s.table[s.y - 1])|);
    var chrs := NonBlank(s.table[s.y]);
    var joined := s.table[s.y - 1][..p] + chrs;
    assert r.table[s.y - 1] == Fit(joined, s.maxX);
    assert Fit(joined, s.maxX) == joined + Blanks(s.maxX - p - |chrs|);
  }

  /** Splitting a run of glyphs in two and fitting the second part to at
      least its own length loses no glyph. */
  lemma SplitKeepsGlyphs(chrs: seq<Cell>, delta: nat, n: nat)
    requires forall i :: 0 <= i < |chrs| ==> chrs[i].Glyph?
    requires delta <= |chrs| && |chrs| - delta <= n
    ensures NonBlank(chrs[..delta]) + NonBlank(Fit(chrs[delta..], n)) == chrs
  {
    var head, rest := chrs[..delta], chrs[delta..];
    GlyphsSurviveFit(rest, n);
    assert NonBlank(head) == head by {
      NonBlankOfGlyphs(head);
    }
    assert head + rest == chrs;
  }

  /** Fitting a run of glyphs to at least its own length keeps exactly those glyphs. */
  lemma GlyphsSurviveFit(rest: seq<Cell>, n: nat)
    requires forall i :: 0 <= i < |rest| ==> rest[i].Glyph?
    requires |rest| <= n
    ensures NonBlank(Fit(rest, n)) == rest
  {
    assert Fit(rest, n) == rest + Blanks(n - |rest|);
    NonBlankPadded(rest, n - |rest|);
    NonBlankOfGlyphs(rest);
  }

  /** The rows backspace leaves at column 0 when the glyphs overflow. */
  lemma JoinAboveSpills(s: State)
    requires Valid(s) && s.x == 0 && 0 < s.y
    requires |NonBlank(s.table[s.y])| > s.maxX - Min(s.maxX, |NonBlank(s.table[s.y - 1])|)
    ensures var p := Min(s.maxX, |NonBlank(s.table[s.y - 1])|);
      var chrs := NonBlank(s.table[s.y]);
      && DeleteBack(s).table[s.y - 1] == s.table[s.y - 1][..p] + chrs[..s.maxX - p + 1]
      && DeleteBack(s).table[s.y] == Fit(chrs[s.maxX - p + 1..], s.maxX)
      && forall i :: s.y < i <= s.maxY ==> DeleteBack(s).table[i] == s.table[i]
  {
    var r := JoinAbove(s);
    assert DeleteBack(s) == r;
    var p := Min(s.maxX, |NonBlank(s.table[s.y - 1])|);
    assert r.x == p;
    var chrs := NonBlank(s.table[s.y]);
    var t := s.table[..s.y] + s.table[s.y + 1..];
    var delta := s.maxX - p + 1;
    assert r.table == t[..s.y - 1] + [s.table[s.y - 1][..p] + chrs[..delta], Fit(chrs[delta..], s.maxX)] + t[s.y..];
  }

  /** When they do not fit, what fits is appended to row y-1 and the
      surplus, fitted to maxX cells, replaces row y; every glyph of row y
      survives, in order, and the rows below stay where they are. */
  lemma BackspaceJoinSplits(s: State)
    requires Valid(s) && s.x == 0 && 0 < s.y
    requires |NonBlank(s.table[s.y])| > s.maxX - Min(s.maxX, |NonBlank(s.table[s.y - 1])|)
    ensures var p := Min(s.maxX, |NonBlank(s.table[s.y - 1])|);
      NonBlank(DeleteBack(s).table[s.y - 1][p..]) + NonBlank(DeleteBack(s).table[s.y])
        == NonBlank(s.table[s.y])
    ensures forall i :: s.y < i <= s.maxY ==> DeleteBack(s).table[i] == s.table[i]
  {
    JoinAboveSpills(s);
    var r := DeleteBack(s);
    var p := Min(s.maxX, |NonBlank(s.table[s.y - 1])|);
    var chrs := NonBlank(s.table[s.y]);
    var delta := s.maxX - p + 1;
    assert r.table[s.y - 1][p..] == chrs[..delta];
    SplitKeepsGlyphs(chrs, delta, s.maxX);
  }

  /** Backspace at the origin deletes row 0; anywhere right of column 0 it
      removes the cell left of the cursor and steps onto it. */
  lemma BackspaceElsewhere(s: State)
    requires Valid(s)
    ensures s.x == 0 && s.y == 0 ==>
      DeleteBack(s) == s.(table := s.table[1..] + [Blanks(s.maxX + 1)])
    ensures s.x > 0 ==>
      DeleteBack(s) == s.(table := s.table[s.y := ShiftOut(s.table[s.y], s.x - 1)], x := s.x - 1)
  {
  }

  /** C-k at column 0 cuts the whole row into the buffer and then deletes
      the row: the rows below move up and a blank row is appended. */
  lemma CutAtColumnZeroDeletesRow(s: State)
    requires Valid(s) && s.x == 0
    ensures CutLine(s).buffer == s.table[s.y]
    ensures CutLine(s).table == s.table[..s.y] + s.table[s.y + 1..] + [Blanks(s.maxX + 1)]
  {
    var c := CutUntilEol(s);
    assert CutLine(s) == DeleteLine(c);
    assert c.buffer == s.table[s.y] by {
      assert s.table[s.y][0..] == s.table[s.y];
    }
    assert c.table == s.table[s.y := Blanks(s.maxX)];
    assert c.table[..s.y] == s.table[..s.y];
    assert c.table[s.y + 1..] == s.table[s.y + 1..];
  }

  /** Up moves one row up, unless on row 0; the column drops to the glyph
      count of the row reached when it was past it. Table and buffer stay. */
  lemma UpKeyMoves(s: State)
    requires Valid(s)
    ensures Apply(s, Keys.Up) == Ok(Step(
      if s.y > 0 then s.(y := s.y - 1, x := Min(s.x, |NonBlank(s.table[s.y - 1])|)) else s, true, false))
  {
    assert Apply(s, Keys.Up) == Ok(Step(if s.y > 0 then GotoMax(s, s.y - 1) else s, true, false));
    if s.y > 0 {
      GotoMaxIsMin(s, s.y - 1);
    }
  }

  /** Down moves one row down, unless on row maxY, with the same column rule. */
  lemma DownKeyMoves(s: State)
    requires Valid(s)
    ensures Apply(s, Keys.Down) == Ok(Step(
      if s.y < s.maxY then s.(y := s.y + 1, x := Min(s.x, |NonBlank(s.table[s.y + 1])|)) else s, true, false))
  {
    assert Apply(s, Keys.Down) == Ok(Step(if s.y < s.maxY then GotoMax(s, s.y + 1) else s, true, false));
    if s.y < s.maxY {
      GotoMaxIsMin(s, s.y + 1);
    }
  }

  /** Home goes to the origin; End goes to row maxY with the same column rule. */
  lemma HomeEndKeysMove(s: State)
    requires Valid(s)
    ensures Apply(s, Keys.Home) == Ok(Step(s.(y := 0, x := 0), true, false))
    ensures Apply(s, Keys.End) == Ok(Step(s.(y := s.maxY, x := Min(s.x, |NonBlank(s.table[s.maxY])|)), true, false))
  {
    assert Apply(s, Keys.End) == Ok(Step(GotoMax(s, s.maxY), true, false));
    GotoMaxIsMin(s, s.maxY);
  }

  /** `_goto_max(line)` puts the cursor at that row, at the smaller of its
      column and the row's glyph count. */
  lemma GotoMaxIsMin(s: State, line: nat)
    requires line < |s.table|
    ensures GotoMax(s, line) == s.(y := line, x := Min(s.x, |NonBlank(s.table[line])|))
  {
  }

  const Ga := Glyph('a')
  const Gb := Glyph('b')
  const Gc := Glyph('c')
  const Gd := Glyph('d')
  const Ge := Glyph('e')

  /** Delete-forward can lose a glyph: the merge test counts the glyphs of
      the next row, but the whole next row, leading blanks included, is
      appended and then cut to maxX cells. With maxX 4, C-d on `d` of
      `abcd` above a row whose one glyph `e` sits in column 4 leaves `abc`
      and drops `e`. */
  lemma DeleteForwardDropsGlyph()
    ensures var s := State(1, 4, [[Ga, Gb, Gc, Gd], [Blank, Blank, Blank, Blank, Ge]], [], 0, 3);
      CancelBack(s) == Ok(s.(table := [[Ga, Gb, Gc, Blank], Blanks(5)]))
  {
    var row, next := [Ga, Gb, Gc, Gd], [Blank, Blank, Blank, Blank, Ge];
    var s := State(1, 4, [row, next], [], 0, 3);
    LoneGlyphAtEnd();
    assert row[4..] == [];
    DeleteForwardMerges(s);
    var r := CancelBack(s).value;
    assert r.table == [Fit(row[..3] + next, 4), Blanks(5)] by {
      assert s.table[..0] == [] && s.table[2..] == [];
    }
    MergeCutsLoneGlyph();
  }

  lemma LoneGlyphAtEnd()
    ensures NonBlank([Blank, Blank, Blank, Blank, Ge]) == [Ge]
  {
    assert [Blank, Blank, Blank, Blank, Ge] == [Blank, Blank, Blank, Blank] + [Ge];
    NonBlankAppend([Blank, Blank, Blank, Blank], [Ge]);
    assert NonBlank([Blank, Blank, Blank, Blank]) == [];
    NonBlankOfGlyphs([Ge]);
  }

  lemma MergeCutsLoneGlyph()
    ensures Fit([Ga, Gb, Gc, Gd][..3] + [Blank, Blank, Blank, Blank, Ge], 4) == [Ga, Gb, Gc, Blank]
  {
    var joined := [Ga, Gb, Gc, Gd][..3] + [Blank, Blank, Blank, Blank, Ge];
    assert joined[..4] == [Ga, Gb, Gc, Blank];
  }

  /** Backspace at column 0 can lose glyphs: row y-1 is cut at column p,
      its glyph count capped at maxX, so every glyph of it at or after
      column p goes, here the one in column maxX. With maxX 2,
      backspace at the start of `de` below `abc` gives `abd` over `e` and
      drops `c`. */
  lemma BackspaceJoinDropsGlyph()
    ensures var s := State(1, 2, [[Ga, Gb, Gc], [Gd, Ge, Blank]], [], 1, 0);
      DeleteBack(s) == s.(table := [[Ga, Gb, Gd], [Ge, Blank]], y := 0, x := 2)
  {
    var prev, row := [Ga, Gb, Gc], [Gd, Ge, Blank];
    var s := State(1, 2, [prev, row], [], 1, 0);
    TwoGlyphsThenBlank();
    assert NonBlank(prev) == prev by { NonBlankOfGlyphs(prev); }
    JoinAboveSpills(s);
    BackspaceJoinCursor(s);
    var r := DeleteBack(s);
    assert r.table[0] == prev[..2] + [Gd, Ge][..1];
    assert r.table[1] == Fit([Gd, Ge][1..], 2);
    SpillRows();
    assert r.table == [[Ga, Gb, Gd], [Ge, Blank]];
  }

  lemma TwoGlyphsThenBlank()
    ensures NonBlank([Gd, Ge, Blank]) == [Gd, Ge]
  {
    assert [Gd, Ge, Blank] == [Gd, Ge] + [Blank];
    NonBlankAppend([Gd, Ge], [Blank]);
    NonBlankOfGlyphs([Gd, Ge]);
    assert NonBlank([Blank]) == [];
  }

  lemma SpillRows()
    ensures [Ga, Gb, Gc][..2] + [Gd, Ge][..1] == [Ga, Gb, Gd]
    ensures Fit([Gd, Ge][1..], 2) == [Ge, Blank]
  {
    assert [Gd, Ge][1..] == [Ge];
  }

  const H := Glyph('h')
  const I := Glyph('i')
  const X := Glyph('x')
  const B5 := [Blank, Blank, Blank, Blank, Blank]

  /** The grid after typing `h`, `i`, Enter, `x` on 3 rows of 5 columns. */
  function TwoLines(): (s: State)
    ensures Valid(s)
  {
    State(2, 4, [[H, I, Blank, Blank, Blank], [X, Blank, Blank, Blank, Blank], B5], [], 1, 1)
  }

  function AfterH(): (s: State)
    ensures Valid(s)
  { State(2, 4, [[H, Blank, Blank, Blank, Blank], B5, B5], [], 0, 1) }

  function AfterHi(): (s: State)
    ensures Valid(s)
  { State(2, 4, [[H, I, Blank, Blank, Blank], B5, B5], [], 0, 2) }

  function AfterEnter(): (s: State)
    ensures Valid(s)
  { State(2, 4, [[H, I, Blank, Blank, Blank], B5, B5], [], 1, 0) }

  lemma TypeH()
    ensures Apply(Fresh(2, 4), Keys.Insert('h')) == Ok(Step(AfterH(), true, false))
  {
    var s0 := Fresh(2, 4);
    assert Blanks(5) == B5;
    assert s0.table == [B5, B5, B5];
    assert ShiftIn(B5, 0, H) == AfterH().table[0];
    assert InsertChr(s0, H).table == AfterH().table;
    assert TypeChar(s0, H) == AfterH();
  }

  lemma TypeI()
    ensures Apply(AfterH(), Keys.Insert('i')) == Ok(Step(AfterHi(), true, false))
  {
    var s1 := AfterH();
    assert ShiftIn(s1.table[0], 1, I) == AfterHi().table[0];
    assert InsertChr(s1, I).table == AfterHi().table;
    assert TypeChar(s1, I) == AfterHi();
  }

  lemma TypeEnter()
    ensures Apply(AfterHi(), Keys.Enter) == Ok(Step(AfterEnter(), true, false))
  {
    var s2 := AfterHi();
    assert s2.table[0][2..] == Blanks(3);
    assert NonBlank(s2.table[0][2..]) == [];
    assert Blanks(5) == B5;
    var s := s2.(y := 1, x := 0);
    assert InsertLine(s, B5).table == AfterEnter().table;
    assert BreakLine(s2) == AfterEnter();
  }

  lemma TypeX()
    ensures Apply(AfterEnter(), Keys.Insert('x')) == Ok(Step(TwoLines(), true, false))
  {
    var s3 := AfterEnter();
    assert ShiftIn(B5, 0, X) == TwoLines().table[1];
    assert InsertChr(s3, X).table == TwoLines().table;
    assert TypeChar(s3, X) == TwoLines();
  }

  /** One key of a session that neither quits nor fails. */
  lemma RunContinues(s: State, codes: seq<int>, k: Keys.Key, n: nat, t: State)
    requires Valid(s) && Keys.Decode(codes) == Keys.Complete(k, n)
    requires Apply(s, k) == Ok(Step(t, true, false))
    ensures Run(s, codes) == Run(t, codes[n..])
  {
  }

  lemma RunH()
    ensures Run(Fresh(2, 4), [104, 105, 13, 120, 7]) == Run(AfterH(), [105, 13, 120, 7])
  {
    var codes := [104, 105, 13, 120, 7];
    TypeH();
    assert Keys.Decode(codes) == Keys.Complete(Keys.Insert('h'), 1);
    RunContinues(Fresh(2, 4), codes, Keys.Insert('h'), 1, AfterH());
    assert codes[1..] == [105, 13, 120, 7];
  }

  lemma RunI()
    ensures Run(AfterH(), [105, 13, 120, 7]) == Run(AfterHi(), [13, 120, 7])
  {
    var codes := [105, 13, 120, 7];
    TypeI();
    assert Keys.Decode(codes) == Keys.Complete(Keys.Insert('i'), 1);
    RunContinues(AfterH(), codes, Keys.Insert('i'), 1, AfterHi());
    assert codes[1..] == [13, 120, 7];
  }

  lemma RunEnter()
    ensures Run(AfterHi(), [13, 120, 7]) == Run(AfterEnter(), [120, 7])
  {
    var codes := [13, 120, 7];
    TypeEnter();
    assert Keys.Decode(codes) == Keys.Complete(Keys.Enter, 1);
    RunContinues(AfterHi(), codes, Keys.Enter, 1, AfterEnter());
    assert codes[1..] == [120, 7];
  }

  lemma RunX()
    ensures Run(AfterEnter(), [120, 7]) == Run(TwoLines(), [7])
  {
    var codes := [120, 7];
    TypeX();
    assert Keys.Decode(codes) == Keys.Complete(Keys.Insert('x'), 1);
    RunContinues(AfterEnter(), codes, Keys.Insert('x'), 1, TwoLines());
    assert codes[1..] == [7];
  }

  lemma RunQuit()
    ensures Run(TwoLines(), [7]) == (TwoLines(), Quitted)
  {
    assert Keys.Decode([7]) == Keys.Complete(Keys.Quit, 1);
  }

  lemma TypeTwoLinesSteps()
    ensures Run(Fresh(2, 4), [104, 105, 13, 120, 7]) == (TwoLines(), Quitted)
  {
    RunH();
    RunI();
    RunEnter();
    RunX();
    RunQuit();
  }

  lemma RowTextHi()
    ensures Text.RowText([H, I, Blank, Blank, Blank]) == "hi"
  {
    var r := [H, I, Blank, Blank, Blank];
    assert Text.RowText(r[4..]) == "";
    assert Text.RowText(r[3..]) == "";
    assert Text.RowText(r[2..]) == "";
    assert Text.RowText(r[1..]) == "i";
  }

  lemma RowTextX()
    ensures Text.RowText([X, Blank, Blank, Blank, Blank]) == "x"
  {
    var r := [X, Blank, Blank, Blank, Blank];
    assert Text.RowText(r[4..]) == "";
    assert Text.RowText(r[3..]) == "";
    assert Text.RowText(r[2..]) == "";
    assert Text.RowText(r[1..]) == "";
  }

  lemma RowTextB5()
    ensures Text.RowText(B5) == ""
  {
    assert Text.RowText(B5[4..]) == "";
    assert Text.RowText(B5[3..]) == "";
    assert Text.RowText(B5[2..]) == "";
    assert Text.RowText(B5[1..]) == "";
  }

  lemma TwoLinesSaveText()
    ensures Text.SaveText(TwoLines().table) == "hi\nx"
  {
    var t := TwoLines().table;
    assert Text.Lines(t) == ["hi", "x", ""] by {
      RowTextHi();
      RowTextX();
      RowTextB5();
    }
    assert Text.JoinLines(["hi", "x", ""]) == "hi\nx\n" by {
      assert Text.JoinLines(["x", ""]) == "x\n";
    }
    assert Text.RStrip("hi\nx\n") == "hi\nx" by {
      assert "hi\nx\n"[..4] == "hi\nx";
    }
  }

  /** The end-to-end session on a grid of 3 rows and 5 columns: typing
      `h`, `i`, Enter, `x` and then C-g quits and saves `"hi\nx"`. */
  lemma TypeTwoLines()
    ensures Run(Fresh(2, 4), [104, 105, 13, 120, 7]).1 == Quitted
    ensures Text.SaveText(Run(Fresh(2, 4), [104, 105, 13, 120, 7]).0.table) == "hi\nx"
  {
    TypeTwoLinesSteps();
    TwoLinesSaveText();
  }
}
