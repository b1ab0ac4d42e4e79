/** The `Editor` class: the grid, the buffer and the cursor are fields that
    its methods update in place, and each method is proved to leave the
    state the grid specification gives. The terminal is replaced by the
    window size given to the constructor and by a finite sequence of input
    codes read from position `pos` on. */
module Editors {
  import opened Rows
  import opened Outcomes
  import Keys
  import Grid
  import Text

  /** What `_get_chr` reports: the key was handled (`more` is false only
      for quit, `beep` only for an unrecognized key), an exception escaped,
      or the codes ran out inside a key. */
  datatype Reaction = Handled(more: bool, beep: bool) | Failed(fault: Fault) | OutOfInput

  class Editor {
    const maxY: nat
    const maxX: nat
    const changePage: nat
    var table: seq<seq<Cell>>
    var buffer: seq<Cell>
    var actualY: nat
    var actualX: nat
    var input: seq<int>           // the codes `_scan` would deliver
    var pos: nat                  // how many of them have been read

    /** The editor's state as a value of the grid specification. */
    function Model(): Grid.State
      reads this
    {
      Grid.State(maxY, maxX, table, buffer, actualY, actualX)
    }

    ghost predicate Valid()
      reads this
    {
      Grid.Valid(Model()) && pos <= |input| && changePage == Grid.ChangePage
    }

    /** `__init__` for a window of `rows` by `cols` cells. */
    constructor (rows: nat, cols: nat, codes: seq<int>)
      requires rows >= 1 && cols >= 1
      ensures Valid() && Model() == Grid.Fresh(rows - 1, cols - 1)
      ensures input == codes && pos == 0
      ensures SaveText() == ""
    {
      maxY, maxX := rows - 1, cols - 1;
      changePage := 10;
      buffer := [];
      var newLine := Blanks(cols);
      var grid := seq(rows, _ => newLine);
      Text.BlankGridSavesEmpty(grid);
      table := grid;
      actualY, actualX := 0, 0;
      input, pos := codes, 0;
    }

    /** `_insert_line`. */
    method InsertLine(line: seq<Cell>)
      requires actualY < |table|
      modifies this`table
      ensures Model() == Grid.InsertLine(old(Model()), line)
    {
      table := ListInsert(table, actualY, line);
      table := table[..|table| - 1];
    }

    /** `_fill`. */
    method Fill(line: nat)
      requires line < |table|
      modifies this`table
      ensures Model() == Grid.FillRow(old(Model()), line)
    {
      var toFill := |NonBlank(table[line])|;
      var row := table[line] + Blanks(maxX - toFill);
      row := ListDelFrom(row, maxX);
      FillIsFit(table[line], maxX);
      table := table[line := row];
    }

    /** `_insert_chr`. */
    method InsertChr(c: Cell)
      requires actualY < |table|
      modifies this`table
      ensures Model() == Grid.InsertChr(old(Model()), c)
    {
      ghost var was := table[actualY];
      var row := ListInsert(table[actualY], actualX, c);
      row := row[..|row| - 1];
      if actualX < |was| {
        assert row == was[..actualX] + [c] + was[actualX..|was| - 1];
      } else {
        assert row == was;
      }
      table := table[actualY := row];
    }

    /** `_delete_chr`; `ok` is false where `pop` raises `IndexError`, and
        then nothing changes. */
    method DeleteChr() returns (ok: bool)
      requires actualY < |table|
      modifies this`table
      ensures ok == Grid.DeleteChr(old(Model())).Ok?
      ensures Model() == if ok then Grid.DeleteChr(old(Model())).value else old(Model())
    {
      var row := table[actualY];
      if actualX >= |row| {
        return false;
      }
      row := row[..actualX] + row[actualX + 1..];
      row := row + [Blank];
      table := table[actualY := row];
      ok := true;
    }

    /** `_cancel_back(y, x)`, always called with the cursor position. */
    method CancelBack(y: nat, x: nat) returns (ok: bool)
      requires Valid() && y == actualY && x == actualX
      modifies this`table
      ensures ok == Grid.CancelBack(old(Model())).Ok?
      ensures Model() == if ok then Grid.CancelBack(old(Model())).value else old(Model())
    {
      ok := DeleteChr();
      if !ok {
        return;
      }
      if y < maxY {
        var chrs := NonBlank(table[y][x..]);
        var nextl := NonBlank(table[y + 1]);
        if chrs == [] && |nextl| < maxX - x + 1 {
          MergeNext();
        }
      }
    }

    /** The merge branch of `_cancel_back`: the next row goes after the
        first `actualX` cells of the cursor row, that row is filled, the
        next row is deleted and a blank row appended. */
    method MergeNext()
      requires actualY + 1 < |table| && actualX <= |table[actualY]|
      modifies this`table
      ensures table == old(table[..actualY] + [Fit(table[actualY][..actualX] + table[actualY + 1], maxX)]
                           + table[actualY + 2..] + [Blanks(maxX + 1)])
    {
      ghost var t, row := table, table[actualY];
      assert ListDelFrom(row, actualX) == row[..actualX];
      table := table[actualY := ListDelFrom(table[actualY], actualX)];
      table := table[actualY := table[actualY] + table[actualY + 1]];
      Fill(actualY);
      assert table == t[actualY := Fit(row[..actualX] + t[actualY + 1], maxX)];
      table := table[..actualY + 1] + table[actualY + 2..];
      table := table + [Blanks(maxX + 1)];
    }

    /** `_delete_line`. */
    method DeleteLine()
      requires actualY < |table|
      modifies this`table
      ensures Model() == Grid.DeleteLine(old(Model()))
    {
      table := table[..actualY] + table[actualY + 1..];
      table := table + [Blanks(maxX + 1)];
    }

    /** `_cut_until_eol`. */
    method CutUntilEol()
      requires actualY < |table| && actualX <= maxX <= |table[actualY]|
      modifies this`table, this`buffer
      ensures Model() == Grid.CutUntilEol(old(Model()))
    {
      ghost var was := table[actualY];
      buffer := ListSlice(table[actualY], actualX, maxX + 1);
      FitPadded(was[..actualX], |buffer|, maxX);
      table := table[actualY := ListDelFrom(table[actualY], actualX)];
      assert table[actualY] == was[..actualX];
      table := table[actualY := table[actualY] + Blanks(|buffer|)];
      assert Fit(was[..actualX], maxX) == was[..actualX] + Blanks(maxX - actualX);
      Fill(actualY);
    }

    /** `_paste`: the buffer's glyphs are inserted one by one at the
        advancing cursor, then the row is filled and the cursor clamped. */
    method Paste()
      requires actualY < |table| && actualX <= |table[actualY]|
      modifies this`table, this`actualX
      ensures Model() == Grid.Paste(old(Model()))
    {
      var chars := NonBlank(buffer);
      ghost var row := table[actualY];
      ghost var x0 := actualX;
      var i := 0;
      while i < |chars|
        invariant 0 <= i <= |chars|
        invariant actualX == x0 + i
        invariant Grid.OthersUnchanged(old(table), table, actualY)
        invariant table[actualY] == row[..x0] + chars[..i] + row[x0..]
      {
        assert chars[..i + 1] == chars[..i] + [chars[i]];
        table := table[actualY := ListInsert(table[actualY], actualX, chars[i])];
        actualX := actualX + 1;
        i := i + 1;
      }
      assert chars[..i] == chars;
      Fill(actualY);
      if actualX > maxX {
        actualX := maxX;
      }
    }

    /** `_goto_max`. */
    method GotoMax(line: nat)
      requires line < |table|
      modifies this`actualY, this`actualX
      ensures Model() == Grid.GotoMax(old(Model()), line)
    {
      actualY := line;
      var newX := |NonBlank(table[actualY])|;
      if actualX > newX {
        actualX := newX;
      }
    }

    /** The branch of `_get_chr` for backspace at column 0 below row 0: go
        to the end of the row above, then move the current row's glyphs
        there, keeping a surplus as the next row. */
    method JoinAbove()
      requires Valid() && actualX == 0 && 0 < actualY
      modifies this`table, this`actualY, this`actualX
      ensures Model() == Grid.JoinAbove(old(Model()))
    {
      ghost var s := Model();
      var saved := table[actualY];
      actualX := maxX;
      GotoMax(actualY - 1);
      ghost var g := Grid.GotoMax(s.(x := s.maxX), s.y - 1);
      assert Model() == g;
      var delta := maxX - actualX + 1;
      var chrs := NonBlank(saved);
      ghost var prev := table[actualY];
      table := table[..actualY + 1] + table[actualY + 2..];
      ghost var t := table;
      assert t == s.table[..s.y] + s.table[s.y + 1..];
      if |chrs| < delta {
        AppendBelow(chrs);
        assert Model() == Grid.JoinAbove(s);
      } else {
        SpillBelow(chrs, delta);
        assert Model() == Grid.JoinAbove(s);
      }
    }

    /** The join when the glyphs fit: a fresh row at the bottom, the glyphs
        after the cursor on row `actualY`, the row filled. */
    method AppendBelow(chrs: seq<Cell>)
      requires actualY < |table| && actualX <= |table[actualY]|
      modifies this`table
      ensures table == old(table[actualY := Fit(table[actualY][..actualX] + chrs, maxX)] + [Blanks(maxX + 1)])
    {
      ghost var t, prev := table, table[actualY];
      assert ListDelFrom(prev, actualX) == prev[..actualX];
      table := table + [Blanks(maxX + 1)];
      table := table[actualY := ListDelFrom(table[actualY], actualX)];
      table := table[actualY := table[actualY] + chrs];
      assert table == t[actualY := prev[..actualX] + chrs] + [Blanks(maxX + 1)];
      Fill(actualY);
    }

    /** The join when the glyphs overflow: the first `delta` of them after
        the cursor on row `actualY`, the rest as a new row below, filled. */
    method SpillBelow(chrs: seq<Cell>, delta: nat)
      requires actualY < |table| && actualX <= |table[actualY]| && delta <= |chrs|
      modifies this`table
      ensures table == old(table[..actualY] + [table[actualY][..actualX] + chrs[..delta], Fit(chrs[delta..], maxX)]
                           + table[actualY + 1..])
    {
      ghost var t, prev := table, table[actualY];
      assert ListDelFrom(prev, actualX) == prev[..actualX];
      table := table[actualY := ListDelFrom(table[actualY], actualX)];
      table := table[actualY := table[actualY] + chrs[..delta]];
      assert table == t[..actualY] + [prev[..actualX] + chrs[..delta]] + t[actualY + 1..];
      table := ListInsert(table, actualY + 1, chrs[delta..]);
      assert table == t[..actualY] + [prev[..actualX] + chrs[..delta], chrs[delta..]] + t[actualY + 1..];
      Fill(actualY + 1);
    }

    /** A printable or decoded character (the first two branches of `_get_chr`). */
    method TypeChar(c: Cell)
      requires Valid()
      modifies this`table, this`actualY, this`actualX
      ensures Model() == Grid.TypeChar(old(Model()), c)
    {
      var y, x := actualY, actualX;
      InsertChr(c);
      if x < maxX {
        actualX := actualX + 1;
      } else if y < maxY {
        actualY := actualY + 1;
        actualX := 0;
      }
    }

    /** Enter. */
    method BreakLine()
      requires Valid()
      modifies this`table, this`buffer, this`actualY, this`actualX
      ensures Model() == Grid.BreakLine(old(Model()))
    {
      ghost var s := Model();
      var y, x := actualY, actualX;
      if y < maxY {
        if NonBlank(table[y][x..]) != [] {
          SplitLine();
        } else {
          actualY := actualY + 1;
          actualX := 0;
          InsertLine(Blanks(maxX + 1));
          assert Model() == Grid.BreakLine(s);
        }
      }
    }

    /** Enter with glyphs right of the cursor: cut them, open a row below
        and paste them at its start. */
    method SplitLine()
      requires Valid() && actualY < maxY
      modifies this`table, this`buffer, this`actualY, this`actualX
      ensures Model() == Grid.SplitLine(old(Model()))
    {
      CutAndOpen();
      Paste();
      actualX := 0;
    }

    /** The first half of `SplitLine`: cut the tail, step to the start of
        the row below and insert a blank row there. */
    method CutAndOpen()
      requires Valid() && actualY < maxY
      modifies this`table, this`buffer, this`actualY, this`actualX
      ensures var s := old(Model());
        Model() == Grid.InsertLine(Grid.CutUntilEol(s).(y := s.y + 1, x := 0), Blanks(s.maxX + 1))
    {
      assert maxX <= |table[actualY]|;
      CutUntilEol();
      actualY := actualY + 1;
      actualX := 0;
      InsertLine(Blanks(maxX + 1));
    }

    /** Backspace (C-h, DEL, shifted delete). */
    method DeleteBack()
      requires Valid()
      modifies this`table, this`actualY, this`actualX
      ensures Model() == Grid.DeleteBack(old(Model()))
    {
      var y, x := actualY, actualX;
      if x > 0 {
        actualX := actualX - 1;
        var _ := DeleteChr();
      } else if 0 < y {
        JoinAbove();
      } else {
        DeleteLine();
      }
    }

    /** C-k. */
    method CutLine()
      requires Valid()
      modifies this`table, this`buffer
      ensures Model() == Grid.CutLine(old(Model()))
    {
      CutUntilEol();
      if actualX == 0 {
        DeleteLine();
      }
    }

    /** C-o. */
    method OpenLine()
      requires Valid()
      modifies this`table, this`actualY
      ensures Model() == Grid.OpenLine(old(Model()))
    {
      if actualY < maxY {
        actualY := actualY + 1;
        InsertLine(Blanks(maxX + 1));
      }
    }

    /** Right arrow. */
    method MoveRight()
      requires Valid()
      modifies this`actualY, this`actualX
      ensures Model() == Grid.MoveRight(old(Model()))
    {
      var y, x := actualY, actualX;
      if x < maxX {
        if x < |NonBlank(table[y])| {
          actualX := actualX + 1;
        } else if y < maxY {
          actualY := actualY + 1;
          actualX := 0;
        }
      } else if y < maxY {
        actualY := actualY + 1;
        actualX := 0;
      }
    }

    /** Left arrow. */
    method MoveLeft()
      requires Valid()
      modifies this`actualY, this`actualX
      ensures Model() == Grid.MoveLeft(old(Model()))
    {
      if actualX > 0 {
        actualX := actualX - 1;
      } else if actualY > 0 {
        actualX := maxX;
        GotoMax(actualY - 1);
      }
    }

    /** Page up. */
    method PageBack()
      requires Valid()
      modifies this`actualY, this`actualX
      ensures Model() == Grid.PageBack(old(Model()))
    {
      if actualY - changePage > 0 {
        GotoMax(actualY - changePage);
      } else {
        GotoMax(0);
      }
    }

    /** Page down. */
    method PageForward()
      requires Valid()
      modifies this`actualY, this`actualX
      ensures Model() == Grid.PageForward(old(Model()))
    {
      if maxY > actualY + changePage {
        GotoMax(actualY + changePage);
      } else {
        GotoMax(maxY);
      }
    }

    /** The editing half of `_get_chr`: what a decoded key does. */
    method Dispatch(k: Keys.Key) returns (r: Reaction)
      requires Valid()
      modifies this`table, this`buffer, this`actualY, this`actualX
      ensures Valid()
      ensures match Grid.Apply(old(Model()), k)
        case Err(f) => r == Failed(f) && Model() == old(Model())
        case Ok(st) => r == Handled(st.more, st.beep) && Model() == st.next
    {
      if k == Keys.DeleteForward {
        var ok := CancelBack(actualY, actualX);
        r := if ok then Handled(true, false) else Failed(IndexOutOfRange);
      } else if k == Keys.Quit {
        r := Handled(false, false);
      } else if k == Keys.Ignored {
        r := Handled(true, false);
      } else if k == Keys.Unrecognized {
        r := Handled(true, true);
      } else if IsEdit(k) {
        EditKey(k);
        r := Handled(true, false);
      } else {
        MoveKey(k);
        r := Handled(true, false);
      }
    }

    /** The keys that change the table. */
    static predicate IsEdit(k: Keys.Key)
    {
      k.Insert? || k == Keys.Enter || k == Keys.Backspace || k == Keys.CutToEol
      || k == Keys.Paste || k == Keys.OpenLine
    }

    /** The keys that change the table, other than delete-forward. */
    method EditKey(k: Keys.Key)
      requires Valid() && IsEdit(k)
      modifies this`table, this`buffer, this`actualY, this`actualX
      ensures Grid.Apply(old(Model()), k).Ok?
      ensures Model() == Grid.Apply(old(Model()), k).value.next
    {
      match k
      case Insert(ch) => TypeChar(Glyph(ch));
      case Enter => BreakLine();
      case Backspace => DeleteBack();
      case CutToEol => CutLine();
      case Paste => Paste();
      case OpenLine => OpenLine();
    }

    /** The keys that only move the cursor. */
    method MoveKey(k: Keys.Key)
      requires Valid()
      requires k.Home? || k.End? || k.PageUp? || k.PageDown? || k.Up? || k.Down? || k.Right? || k.Left?
      modifies this`actualY, this`actualX
      ensures Grid.Apply(old(Model()), k).Ok?
      ensures Model() == Grid.Apply(old(Model()), k).value.next
    {
      if k.Home? {
        actualY, actualX := 0, 0;
      } else if k.End? {
        GotoMax(maxY);
      } else if k.Up? {
        if actualY > 0 {
          GotoMax(actualY - 1);
        }
      } else if k.Down? {
        if actualY < maxY {
          GotoMax(actualY + 1);
        }
      } else {
        StepKey(k);
      }
    }

    /** The page and arrow keys that may change rows by more than one or
        wrap between rows. */
    method StepKey(k: Keys.Key)
      requires Valid()
      requires k.PageUp? || k.PageDown? || k.Right? || k.Left?
      modifies this`actualY, this`actualX
      ensures Grid.Apply(old(Model()), k).Ok?
      ensures Model() == Grid.Apply(old(Model()), k).value.next
    {
      match k
      case PageUp => PageBack();
      case PageDown => PageForward();
      case Right => MoveRight();
      case Left => MoveLeft();
    }

    /** `_get_chr`: read the codes of one key and handle it. When the codes
        run out inside a key they are all consumed and nothing else
        changes; a malformed two-byte sequence or an `IndexError` leaves
        the grid as it was. */
    method GetChr() returns (r: Reaction)
      requires Valid()
      modifies this
      ensures Valid() && input == old(input)
      ensures var d := Keys.Decode(old(input[pos..]));
        match d
        case Incomplete => r == OutOfInput && pos == |input| && Model() == old(Model())
        case Malformed(f, n) => r == Failed(f) && pos == old(pos) + n && Model() == old(Model())
        case Complete(k, n) =>
          pos == old(pos) + n &&
          match Grid.Apply(old(Model()), k)
          case Err(f) => r == Failed(f) && Model() == old(Model())
          case Ok(st) => r == Handled(st.more, st.beep) && Model() == st.next
    {
      var d := Keys.Decode(input[pos..]);
      match d
      case Incomplete =>
        pos := |input|;
        r := OutOfInput;
      case Malformed(f, n) =>
        pos := pos + n;
        r := Failed(f);
      case Complete(k, n) =>
        pos := pos + n;
        r := Dispatch(k);
    }

    /** `edit`: handle keys until quit; an exception, or the end of the
        codes, also ends the session. The outcome is the one the grid
        specification's `Run` gives for the codes not yet read. */
    method Edit() returns (ending: Grid.Ending)
      requires Valid()
      modifies this
      ensures Valid() && input == old(input)
      ensures (Model(), ending) == Grid.Run(old(Model()), old(input[pos..]))
    {
      while true
        invariant Valid() && input == old(input)
        invariant Grid.Run(Model(), input[pos..]) == Grid.Run(old(Model()), old(input[pos..]))
        decreases |input| - pos
      {
        ghost var s, rest := Model(), input[pos..];
        ghost var p0 := pos;
        var r := GetChr();
        match r
        case OutOfInput =>
          return Grid.OutOfInput;
        case Failed(f) =>
          return Grid.Faulted(f);
        case Handled(more, _) =>
          if !more {
            return Grid.Quitted;
          }
          assert input[pos..] == rest[pos - p0..];
      }
    }

    /** `save_text`. */
    function SaveText(): string
      reads this
    {
      Text.SaveText(table)
    }
  }
}
