/** The editor's state as a value, and one function per editing primitive
    and per key: the specification that the `Editor` class methods are
    proved against. Rows are indexed by y (0..maxY), columns by x
    (0..maxX); every row has maxX or maxX+1 cells: a fresh row has
    maxX+1, `_fill` leaves maxX, and the row a spilling backspace join
    leaves above the cursor has maxX+1 again. */
module Grid {
  import opened Rows
  import opened Outcomes
  import Keys

  /** `changePage`: how many rows PageUp and PageDown move. */
  const ChangePage := 10

  /** `table`, `buffer` and the cursor (`_actualY`, `_actualX`), with the
      grid size `maxY = rows - 1`, `maxX = cols - 1`. */
  datatype State = State(maxY: nat, maxX: nat, table: seq<seq<Cell>>, buffer: seq<Cell>, y: nat, x: nat)

  /** The outcome of one handled key: the new state, whether the session
      goes on (false only for quit) and whether the terminal beeps. */
  datatype Step = Step(next: State, more: bool, beep: bool)

  /** maxY+1 rows, each of maxX or maxX+1 cells. */
  predicate Shaped(maxY: nat, maxX: nat, t: seq<seq<Cell>>)
  {
    |t| == maxY + 1 && forall r :: 0 <= r < |t| ==> maxX <= |t[r]| <= maxX + 1
  }

  /** The invariant every keystroke keeps: the grid shape and the cursor bounds. */
  predicate Valid(s: State)
  {
    Shaped(s.maxY, s.maxX, s.table) && s.y <= s.maxY && s.x <= s.maxX
  }

  predicate SameSize(s: State, r: State)
  {
    r.maxY == s.maxY && r.maxX == s.maxX
  }

  /** All rows other than row `y` are the same in `t` and `u`. */
  predicate OthersUnchanged(t: seq<seq<Cell>>, u: seq<seq<Cell>>, y: nat)
  {
    |u| == |t| && forall i :: 0 <= i < |t| && i != y ==> u[i] == t[i]
  }

  /** The state `__init__` builds: every row maxX+1 blanks, cursor at the
      origin, empty buffer. */
  function Fresh(maxY: nat, maxX: nat): (s: State)
    ensures Valid(s) && s.maxY == maxY && s.maxX == maxX
    ensures s.y == 0 && s.x == 0 && s.buffer == []
    ensures forall r :: 0 <= r < |s.table| ==> s.table[r] == Blanks(maxX + 1)
  {
    State(maxY, maxX, seq(maxY + 1, _ => Blanks(maxX + 1)), [], 0, 0)
  }

  /** `_insert_line`: `line` enters at the cursor row, the rows from there
      move down one and the last row is dropped. */
  function InsertLine(s: State, line: seq<Cell>): (r: State)
    requires s.y < |s.table|
    ensures r == s.(table := r.table)
    ensures |r.table| == |s.table| && r.table[s.y] == line
    ensures forall i :: 0 <= i < s.y ==> r.table[i] == s.table[i]
    ensures forall i :: s.y < i < |s.table| ==> r.table[i] == s.table[i - 1]
    ensures Valid(s) && s.maxX <= |line| <= s.maxX + 1 ==> Valid(r)
  {
    s.(table := s.table[..s.y] + [line] + s.table[s.y..|s.table| - 1])
  }

  /** `_fill(line)`: that row cut or padded to exactly maxX cells. */
  function FillRow(s: State, line: nat): (r: State)
    requires line < |s.table|
    ensures r == s.(table := r.table) && OthersUnchanged(s.table, r.table, line)
    ensures |r.table[line]| == s.maxX
    ensures forall i :: 0 <= i < s.maxX ==>
      r.table[line][i] == if i < |s.table[line]| then s.table[line][i] else Blank
    ensures Valid(s) ==> Valid(r)
  {
    s.(table := s.table[line := Fit(s.table[line], s.maxX)])
  }

  /** `_insert_chr(c)`: only the cursor row changes, and keeps its length. */
  function InsertChr(s: State, c: Cell): (r: State)
    requires s.y < |s.table|
    ensures r == s.(table := r.table) && OthersUnchanged(s.table, r.table, s.y)
    ensures r.table[s.y] == ShiftIn(s.table[s.y], s.x, c)
    ensures Valid(s) ==> Valid(r)
  {
    s.(table := s.table[s.y := ShiftIn(s.table[s.y], s.x, c)])
  }

  /** `_delete_chr`: `pop(x)` fails when x is not an index of the cursor
      row (column maxX of a row `_fill` shortened); otherwise only the
      cursor row changes, and keeps its length. */
  function DeleteChr(s: State): (r: Result<State>)
    requires s.y < |s.table|
    ensures r.Ok? <==> s.x < |s.table[s.y]|
    ensures r.Err? ==> r.fault == IndexOutOfRange
    ensures r.Ok? ==>
      (r.value == s.(table := r.value.table)
       && OthersUnchanged(s.table, r.value.table, s.y)
       && r.value.table[s.y] == ShiftOut(s.table[s.y], s.x))
    ensures r.Ok? && Valid(s) ==> Valid(r.value)
  {
    if s.x < |s.table[s.y]| then Ok(s.(table := s.table[s.y := ShiftOut(s.table[s.y], s.x)]))
    else Err(IndexOutOfRange)
  }

  /** `_delete_line`: the cursor row goes, the rows below move up and a
      fresh blank row is appended. */
  function DeleteLine(s: State): (r: State)
    requires s.y < |s.table|
    ensures r == s.(table := r.table) && |r.table| == |s.table|
    ensures forall i :: 0 <= i < s.y ==> r.table[i] == s.table[i]
    ensures forall i :: s.y <= i < |s.table| - 1 ==> r.table[i] == s.table[i + 1]
    ensures r.table[|s.table| - 1] == Blanks(s.maxX + 1)
    ensures Valid(s) ==> Valid(r)
  {
    s.(table := s.table[..s.y] + s.table[s.y + 1..] + [Blanks(s.maxX + 1)])
  }

  /** `_cut_until_eol`: the buffer gets the cells from the cursor to column
      maxX, the row keeps the cells before the cursor and is blank after,
      with maxX cells in all. */
  function CutUntilEol(s: State): (r: State)
    requires s.y < |s.table| && s.x <= s.maxX <= |s.table[s.y]|
    ensures r == s.(table := r.table, buffer := r.buffer) && OthersUnchanged(s.table, r.table, s.y)
    ensures var row := s.table[s.y];
      r.buffer == row[s.x..if |row| > s.maxX + 1 then s.maxX + 1 else |row|]
    ensures |r.table[s.y]| == s.maxX && r.table[s.y][..s.x] == s.table[s.y][..s.x]
    ensures forall i :: s.x <= i < s.maxX ==> r.table[s.y][i] == Blank
    ensures Valid(s) ==> Valid(r)
  {
    var row := s.table[s.y];
    s.(buffer := ListSlice(row, s.x, s.maxX + 1),
       table := s.table[s.y := row[..s.x] + Blanks(s.maxX - s.x)])
  }

  /** `_paste`: the buffer's glyphs enter at the cursor in order, the row is
      then fitted to maxX cells, and the cursor ends after them or at maxX.
      The buffer is kept. */
  function Paste(s: State): (r: State)
    requires s.y < |s.table| && s.x <= |s.table[s.y]|
    ensures r == s.(table := r.table, x := r.x) && OthersUnchanged(s.table, r.table, s.y)
    ensures var k := |NonBlank(s.buffer)|; r.x == if s.x + k > s.maxX then s.maxX else s.x + k
    ensures var row := s.table[s.y];
      r.table[s.y] == Fit(row[..s.x] + NonBlank(s.buffer) + row[s.x..], s.maxX)
    ensures Valid(s) ==> Valid(r)
  {
    var row := s.table[s.y];
    var k := NonBlank(s.buffer);
    s.(table := s.table[s.y := Fit(row[..s.x] + k + row[s.x..], s.maxX)],
       x := if s.x + |k| > s.maxX then s.maxX else s.x + |k|)
  }

  /** `_goto_max(line)`: the cursor moves to that row and its column is
      lowered to the number of glyphs there when it was past it. */
  function GotoMax(s: State, line: nat): (r: State)
    requires line < |s.table|
    ensures r == s.(y := line, x := r.x)
    ensures r.x <= s.x && r.x <= |NonBlank(s.table[line])|
    ensures r.x == s.x || r.x == |NonBlank(s.table[line])|
    ensures Valid(s) ==> Valid(r)
  {
    var n := |NonBlank(s.table[line])|;
    s.(y := line, x := if s.x > n then n else s.x)
  }

  /** A printable or decoded character: insert it, then step right, or to
      the start of the next row from column maxX, or stay on the last cell. */
  function TypeChar(s: State, c: Cell): (r: State)
    requires Valid(s)
    ensures Valid(r) && SameSize(s, r) && r.buffer == s.buffer
    ensures r.table == InsertChr(s, c).table
    ensures (r.y, r.x) == if s.x < s.maxX then (s.y, s.x + 1)
                          else if s.y < s.maxY then (s.y + 1, 0) else (s.y, s.x)
  {
    var s1 := InsertChr(s, c);
    if s.x < s.maxX then s1.(x := s.x + 1)
    else if s.y < s.maxY then s1.(y := s.y + 1, x := 0)
    else s1
  }

  /** Enter: on a row above the last, a tail of glyphs right of the cursor
      is cut, a blank row is inserted below and the tail pasted at its
      start; without such a tail only a blank row is inserted. On the last
      row nothing happens. */
  function BreakLine(s: State): (r: State)
    requires Valid(s)
    ensures Valid(r) && SameSize(s, r)
  {
    if s.y < s.maxY then
      if NonBlank(s.table[s.y][s.x..]) != [] then SplitLine(s)
      else InsertLine(s.(y := s.y + 1, x := 0), Blanks(s.maxX + 1))
    else s
  }

  /** Enter with glyphs right of the cursor: cut them, open a blank row
      below, paste them at its start and leave the cursor there. */
  function SplitLine(s: State): (r: State)
    requires Valid(s) && s.y < s.maxY
    ensures Valid(r) && SameSize(s, r) && (r.y, r.x) == (s.y + 1, 0)
  {
    var s1 := CutUntilEol(s);
    var s2 := InsertLine(s1.(y := s.y + 1, x := 0), Blanks(s.maxX + 1));
    Paste(s2).(x := 0)
  }

  /** Backspace at column 0 of a row below the first: the cursor goes to
      the end of the row above (the glyph count there, at most maxX); the
      glyphs of the current row are appended there when they fit in the
      rest of that row, and a blank row is appended at the bottom;
      otherwise what fits is appended and the surplus, fitted to maxX
      cells, takes the current row's place. */
  function JoinAbove(s: State): (r: State)
    requires Valid(s) && s.x == 0 && 0 < s.y
    ensures Valid(r) && SameSize(s, r) && r.buffer == s.buffer
  {
    var row := s.table[s.y];
    var g := GotoMax(s.(x := s.maxX), s.y - 1);
    var p := g.x;
    var delta := s.maxX - p + 1;
    var chrs := NonBlank(row);
    var prev := s.table[s.y - 1];
    var t := s.table[..s.y] + s.table[s.y + 1..];
    if |chrs| < delta then
      g.(table := t[s.y - 1 := Fit(prev[..p] + chrs, s.maxX)] + [Blanks(s.maxX + 1)])
    else
      var r := g.(table := t[..s.y - 1] + [prev[..p] + chrs[..delta], Fit(chrs[delta..], s.maxX)] + t[s.y..]);
      assert forall i :: 0 <= i < |r.table| ==>
        r.table[i] == if i < s.y - 1 then s.table[i] else if i > s.y then s.table[i] else r.table[i];
      r
  }

  /** Backspace: delete the cell left of the cursor and step onto it; at
      column 0 of a lower row join with the row above; at the origin delete
      row 0. */
  function DeleteBack(s: State): (r: State)
    requires Valid(s)
    ensures Valid(r) && SameSize(s, r) && r.buffer == s.buffer
  {
    if s.x > 0 then
      var s1 := s.(x := s.x - 1);
      s1.(table := s1.table[s1.y := ShiftOut(s1.table[s1.y], s1.x)])
    else if 0 < s.y then JoinAbove(s)
    else DeleteLine(s)
  }

  /** `_cancel_back` (C-d): delete the cell at the cursor; when nothing but
      blanks remains from the cursor on and the next row's glyphs number
      fewer than `maxX - x + 1`, the next row is appended at the cursor, the
      row fitted to maxX cells, and a blank row appended at the bottom. */
  function CancelBack(s: State): (r: Result<State>)
    requires Valid(s)
    ensures r.Ok? <==> s.x < |s.table[s.y]|
    ensures r.Err? ==> r.fault == IndexOutOfRange
    ensures r.Ok? ==> Valid(r.value) && r.value == s.(table := r.value.table)
  {
    match DeleteChr(s)
    case Err(f) => Err(f)
    case Ok(s1) =>
      if s.y < s.maxY then
        var row := s1.table[s.y];
        var next := s1.table[s.y + 1];
        if NonBlank(row[s.x..]) == [] && |NonBlank(next)| < s.maxX - s.x + 1 then
          Ok(s1.(table := s1.table[..s.y] + [Fit(row[..s.x] + next, s.maxX)]
                          + s1.table[s.y + 2..] + [Blanks(s.maxX + 1)]))
        else Ok(s1)
      else Ok(s1)
  }

  /** C-k: cut to the end of the line; at column 0 the emptied row is then
      deleted as well. */
  function CutLine(s: State): (r: State)
    requires Valid(s)
    ensures Valid(r) && SameSize(s, r) && (r.y, r.x) == (s.y, s.x)
    ensures s.x > 0 ==> r == CutUntilEol(s)
  {
    var s1 := CutUntilEol(s);
    if s1.x == 0 then DeleteLine(s1) else s1
  }

  /** C-o: on a row above the last, a blank row goes in below the cursor
      and the cursor moves onto it, keeping its column. */
  function OpenLine(s: State): (r: State)
    requires Valid(s)
    ensures Valid(r) && SameSize(s, r) && r.x == s.x && r.buffer == s.buffer
    ensures s.y < s.maxY ==>
      r.y == s.y + 1 && r.table == s.table[..s.y + 1] + [Blanks(s.maxX + 1)] + s.table[s.y + 1..s.maxY]
    ensures s.y == s.maxY ==> r == s
  {
    if s.y < s.maxY then InsertLine(s.(y := s.y + 1), Blanks(s.maxX + 1)) else s
  }

  /** Right arrow: one column right while that stays within the row's glyph
      count and below maxX, otherwise to the start of the next row. */
  function MoveRight(s: State): (r: State)
    requires Valid(s)
    ensures Valid(r) && r == s.(y := r.y, x := r.x)
    ensures (r.y, r.x) == if s.x < s.maxX && s.x < |NonBlank(s.table[s.y])| then (s.y, s.x + 1)
                          else if s.y < s.maxY then (s.y + 1, 0) else (s.y, s.x)
  {
    if s.x < s.maxX then
      if s.x < |NonBlank(s.table[s.y])| then s.(x := s.x + 1)
      else if s.y < s.maxY then s.(y := s.y + 1, x := 0)
      else s
    else if s.y < s.maxY then s.(y := s.y + 1, x := 0)
    else s
  }

  /** Left arrow: one column left, or from column 0 to the end of the row above. */
  function MoveLeft(s: State): (r: State)
    requires Valid(s)
    ensures Valid(r) && r == s.(y := r.y, x := r.x)
    ensures (r.y, r.x) == if s.x > 0 then (s.y, s.x - 1)
                          else if s.y > 0 then (s.y - 1, Min(s.maxX, |NonBlank(s.table[s.y - 1])|))
                          else (s.y, s.x)
  {
    if s.x > 0 then s.(x := s.x - 1)
    else if s.y > 0 then GotoMax(s.(x := s.maxX), s.y - 1)
    else s
  }

  /** Page up: `ChangePage` rows up when that stays below row 0 strictly, else row 0. */
  function PageBack(s: State): (r: State)
    requires Valid(s)
    ensures Valid(r) && r == s.(y := r.y, x := r.x) && r.x <= s.x
    ensures r.y == if s.y - ChangePage > 0 then s.y - ChangePage else 0
    ensures r.x == Min(s.x, |NonBlank(s.table[r.y])|)
  {
    if s.y - ChangePage > 0 then GotoMax(s, s.y - ChangePage) else GotoMax(s, 0)
  }

  /** Page down: `ChangePage` rows down when that stays above row maxY strictly, else row maxY. */
  function PageForward(s: State): (r: State)
    requires Valid(s)
    ensures Valid(r) && r == s.(y := r.y, x := r.x) && r.x <= s.x
    ensures r.y == if s.maxY > s.y + ChangePage then s.y + ChangePage else s.maxY
    ensures r.x == Min(s.x, |NonBlank(s.table[r.y])|)
  {
    if s.maxY > s.y + ChangePage then GotoMax(s, s.y + ChangePage) else GotoMax(s, s.maxY)
  }

  /** The editing half of `_get_chr`: the effect of one decoded key. */
  function Apply(s: State, k: Keys.Key): (r: Result<Step>)
    requires Valid(s)
    ensures r.Ok? ==> Valid(r.value.next) && SameSize(s, r.value.next)
    ensures r.Err? <==> k == Keys.DeleteForward && s.x >= |s.table[s.y]|
    ensures r.Ok? ==> (r.value.more <==> k != Keys.Quit) && (r.value.beep <==> k == Keys.Unrecognized)
    ensures r.Ok? && (k == Keys.Quit || k == Keys.Ignored || k == Keys.Unrecognized) ==> r.value.next == s
  {
    match k
    case Insert(ch) => Ok(Step(TypeChar(s, Glyph(ch)), true, false))
    case Enter => Ok(Step(BreakLine(s), true, false))
    case Backspace => Ok(Step(DeleteBack(s), true, false))
    case DeleteForward =>
      (match CancelBack(s)
       case Ok(s1) => Ok(Step(s1, true, false))
       case Err(f) => Err(f))
    case CutToEol => Ok(Step(CutLine(s), true, false))
    case Paste => Ok(Step(Paste(s), true, false))
    case OpenLine => Ok(Step(OpenLine(s), true, false))
    case Quit => Ok(Step(s, false, false))
    case Home => Ok(Step(s.(y := 0, x := 0), true, false))
    case End => Ok(Step(GotoMax(s, s.maxY), true, false))
    case PageUp => Ok(Step(PageBack(s), true, false))
    case PageDown => Ok(Step(PageForward(s), true, false))
    case Up => Ok(Step(if s.y > 0 then GotoMax(s, s.y - 1) else s, true, false))
    case Down => Ok(Step(if s.y < s.maxY then GotoMax(s, s.y + 1) else s, true, false))
    case Right => Ok(Step(MoveRight(s), true, false))
    case Left => Ok(Step(MoveLeft(s), true, false))
    case Ignored => Ok(Step(s, true, false))
    case Unrecognized => Ok(Step(s, true, true))
  }

  /** How a session on a finite run of codes ends. */
  datatype Ending = Quitted | Faulted(fault: Fault) | OutOfInput

  /** `edit`: decode and apply keys until quit, an exception, or the end of
      the codes. A fault leaves the state as it was before that key. */
  function Run(s: State, codes: seq<int>): (r: (State, Ending))
    requires Valid(s)
    ensures Valid(r.0) && SameSize(s, r.0)
    decreases |codes|
  {
    match Keys.Decode(codes)
    case Incomplete => (s, OutOfInput)
    case Malformed(f, _) => (s, Faulted(f))
    case Complete(k, n) =>
      match Apply(s, k)
      case Err(f) => (s, Faulted(f))
      case Ok(st) => if !st.more then (st.next, Quitted) else Run(st.next, codes[n..])
  }
}
