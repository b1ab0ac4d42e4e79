/** Cells and rows of the editor's character grid, the list operations the
    editor applies to rows, and the facts about them that the editing
    operations rely on. */
module Rows {

  /** One grid cell: the empty string of the original (a blank) or one character. */
  datatype Cell = Blank | Glyph(ch: char)

  /** Python's `min` on two integers. */
  function Min(a: int, b: int): int { if a < b then a else b }

  /** `[''] * n`: n blanks, and none when n is not positive. */
  function Blanks(n: int): (r: seq<Cell>)
    ensures |r| == if n < 0 then 0 else n
    ensures forall i :: 0 <= i < |r| ==> r[i] == Blank
  {
    if n <= 0 then [] else seq(n, _ => Blank)
  }

  /** The non-blank cells of `s`, in order: the comprehension
      `[_f for _f in s if _f]`. */
  function NonBlank(s: seq<Cell>): (r: seq<Cell>)
    ensures |r| <= |s|
    ensures forall i :: 0 <= i < |r| ==> r[i].Glyph?
    ensures (forall i :: 0 <= i < |s| ==> s[i] == Blank) <==> r == []
  {
    if s == [] then [] else (if s[0].Glyph? then [s[0]] else []) + NonBlank(s[1..])
  }

  /** `s` cut to, or padded with blanks up to, exactly `n` cells. */
  function Fit(s: seq<Cell>, n: nat): (r: seq<Cell>)
    ensures |r| == n
    ensures forall i :: 0 <= i < n ==> r[i] == if i < |s| then s[i] else Blank
  {
    if |s| >= n then s[..n] else s + Blanks(n - |s|)
  }

  /** `s.insert(i, v)` for `i >= 0`: at or past the end it appends. */
  function ListInsert<T>(s: seq<T>, i: nat, v: T): seq<T>
  {
    if i >= |s| then s + [v] else s[..i] + [v] + s[i..]
  }

  /** `del s[i:]` for `i >= 0`. */
  function ListDelFrom<T>(s: seq<T>, i: nat): seq<T>
  {
    if i >= |s| then s else s[..i]
  }

  /** `s[i:j]` for `0 <= i`, `0 <= j`: both ends are clamped to the length. */
  function ListSlice<T>(s: seq<T>, i: nat, j: nat): seq<T>
  {
    var hi := if j > |s| then |s| else j;
    if i >= hi then [] else s[i..hi]
  }

  /** The row after `_insert_chr` at column x: `c` enters at x, the cells
      from x move one place right and the last cell falls off. At or past
      the end the inserted cell is the one popped again. */
  function ShiftIn(row: seq<Cell>, x: nat, c: Cell): (r: seq<Cell>)
    ensures |r| == |row|
    ensures x < |row| ==> forall i :: 0 <= i < |row| ==>
      r[i] == if i < x then row[i] else if i == x then c else row[i - 1]
    ensures x >= |row| ==> r == row
  {
    if x < |row| then row[..x] + [c] + row[x..|row| - 1] else row
  }

  /** The row after `_delete_chr` at column x: the cell at x goes, the cells
      after it move one place left and a blank enters at the end. */
  function ShiftOut(row: seq<Cell>, x: nat): (r: seq<Cell>)
    requires x < |row|
    ensures |r| == |row|
    ensures forall i :: 0 <= i < |row| ==>
      r[i] == if i < x then row[i] else if i < |row| - 1 then row[i + 1] else Blank
  {
    row[..x] + row[x + 1..] + [Blank]
  }

  /** A run of cells in which no glyph follows a blank. */
  predicate Compact(s: seq<Cell>)
  {
    forall i, j :: 0 <= i < j < |s| && s[i] == Blank ==> s[j] == Blank
  }

  lemma {:induction false} NonBlankAppend(a: seq<Cell>, b: seq<Cell>)
    ensures NonBlank(a + b) == NonBlank(a) + NonBlank(b)
  {
    if a == [] {
      assert a + b == b;
    } else {
      assert (a + b)[1..] == a[1..] + b;
      NonBlankAppend(a[1..], b);
    }
  }

  /** A run of glyphs is its own non-blank part. */
  lemma {:induction false} NonBlankOfGlyphs(s: seq<Cell>)
    requires forall i :: 0 <= i < |s| ==> s[i].Glyph?
    ensures NonBlank(s) == s
  {
    if s != [] {
      NonBlankOfGlyphs(s[1..]);
    }
  }

  /** Dropping blanks twice drops nothing more. */
  lemma NonBlankIdempotent(s: seq<Cell>)
    ensures NonBlank(NonBlank(s)) == NonBlank(s)
  {
    NonBlankOfGlyphs(NonBlank(s));
  }

  /** Padding with blanks adds no glyph. */
  lemma NonBlankPadded(s: seq<Cell>, n: int)
    ensures NonBlank(s + Blanks(n)) == NonBlank(s)
  {
    NonBlankAppend(s, Blanks(n));
  }

  /** `_fill` as written (count the glyphs, append `maxX - count` blanks,
      delete from index maxX) always leaves exactly `maxX` cells: the row
      cut or blank-padded to `maxX`. Cells keep their positions; the row is
      not compacted. */
  lemma FillIsFit(row: seq<Cell>, maxX: nat)
    ensures ListDelFrom(row + Blanks(maxX - |NonBlank(row)|), maxX) == Fit(row, maxX)
  {
    var padded := row + Blanks(maxX - |NonBlank(row)|);
    assert |padded| >= maxX;
    assert ListDelFrom(padded, maxX) == padded[..maxX];
    if |row| >= maxX {
      assert padded[..maxX] == row[..maxX];
    } else {
      assert padded[..maxX] == row + Blanks(maxX - |row|);
    }
  }

  /** Blanks appended before fitting change nothing: fitting pads anyway. */
  lemma FitPadded(s: seq<Cell>, k: int, n: nat)
    ensures Fit(s + Blanks(k), n) == Fit(s, n)
  {
  }

  /** Inserting c at x and then deleting at x gives the row back exactly
      when the cell that fell off the right edge was a blank. */
  lemma ShiftOutShiftIn(row: seq<Cell>, x: nat, c: Cell)
    requires x < |row|
    ensures ShiftOut(ShiftIn(row, x, c), x) == row <==> row[|row| - 1] == Blank
  {
    var r := ShiftOut(ShiftIn(row, x, c), x);
    assert r == row[..|row| - 1] + [Blank];
    if row[|row| - 1] == Blank {
      assert row == row[..|row| - 1] + [row[|row| - 1]];
    } else {
      assert r[|row| - 1] != row[|row| - 1];
    }
  }

  /** Deleting the cell at x and inserting it again at x always restores the row. */
  lemma ShiftInShiftOut(row: seq<Cell>, x: nat)
    requires x < |row|
    ensures ShiftIn(ShiftOut(row, x), x, row[x]) == row
  {
  }

  /** A compact run is its glyphs followed by blanks. */
  lemma {:induction false} CompactSplits(s: seq<Cell>)
    requires Compact(s)
    ensures s == NonBlank(s) + Blanks(|s| - |NonBlank(s)|)
  {
    if s != [] {
      assert Compact(s[1..]) by {
        forall i, j | 0 <= i < j < |s[1..]| && s[1..][i] == Blank
          ensures s[1..][j] == Blank
        {
          assert s[i + 1] == Blank;
        }
      }
      CompactSplits(s[1..]);
      if s[0] == Blank {
        assert forall j :: 0 < j < |s| ==> s[j] == Blank;
        assert NonBlank(s[1..]) == [];
        assert s == Blanks(|s|);
      } else {
        assert NonBlank(s) == [s[0]] + NonBlank(s[1..]);
      }
    }
  }
}
