/** `save_text`: the grid as the final string. Each row's cells are joined
    (a blank contributes nothing), the rows are joined with a newline and
    trailing whitespace is stripped from the end of the whole text. */
module Text {
  import opened Rows

  /** `''.join(row)`: the characters of the row's glyphs, in order. */
  function RowText(row: seq<Cell>): (r: string)
    ensures |r| == |NonBlank(row)|
    ensures forall i :: 0 <= i < |r| ==> NonBlank(row)[i] == Glyph(r[i])
  {
    if row == [] then ""
    else (match row[0] case Blank => "" case Glyph(c) => [c]) + RowText(row[1..])
  }

  /** `'\n'.join(lines)`. */
  function JoinLines(lines: seq<string>): string
  {
    if |lines| == 0 then ""
    else if |lines| == 1 then lines[0]
    else lines[0] + "\n" + JoinLines(lines[1..])
  }

  /** The characters `str.rstrip()` removes from a byte string: space, tab,
      line feed, vertical tab, form feed and carriage return. */
  predicate IsSpace(c: char)
  {
    c == ' ' || 9 <= c as int <= 13
  }

  /** `s.rstrip()`: the longest prefix of `s` that does not end in whitespace. */
  function RStrip(s: string): (r: string)
    ensures |r| <= |s| && r == s[..|r|]
    ensures forall i :: |r| <= i < |s| ==> IsSpace(s[i])
    ensures r == [] || !IsSpace(r[|r| - 1])
  {
    if s == [] || !IsSpace(s[|s| - 1]) then s else RStrip(s[..|s| - 1])
  }

  function Lines(table: seq<seq<Cell>>): (lines: seq<string>)
    ensures |lines| == |table|
  {
    seq(|table|, i requires 0 <= i < |table| => RowText(table[i]))
  }

  /** `save_text`: the joined text up to its last non-whitespace character. */
  function SaveText(table: seq<seq<Cell>>): (r: string)
    ensures var all := JoinLines(Lines(table));
      |r| <= |all| && r == all[..|r|]
    ensures forall i :: |r| <= i < |JoinLines(Lines(table))| ==> IsSpace(JoinLines(Lines(table))[i])
    ensures r == [] || !IsSpace(r[|r| - 1])
  {
    RStrip(JoinLines(Lines(table)))
  }

  /** The text of a row depends only on its glyphs, not on where blanks sit. */
  lemma {:induction false} RowTextOfGlyphs(row: seq<Cell>)
    ensures RowText(row) == RowText(NonBlank(row))
  {
    var a, b := RowText(row), RowText(NonBlank(row));
    NonBlankIdempotent(row);
    assert |a| == |b|;
    forall i | 0 <= i < |a| ensures a[i] == b[i] {
      assert Glyph(a[i]) == NonBlank(row)[i] == Glyph(b[i]);
    }
  }

  /** Lines that are all empty join to newlines only. */
  lemma {:induction false} JoinEmptyLines(lines: seq<string>)
    requires forall i :: 0 <= i < |lines| ==> lines[i] == ""
    ensures forall i :: 0 <= i < |JoinLines(lines)| ==> JoinLines(lines)[i] == '\n'
  {
    if |lines| > 1 {
      JoinEmptyLines(lines[1..]);
      assert JoinLines(lines) == "\n" + JoinLines(lines[1..]);
    }
  }

  /** A grid with no glyph, such as a fresh one, saves as the empty string. */
  lemma BlankGridSavesEmpty(table: seq<seq<Cell>>)
    requires forall r, i :: 0 <= r < |table| && 0 <= i < |table[r]| ==> table[r][i] == Blank
    ensures SaveText(table) == ""
  {
    var lines := Lines(table);
    forall r | 0 <= r < |table| ensures lines[r] == "" {
      assert NonBlank(table[r]) == [];
    }
    JoinEmptyLines(lines);
  }
}
