/**
  The constant 3x5 font. Each glyph is five row bytes, top row first; in a
  row byte bit 2 is the left column and bit 0 the right column. Characters
  without an entry fall back to the last entry, the blank space.
 */
module Glyphs {
  import opened Bits

  const GlyphW: nat := 3
  const GlyphH: nat := 5

  datatype Glyph = Glyph(ch: char, rows: seq<nat>)

  /** `kGlyphs`, in table order. */
  const Table: seq<Glyph> := [
    Glyph('0', [7, 5, 5, 5, 7]),
    Glyph('1', [2, 6, 2, 2, 7]),
    Glyph('2', [7, 1, 7, 4, 7]),
    Glyph('3', [7, 1, 7, 1, 7]),
    Glyph('4', [5, 5, 7, 1, 1]),
    Glyph('5', [7, 4, 7, 1, 7]),
    Glyph('6', [7, 4, 7, 5, 7]),
    Glyph('7', [7, 1, 2, 2, 2]),
    Glyph('8', [7, 5, 7, 5, 7]),
    Glyph('9', [7, 5, 7, 1, 7]),
    Glyph(':', [0, 2, 0, 2, 0]),
    Glyph(' ', [0, 0, 0, 0, 0])
  ]

  const Blank: seq<nat> := [0, 0, 0, 0, 0]

  /** The characters the table has an entry for. */
  const Known: set<char> := set i | 0 <= i < |Table| :: Table[i].ch

  /** A row of a glyph: five entries, each fitting in three bits. */
  predicate WellFormedRows(rows: seq<nat>)
  {
    |rows| == GlyphH && forall k | 0 <= k < |rows| :: rows[k] < 8
  }

  /** Index of the first entry at or after `i` whose character is `ch`, or `|Table|` when none is. */
  function FindFrom(ch: char, i: nat): (k: nat)
    requires i <= |Table|
    ensures i <= k <= |Table|
    ensures k < |Table| ==> Table[k].ch == ch
    ensures forall j | i <= j < k :: Table[j].ch != ch
    decreases |Table| - i
  {
    if i == |Table| then |Table|
    else if Table[i].ch == ch then i
    else FindFrom(ch, i + 1)
  }

  /** `lookup_glyph`: linear search of the table with the space as fallback. */
  function LookupGlyph(ch: char): (rows: seq<nat>)
    ensures WellFormedRows(rows)
    ensures forall i | 0 <= i < |Table| && Table[i].ch == ch :: rows == Table[i].rows
    ensures (forall i | 0 <= i < |Table| :: Table[i].ch != ch) ==> rows == Blank
  {
    TableIsWellFormed();
    var k := FindFrom(ch, 0);
    if k < |Table| then Table[k].rows else Table[|Table| - 1].rows
  }

  lemma TableIsWellFormed()
    ensures |Table| == 12
    ensures forall i, j | 0 <= i < j < |Table| :: Table[i].ch != Table[j].ch
    ensures forall i | 0 <= i < |Table| :: WellFormedRows(Table[i].rows)
    ensures Table[|Table| - 1].rows == Blank
    ensures Table[|Table| - 1].ch == ' '
    ensures forall i | 0 <= i < |Table| - 1 :: Table[i].rows[0] != 0 || Table[i].rows[1] != 0
  {
  }

  /** Exactly the characters of the font have a glyph; the space and everything else are blank. */
  lemma LookupByCharacter(ch: char)
    ensures ch !in Known || ch == ' ' <==> LookupGlyph(ch) == Blank
  {
    TableIsWellFormed();
    if ch in Known && ch != ' ' {
      var i :| 0 <= i < |Table| && Table[i].ch == ch;
      assert i < |Table| - 1;
      assert LookupGlyph(ch) == Table[i].rows;
      assert Table[i].rows[0] != 0 || Table[i].rows[1] != 0;
    } else if ch == ' ' {
      assert Table[|Table| - 1].ch == ch;
    }
  }

  /**
    Whether column `col` of a row is set: `bits & (1 << (GlyphW - 1 - col))`,
    so column 0 is bit 2.
   */
  predicate ColumnSet(bits: nat, col: nat)
    requires col < GlyphW
  {
    And(bits, ShiftLeft(1, GlyphW - 1 - col)) != 0
  }

  lemma ColumnSetIsBit(bits: nat, col: nat)
    requires col < GlyphW
    ensures ColumnSet(bits, col) <==> (bits / Pow2(GlyphW - 1 - col)) % 2 == 1
  {
    AndSingleBit(bits, GlyphW - 1 - col);
  }
}
