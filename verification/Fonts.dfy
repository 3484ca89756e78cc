/** The font metric lookups of usr/X386/include/X11/Xlibint.h. */
module Fonts {
  import opened Bits

  /** The metrics are shorts. */
  type Short = x: int | -0x8000 <= x < 0x8000

  datatype CharStruct = CharStruct(lbearing: Short, rbearing: Short, width: Short, ascent: Short, descent: Short)

  /** XFontStruct; `hasPerChar` is false when `per_char` is null, that is when all
      characters have the metrics `minBounds`. */
  datatype Font = Font(
    minByte1: nat, maxByte1: nat, minByte2: nat, maxByte2: nat,
    hasPerChar: bool, perChar: seq<CharStruct>, minBounds: CharStruct, defaultChar: nat)
  {
    function Columns(): int { maxByte2 - minByte2 + 1 }

    predicate Valid() {
      && minByte1 <= maxByte1 && minByte2 <= maxByte2
      && (hasPerChar ==> |perChar| == (maxByte1 - minByte1 + 1) * Columns())
    }

    predicate Covers(row: nat, col: nat) {
      minByte1 <= row <= maxByte1 && minByte2 <= col <= maxByte2
    }
  }

  /** A pointer to a CharStruct of a font. */
  datatype Pointer = Null | MinBounds | PerChar(index: int)

  /** The bits of a short. */
  function Pattern(x: Short): nat { x % 0x10000 }

  /** CI_NONEXISTCHAR */
  predicate NonExistent(cs: CharStruct) {
    cs.width == 0 &&
    Or(Or(Or(Pattern(cs.rbearing), Pattern(cs.lbearing)), Pattern(cs.ascent)), Pattern(cs.descent)) == 0
  }

  lemma {:induction false} OrIsZero(x: nat, y: nat)
    ensures Or(x, y) == 0 <==> x == 0 && y == 0
    decreases y
  {
    if y == 0 {
    } else {
      OrIsZero(x / 2, y / 2);
    }
  }

  lemma PatternIsZero(x: Short)
    ensures Pattern(x) == 0 <==> x == 0
  {
    if x < 0 {
      DivModUnique(x, 0x10000, -1, x + 0x10000);
    } else {
      DivModUnique(x, 0x10000, 0, x);
    }
  }

  /** A character is missing exactly when all its metrics are zero. */
  lemma MissingIsAllZero(cs: CharStruct)
    ensures NonExistent(cs) <==> cs == CharStruct(0, 0, 0, 0, 0)
  {
    var r, l, a, d := Pattern(cs.rbearing), Pattern(cs.lbearing), Pattern(cs.ascent), Pattern(cs.descent);
    OrIsZero(r, l);
    OrIsZero(Or(r, l), a);
    OrIsZero(Or(Or(r, l), a), d);
    PatternIsZero(cs.rbearing);
    PatternIsZero(cs.lbearing);
    PatternIsZero(cs.ascent);
    PatternIsZero(cs.descent);
  }

  function Index(fs: Font, row: nat, col: nat): int {
    (row - fs.minByte1) * (fs.maxByte2 - fs.minByte2 + 1) + (col - fs.minByte2)
  }

  lemma IndexInBounds(fs: Font, row: nat, col: nat)
    requires fs.minByte1 <= fs.maxByte1 && fs.Covers(row, col)
    ensures 0 <= Index(fs, row, col) < (fs.maxByte1 - fs.minByte1 + 1) * fs.Columns()
  {
    var r, n := row - fs.minByte1, fs.Columns();
    assert r * n >= 0;
    assert (fs.maxByte1 - fs.minByte1 + 1) * n - (r + 1) * n == (fs.maxByte1 - fs.minByte1 - r) * n >= 0;
  }

  /** The first row starts the array. */
  lemma FirstRow(fs: Font, col: nat)
    requires fs.Valid() && fs.minByte2 <= col <= fs.maxByte2
    ensures Index(fs, fs.minByte1, col) == col - fs.minByte2
    ensures fs.hasPerChar ==> col - fs.minByte2 < |fs.perChar|
  {
    assert 0 * (fs.maxByte2 - fs.minByte2 + 1) == 0;
    IndexInBounds(fs, fs.minByte1, col);
  }

  /** CI_GET_CHAR_INFO_1D */
  function Lookup1D(fs: Font, col: nat, def: Pointer): Pointer
    requires fs.Valid()
  {
    if fs.minByte2 <= col <= fs.maxByte2 then
      if !fs.hasPerChar then MinBounds
      else
        FirstRow(fs, col);
        if NonExistent(fs.perChar[col - fs.minByte2]) then def else PerChar(col - fs.minByte2)
    else def
  }

  /** CI_GET_DEFAULT_INFO_1D: the whole default character is the column. */
  function Default1D(fs: Font): Pointer
    requires fs.Valid()
  {
    Lookup1D(fs, fs.defaultChar, Null)
  }

  /** CI_GET_CHAR_INFO_2D */
  function Lookup2D(fs: Font, row: nat, col: nat, def: Pointer): Pointer
    requires fs.Valid()
  {
    if fs.minByte1 <= row <= fs.maxByte1 && fs.minByte2 <= col <= fs.maxByte2 then
      if !fs.hasPerChar then MinBounds
      else
        IndexInBounds(fs, row, col);
        if NonExistent(fs.perChar[Index(fs, row, col)]) then def else PerChar(Index(fs, row, col))
    else def
  }

  /** CI_GET_DEFAULT_INFO_2D: its high byte is the row and its low byte the column. */
  function Default2D(fs: Font): Pointer
    requires fs.Valid()
  {
    Lookup2D(fs, Shr(fs.defaultChar, 8), And(fs.defaultChar, 0xff), Null)
  }

  // ------------------------------------------------------------------- index

  /** Row and column are what QueryFont of the X protocol (section 9) says they
      are: quotient and remainder of the index. */
  lemma IndexInverse(fs: Font, row: nat, col: nat)
    requires fs.Covers(row, col)
    ensures var i, n := Index(fs, row, col), fs.Columns();
            n > 0 && row == i / n + fs.minByte1 && col == i % n + fs.minByte2
  {
    var n := fs.Columns();
    assert (row - fs.minByte1) * n == n * (row - fs.minByte1);
    DivModUnique(Index(fs, row, col), n, row - fs.minByte1, col - fs.minByte2);
  }

  /** Hence no two characters share an entry. */
  lemma IndexInjective(fs: Font, row: nat, col: nat, row': nat, col': nat)
    requires fs.Covers(row, col) && fs.Covers(row', col')
    ensures Index(fs, row, col) == Index(fs, row', col') <==> row == row' && col == col'
  {
    IndexInverse(fs, row, col);
    IndexInverse(fs, row', col');
  }

  /** The 1D lookup is the 2D lookup in the first row; on a font with one row that
      is the only one. */
  lemma LookupsAgree(fs: Font, col: nat, def: Pointer)
    requires fs.Valid()
    ensures Lookup1D(fs, col, def) == Lookup2D(fs, fs.minByte1, col, def)
  {
    if fs.minByte2 <= col <= fs.maxByte2 { FirstRow(fs, col); }
  }

  /** The character has metrics of its own. */
  predicate Exists(fs: Font, row: nat, col: nat)
    requires fs.Valid()
  {
    fs.Covers(row, col) &&
    (!fs.hasPerChar || (IndexInBounds(fs, row, col); !NonExistent(fs.perChar[Index(fs, row, col)])))
  }

  /** What the 2D lookup finds: the entry whose number gives back row and column by
      division, the common metrics if there are no others, or the default. */
  lemma LookupFinds(fs: Font, row: nat, col: nat, def: Pointer)
    requires fs.Valid()
    ensures var p, n := Lookup2D(fs, row, col, def), fs.Columns();
            && (!Exists(fs, row, col) ==> p == def)
            && (Exists(fs, row, col) && !fs.hasPerChar ==> p == MinBounds)
            && (Exists(fs, row, col) && fs.hasPerChar ==>
                  && p.PerChar? && 0 <= p.index < |fs.perChar| && n > 0
                  && p.index / n + fs.minByte1 == row && p.index % n + fs.minByte2 == col)
  {
    if fs.Covers(row, col) {
      IndexInBounds(fs, row, col);
      IndexInverse(fs, row, col);
    }
  }

  /** The 1D lookup finds the entry as far from the start as the column is from the
      first one. */
  lemma Lookup1DFinds(fs: Font, col: nat, def: Pointer)
    requires fs.Valid()
    ensures var p := Lookup1D(fs, col, def);
            && (!Exists(fs, fs.minByte1, col) ==> p == def)
            && (Exists(fs, fs.minByte1, col) && !fs.hasPerChar ==> p == MinBounds)
            && (Exists(fs, fs.minByte1, col) && fs.hasPerChar ==>
                  p.PerChar? && 0 <= p.index < |fs.perChar| && p.index + fs.minByte2 == col)
  {
    LookupsAgree(fs, col, def);
    if fs.minByte2 <= col <= fs.maxByte2 { FirstRow(fs, col); }
  }

  // -------------------------------------------------------- default character

  lemma DefaultBytes(fs: Font)
    ensures Shr(fs.defaultChar, 8) == fs.defaultChar / 256 && And(fs.defaultChar, 0xff) == fs.defaultChar % 256
  {
    assert Pow2(8) == 256;
    MaskIsModulus(fs.defaultChar, 8);
    ShrIsQuotient(fs.defaultChar, 8);
  }

  /** The default lookups find what the lookups of the default character find: read as
      a row and a column, and read as a column of the first row. */
  lemma DefaultsFind(fs: Font)
    requires fs.Valid()
    ensures Default2D(fs) == Lookup2D(fs, fs.defaultChar / 256, fs.defaultChar % 256, Null)
    ensures Default1D(fs) == Lookup2D(fs, fs.minByte1, fs.defaultChar, Null)
  {
    DefaultBytes(fs);
    LookupsAgree(fs, fs.defaultChar, Null);
  }

  /** A lookup that falls back on the default character gives null exactly when
      neither the character nor the default character exists. */
  lemma NullOnlyWithoutDefault(fs: Font, row: nat, col: nat)
    requires fs.Valid()
    ensures Lookup2D(fs, row, col, Default2D(fs)) == Null <==>
            !Exists(fs, row, col) && !Exists(fs, fs.defaultChar / 256, fs.defaultChar % 256)
  {
    DefaultBytes(fs);
  }

  /** The same for the 1D lookups, which stay in the first row. */
  lemma NullOnlyWithoutDefault1D(fs: Font, col: nat)
    requires fs.Valid()
    ensures Lookup1D(fs, col, Default1D(fs)) == Null <==>
            !Exists(fs, fs.minByte1, col) && !Exists(fs, fs.minByte1, fs.defaultChar)
  {
    LookupsAgree(fs, col, Default1D(fs));
    LookupsAgree(fs, fs.defaultChar, Null);
  }

  /** On a font with one row, the two default lookups agree exactly when the default
      character, read as a column and read as a row and a column, exists both ways
      or neither, and if both ways as the same entry. */
  lemma DefaultsAgreeExactlyWhen(fs: Font)
    requires fs.Valid() && fs.minByte1 == fs.maxByte1
    ensures var d := fs.defaultChar;
            Default1D(fs) == Default2D(fs) <==>
            && (Exists(fs, fs.minByte1, d) <==> Exists(fs, d / 256, d % 256))
            && (Exists(fs, fs.minByte1, d) && fs.hasPerChar ==> d < 256)
  {
    var d := fs.defaultChar;
    DefaultBytes(fs);
    LookupsAgree(fs, d, Null);
    if fs.Covers(fs.minByte1, d) && fs.Covers(d / 256, d % 256) {
      IndexInjective(fs, fs.minByte1, d, d / 256, d % 256);
    }
  }

  /** So they agree on every font of the one row 0 whose columns are bytes. */
  lemma DefaultsAgreeInRowZero(fs: Font)
    requires fs.Valid() && fs.minByte1 == fs.maxByte1 == 0 && fs.maxByte2 < 256
    ensures Default1D(fs) == Default2D(fs)
  {
    DefaultsAgreeExactlyWhen(fs);
  }

  /** And they differ on every font of one row whose default character exists in
      that row while its high byte names another: the 2D lookup looks for it there. */
  lemma DefaultsDifferElsewhere(fs: Font)
    requires fs.Valid() && fs.minByte1 == fs.maxByte1 != fs.defaultChar / 256
    requires Exists(fs, fs.minByte1, fs.defaultChar)
    ensures Default1D(fs) != Null && Default2D(fs) == Null
  {
    DefaultBytes(fs);
    LookupsAgree(fs, fs.defaultChar, Null);
  }

  /** For example on a font of the one row 1 with default character 32. */
  lemma DefaultsDifferInRowOne()
    ensures exists fs: Font :: fs.Valid() && fs.minByte1 == fs.maxByte1 == 1 && Default1D(fs) != Default2D(fs)
  {
    var zero := CharStruct(0, 0, 0, 0, 0);
    var fs := Font(1, 1, 0, 255, false, [], zero, 32);
    DefaultsDifferElsewhere(fs);
  }
}
