/** Where the parts of an a.out file are (usr/src/include/a.out.h), and the
    rounding that places them, in 32-bit arithmetic. */
module AOut {
  import opened Bits

  const MODULUS := 0x1_0000_0000
  type Word = x: int | 0 <= x < MODULUS

  const OMAGIC := 0x107
  const NMAGIC := 0x108
  const ZMAGIC := 0x10B
  const LDPGSZ := 4096
  const SIZEOF_EXEC := 32

  datatype Exec = Exec(magic: int, text: Word, data: Word, bss: Word, syms: Word, entry: Word,
                       trsize: Word, drsize: Word)

  function Wrap(x: int): Word { x % MODULUS }

  /** `__LDPGSZ + (a_text - 1 & ~(__LDPGSZ - 1))` */
  function PageRound(text: Word): Word {
    Wrap(LDPGSZ + AndNot(Wrap(text - 1), LDPGSZ - 1))
  }

  /** align_power of usr/local/include/bfd.h */
  function AlignPower(addr: Word, align: nat): int {
    AndNot(Wrap(addr + (Pow2(align) - 1)), Pow2(align) - 1)
  }

  function TxtOff(ex: Exec): Word { if ex.magic == ZMAGIC then LDPGSZ else SIZEOF_EXEC }

  function DatAddr(ex: Exec): Word { if ex.magic == OMAGIC then ex.text else PageRound(ex.text) }

  function DatOff(ex: Exec): Word {
    Wrap(TxtOff(ex) + if ex.magic != ZMAGIC then ex.text else PageRound(ex.text))
  }

  function SymOff(ex: Exec): Word { Wrap(TxtOff(ex) + ex.text + ex.data + ex.trsize + ex.drsize) }

  function StrOff(ex: Exec): Word { Wrap(SymOff(ex) + ex.syms) }

  // ---------------------------------------------------------------- rounding

  lemma DoubleProduct(a: int, b: int)
    ensures a * (2 * b) == 2 * (a * b)
  {
  }

  lemma {:induction false} Pow2Divides(k: nat, n: nat)
    requires k <= n
    ensures Pow2(n) == Pow2(k) * Pow2(n - k)
    decreases n - k
  {
    if k == n {
    } else {
      Pow2Divides(k, n - 1);
      DoubleProduct(Pow2(k), Pow2(n - 1 - k));
    }
  }

  lemma Pow2Of32()
    ensures Pow2(32) == MODULUS
  {
    assert Pow2(8) == 256;
    Pow2Divides(8, 16);
    Pow2Divides(16, 32);
  }

  lemma Regroup(p: int, q: int, n: int, a: int, b: int)
    ensures (p * q) * n + (p * a + b) == p * (q * n + a) + b
  {
    assert p * (q * n + a) == p * (q * n) + p * a;
    assert (p * q) * n == p * (q * n);
  }

  lemma QuotientAndRemainder(x: int, d: int)
    requires d > 0
    ensures x == d * (x / d) + x % d && 0 <= x % d < d
    ensures x >= 0 ==> d * (x / d) >= 0
  {
  }

  /** Remainders by `p` and by a multiple of `p`. */
  lemma ModOfMod(x: int, p: int, q: int, m: int)
    requires p > 0 && m > 0 && p * q == m
    ensures (x % m) % p == x % p
    ensures (x - x % p) % m == x % m - x % p
  {
    QuotientAndRemainder(x, m);
    var n, w := x / m, x % m;
    QuotientAndRemainder(w, p);
    var a, b := w / p, w % p;
    Regroup(p, q, n, a, b);
    DivModUnique(x, p, q * n + a, b);
    DivModUnique(x - b, m, n, w - b);
  }

  /** Wrapping around at 2^32 and rounding to 2^k do not disturb each other. */
  lemma WrapThenMask(x: int, k: nat)
    requires k <= 32
    ensures AndNot(Wrap(x), Pow2(k) - 1) == Wrap(AndNot(x, Pow2(k) - 1))
  {
    Pow2Of32();
    Pow2Divides(k, 32);
    MaskIsModulus(x, k);
    MaskIsModulus(Wrap(x), k);
    ModOfMod(x, Pow2(k), Pow2(32 - k), MODULUS);
  }

  /** align_power is rounding up to 2^k, modulo 2^32, for every 32-bit address. */
  lemma AlignPowerRoundsUp(addr: Word, align: nat)
    requires align <= 32
    ensures AlignPower(addr, align) == Wrap(RoundUp(addr, Pow2(align) - 1))
    ensures RoundUp(addr, Pow2(align) - 1) % Pow2(align) == 0 && addr <= RoundUp(addr, Pow2(align) - 1)
    ensures forall y :: y % Pow2(align) == 0 && addr <= y ==> RoundUp(addr, Pow2(align) - 1) <= y
  {
    WrapThenMask(addr + (Pow2(align) - 1), align);
    RoundUpIsLeastMultiple(addr, align);
  }

  lemma PageSize()
    ensures Pow2(12) == LDPGSZ
  {
    assert Pow2(6) == 64;
    Pow2Divides(6, 12);
  }

  /** `a - 1` rounded down to a page, and a page more, is `a` rounded up. */
  lemma OnePageOn(text: int)
    ensures LDPGSZ + AndNot(text - 1, LDPGSZ - 1) == RoundUp(text, LDPGSZ - 1)
  {
    PageSize();
    MaskIsModulus(text - 1, 12);
    MaskIsModulus(text + (LDPGSZ - 1), 12);
    var q, r := (text - 1) / LDPGSZ, (text - 1) % LDPGSZ;
    DivModUnique(text + (LDPGSZ - 1), LDPGSZ, q + 1, r);
  }

  lemma WrapSmall(x: int)
    requires 0 <= x < MODULUS
    ensures Wrap(x) == x
  {
    DivModUnique(x, MODULUS, 0, x);
  }

  lemma WrapSum(x: int, y: int)
    ensures Wrap(x + Wrap(y)) == Wrap(x + y)
  {
    var q := y / MODULUS;
    var n, r := (x + Wrap(y)) / MODULUS, Wrap(x + Wrap(y));
    DivModUnique(x + y, MODULUS, n + q, r);
  }

  /** The page rounding of a.out.h looks different, through `a_text - 1`, and is
      the same function, for every 32-bit size including 0 and those that wrap. */
  lemma PageRoundIsAlignPower(text: Word)
    ensures PageRound(text) == AlignPower(text, 12) == Wrap(RoundUp(text, LDPGSZ - 1))
  {
    PageSize();
    AlignPowerRoundsUp(text, 12);
    var low := AndNot(text - 1, LDPGSZ - 1);
    calc {
      PageRound(text);
      Wrap(LDPGSZ + AndNot(Wrap(text - 1), LDPGSZ - 1));
    ==  { WrapThenMask(text - 1, 12); }
      Wrap(LDPGSZ + Wrap(low));
    ==  { WrapSum(LDPGSZ, low); }
      Wrap(LDPGSZ + low);
    ==  { OnePageOn(text); }
      Wrap(RoundUp(text, LDPGSZ - 1));
    }
  }

  lemma PageRoundIsPages(text: int)
    ensures var r := RoundUp(text, LDPGSZ - 1);
            text <= r < text + LDPGSZ && r % LDPGSZ == 0 && (r == text <==> text % LDPGSZ == 0)
  {
    PageSize();
    RoundUpIsLeastMultiple(text, 12);
  }

  lemma PageRoundWithoutWrap(text: Word)
    requires RoundUp(text, LDPGSZ - 1) < MODULUS
    ensures PageRound(text) == RoundUp(text, LDPGSZ - 1)
  {
    PageRoundIsAlignPower(text);
    PageRoundIsPages(text);
    WrapSmall(RoundUp(text, LDPGSZ - 1));
  }

  /** Data starts where the text ends or, unless the text is impure, on the first
      page boundary from there. */
  lemma DataFollowsText(ex: Exec)
    requires RoundUp(ex.text, LDPGSZ - 1) < MODULUS
    ensures ex.text <= DatAddr(ex)
    ensures ex.magic == OMAGIC ==> DatAddr(ex) == ex.text
    ensures ex.magic != OMAGIC ==>
              DatAddr(ex) % LDPGSZ == 0 && forall y :: y % LDPGSZ == 0 && ex.text <= y ==> DatAddr(ex) <= y
  {
    PageRoundWithoutWrap(ex.text);
    PageRoundIsPages(ex.text);
    PageSize();
    RoundUpIsLeastMultiple(ex.text, 12);
  }

  // ------------------------------------------------------------------ layout

  /** No sum of sizes reaches 2^32, page rounding included. */
  predicate NoOverflow(ex: Exec) {
    TxtOff(ex) + RoundUp(ex.text, LDPGSZ - 1) + ex.data + ex.trsize + ex.drsize + ex.syms < MODULUS
  }

  /** Text, data, relocations, symbols and strings follow one another with no
      gap and no overlap. */
  predicate Tiles(ex: Exec) {
    && TxtOff(ex) + ex.text == DatOff(ex)
    && DatOff(ex) + ex.data + ex.trsize + ex.drsize == SymOff(ex)
    && SymOff(ex) + ex.syms == StrOff(ex)
  }

  lemma DatOffWithoutWrap(ex: Exec)
    requires NoOverflow(ex)
    ensures DatOff(ex) == TxtOff(ex) + if ex.magic != ZMAGIC then ex.text else RoundUp(ex.text, LDPGSZ - 1)
  {
    PageRoundIsPages(ex.text);
    if ex.magic == ZMAGIC {
      PageRoundWithoutWrap(ex.text);
      WrapSmall(LDPGSZ + PageRound(ex.text));
    } else {
      WrapSmall(SIZEOF_EXEC + ex.text);
    }
  }

  lemma OffsetsWithoutWrap(ex: Exec)
    requires NoOverflow(ex)
    ensures SymOff(ex) == TxtOff(ex) + ex.text + ex.data + ex.trsize + ex.drsize
    ensures StrOff(ex) == SymOff(ex) + ex.syms
  {
    PageRoundIsPages(ex.text);
    var end := TxtOff(ex) + ex.text + ex.data + ex.trsize + ex.drsize;
    WrapSmall(end);
    WrapSmall(end + ex.syms);
  }

  /** Where the regions of a file are: a header of eight words comes first or, in a
      demand-loaded file, a page for it, and the data of that file start on a page. */
  lemma Layout(ex: Exec)
    requires NoOverflow(ex)
    ensures ex.magic != ZMAGIC ==> TxtOff(ex) == 8 * 4 && DatOff(ex) == 32 + ex.text
    ensures ex.magic == ZMAGIC ==>
              && TxtOff(ex) == 4096 && DatOff(ex) % 4096 == 0 && 4096 + ex.text <= DatOff(ex)
              && forall y :: y % 4096 == 0 && 4096 + ex.text <= y ==> DatOff(ex) <= y
    ensures SymOff(ex) == (if ex.magic == ZMAGIC then 4096 else 32) + ex.text + ex.data + ex.trsize + ex.drsize
    ensures StrOff(ex) == SymOff(ex) + ex.syms
  {
    DatOffWithoutWrap(ex);
    OffsetsWithoutWrap(ex);
    if ex.magic == ZMAGIC {
      PageSize();
      RoundUpIsLeastMultiple(ex.text, 12);
      SumOfMultiples(RoundUp(ex.text, LDPGSZ - 1), 4096, 4096);
      forall y | y % 4096 == 0 && 4096 + ex.text <= y
        ensures DatOff(ex) <= y
      {
        SumOfMultiples(y, 4096, 4096);
        assert (y - 4096) % Pow2(12) == 0;
      }
    }
  }

  /** N_DATOFF rounds the text of a demand-loaded file to pages and N_SYMOFF does
      not: the regions tile exactly when there is nothing to round. */
  lemma TilesExactlyWhen(ex: Exec)
    requires NoOverflow(ex)
    ensures Tiles(ex) <==> ex.magic != ZMAGIC || ex.text % LDPGSZ == 0
  {
    DatOffWithoutWrap(ex);
    OffsetsWithoutWrap(ex);
    PageRoundIsPages(ex.text);
  }

  predicate InData(ex: Exec, b: nat) { DatOff(ex) <= b < DatOff(ex) + ex.data }

  predicate InSymbols(ex: Exec, b: nat) { SymOff(ex) <= b < SymOff(ex) + ex.syms }

  /** How far the page rounding of a demand-loaded file moves its data. */
  function Gap(ex: Exec): int {
    if ex.magic == ZMAGIC then RoundUp(ex.text, LDPGSZ - 1) - ex.text else 0
  }

  /** Some byte of the file is both data and symbols exactly when the rounding
      exceeds the relocations that should come between, and does not carry the data
      beyond the symbols. */
  lemma SymbolsOverlapExactlyWhen(ex: Exec)
    requires NoOverflow(ex)
    ensures (exists b: nat :: InData(ex, b) && InSymbols(ex, b)) <==>
            && ex.data > 0 && ex.syms > 0
            && ex.trsize + ex.drsize < Gap(ex) < ex.data + ex.trsize + ex.drsize + ex.syms
  {
    DatOffWithoutWrap(ex);
    OffsetsWithoutWrap(ex);
    var b := if DatOff(ex) < SymOff(ex) then SymOff(ex) else DatOff(ex);
    if ex.data > 0 && ex.syms > 0 && ex.trsize + ex.drsize < Gap(ex) < ex.data + ex.trsize + ex.drsize + ex.syms {
      assert InData(ex, b) && InSymbols(ex, b);
    }
  }

  lemma OneByteRounds()
    ensures RoundUp(1, LDPGSZ - 1) == LDPGSZ
  {
    PageSize();
    OnePageOn(1);
    MaskIsModulus(0, 12);
  }

  /** A demand-loaded file with one byte of text, a page of data and one symbol: the
      data takes up 8192 to 12288, and the symbol starts at 8193. */
  lemma RaggedTextOverlaps()
    ensures var ex := Exec(ZMAGIC, 1, 4096, 0, 12, 0, 0, 0);
            && NoOverflow(ex) && DatOff(ex) == 8192 && SymOff(ex) == 8193
            && InData(ex, 8193) && InSymbols(ex, 8193) && !Tiles(ex)
  {
    var ex := Exec(ZMAGIC, 1, 4096, 0, 12, 0, 0, 0);
    OneByteRounds();
    DatOffWithoutWrap(ex);
    OffsetsWithoutWrap(ex);
  }
}
