/** Bit strings (usr/src/include/bitstring.h): sets of naturals kept in the bits
    of a byte array, changed in place with byte masks. */
module BitString {
  import opened Bits
  import opened Bytes

  // ------------------------------------------------------- internal macros

  function BitByte(bit: nat): nat { Shr(bit, 3) }

  function BitMask(bit: nat): nat { Shl(1, And(bit, 7)) }

  /** bitstr_size; the shift of a negative number is arithmetic. */
  function BitstrSize(nbits: nat): int { (nbits - 1) / 8 + 1 }

  /** It is the least number of bytes that hold the bits. */
  lemma BitstrSizeIsLeast(nbits: nat)
    ensures BitstrSize(nbits) >= 0 && 8 * (BitstrSize(nbits) - 1) < nbits <= 8 * BitstrSize(nbits)
  {
  }

  /** Storing an int into an unsigned char. */
  function Trunc(x: int): Byte { x % 256 }

  lemma ByteAndMask(bit: nat)
    ensures BitByte(bit) == bit / 8 && And(bit, 7) == bit % 8
    ensures forall j: nat :: Bit(BitMask(bit), j) <==> j == bit % 8
  {
    assert Pow2(3) == 8;
    MaskIsModulus(bit, 3);
    ShrIsQuotient(bit, 3);
    forall j: nat
      ensures Bit(BitMask(bit), j) <==> j == bit % 8
    {
      ShlBit(1, bit % 8, j);
      if j >= bit % 8 { OnesBit(1, j - bit % 8); }
    }
  }

  lemma TruncBit(x: int, j: nat)
    requires j < 8
    ensures Bit(Trunc(x), j) <==> Bit(x, j)
  {
    assert Pow2(8) == 256;
    MaskIsModulus(x, 8);
    AndBit(x, 255, j);
    OnesBit(8, j);
  }

  lemma FullByteBit(j: nat)
    ensures Bit(255, j) <==> j < 8
  {
    assert Pow2(8) == 256;
    OnesBit(8, j);
  }

  // --------------------------------------------------------- the abstraction

  /** bit_test: bit `k` of the string is set. */
  predicate Has(s: seq<Byte>, k: nat) { k / 8 < |s| && Bit(s[k / 8], k % 8) }

  /** The set of naturals that a byte array stands for. */
  ghost function Members(s: seq<Byte>): set<nat> {
    set k: nat | k < 8 * |s| && Has(s, k)
  }

  lemma {:induction false} AndAtMost(x: nat, m: nat)
    ensures And(x, m) <= x
    decreases m
  {
    if m == 0 {
    } else {
      AndAtMost(x / 2, m / 2);
    }
  }

  lemma BitTest(s: seq<Byte>, bit: nat)
    requires bit / 8 < |s|
    ensures BitByte(bit) < |s|
    ensures And(s[BitByte(bit)], BitMask(bit)) != 0 <==> bit in Members(s)
  {
    ByteAndMask(bit);
    var x := And(s[bit / 8], BitMask(bit));
    AndBit(s[bit / 8], BitMask(bit), bit % 8);
    if x != 0 && !Bit(x, bit % 8) {
      forall j: nat | j < 8
        ensures Bit(x, j) == Bit(0, j)
      {
        AndBit(s[bit / 8], BitMask(bit), j);
        NoBits(j);
      }
      AndAtMost(s[bit / 8], BitMask(bit));
      assert Pow2(8) == 256;
      BitsDetermine(x, 0, 8);
    }
    NoBits(bit % 8);
  }

  /** Equal sets in arrays of equal length are equal arrays. */
  lemma MembersDetermine(s: seq<Byte>, t: seq<Byte>)
    requires |s| == |t| && Members(s) == Members(t)
    ensures s == t
  {
    forall i | 0 <= i < |s|
      ensures s[i] == t[i]
    {
      forall j: nat | j < 8
        ensures Bit(s[i], j) == Bit(t[i], j)
      {
        var k := 8 * i + j;
        assert k / 8 == i && k % 8 == j;
        assert k in Members(s) <==> k in Members(t);
      }
      assert Pow2(8) == 256;
      BitsDetermine(s[i], t[i], 8);
    }
  }

  // ------------------------------------------------------------ single bits

  method BitSet(name: array<Byte>, bit: nat)
    requires bit / 8 < name.Length
    modifies name
    ensures Members(name[..]) == old(Members(name[..])) + {bit}
  {
    ByteAndMask(bit);
    ghost var s := name[..];
    name[BitByte(bit)] := Trunc(Or(name[BitByte(bit)], BitMask(bit)));
    forall k: nat | k < 8 * |s|
      ensures Has(name[..], k) <==> Has(s, k) || k == bit
    {
      if k / 8 == bit / 8 {
        TruncBit(Or(s[k / 8], BitMask(bit)), k % 8);
        OrBit(s[k / 8], BitMask(bit), k % 8);
      }
    }
  }

  method BitClear(name: array<Byte>, bit: nat)
    requires bit / 8 < name.Length
    modifies name
    ensures Members(name[..]) == old(Members(name[..])) - {bit}
  {
    ByteAndMask(bit);
    ghost var s := name[..];
    name[BitByte(bit)] := Trunc(AndNot(name[BitByte(bit)], BitMask(bit)));
    forall k: nat | k < 8 * |s|
      ensures Has(name[..], k) <==> Has(s, k) && k != bit
    {
      if k / 8 == bit / 8 {
        TruncBit(AndNot(s[k / 8], BitMask(bit)), k % 8);
        AndNotBit(s[k / 8], BitMask(bit), k % 8);
      }
    }
  }

  // ----------------------------------------------------------------- ranges

  /** The bits that the masks of bit_nset and bit_nclear select, whatever the
      order of the two ends. */
  predicate Touched(start: nat, stop: nat, k: nat) {
    if start / 8 == stop / 8 then start <= k <= stop
    else
      (k / 8 == start / 8 && start <= k) || start / 8 < k / 8 < stop / 8 || (k / 8 == stop / 8 && k <= stop)
  }

  ghost function TouchedSet(start: nat, stop: nat, size: nat): set<nat> {
    set k: nat | k < 8 * size && Touched(start, stop, k)
  }

  predicate InRange(start: nat, stop: nat, k: nat) { start <= k <= stop }

  ghost function Range(start: nat, stop: nat): set<nat> {
    set k: nat | k <= stop && InRange(start, stop, k)
  }

  /** The range forms are right exactly when the last byte is not before the
      first: with a start beyond a stop in an earlier byte they touch bits that
      are in no range. */
  lemma TouchedIsRange(start: nat, stop: nat)
    ensures (forall k: nat :: Touched(start, stop, k) <==> start <= k <= stop) <==> start / 8 <= stop / 8
  {
    if start / 8 > stop / 8 {
      assert Touched(start, stop, start);
    }
  }

  lemma RangeInStart(j: nat, s: nat)
    requires j < 8 && s < 8
    ensures Bit(Shr(255, 8 - s), j) <==> j < s
    ensures Bit(Shl(255, s), j) <==> j >= s
  {
    ShrBit(255, 8 - s, j);
    FullByteBit(j + 8 - s);
    ShlBit(255, s, j);
    if j >= s { FullByteBit(j - s); }
  }

  lemma RangeInStop(j: nat, t: nat)
    requires j < 8 && t < 8
    ensures Bit(Shl(255, t + 1), j) <==> j > t
    ensures Bit(Shr(255, 7 - t), j) <==> j <= t
  {
    ShlBit(255, t + 1, j);
    if j >= t + 1 { FullByteBit(j - t - 1); }
    ShrBit(255, 7 - t, j);
    FullByteBit(j + 7 - t);
  }

  /** One byte of a range: `s` and `t` are the first and the last bit to change. */
  lemma SetMasks(b: Byte, s: nat, t: nat, j: nat)
    requires s < 8 && t < 8 && j < 8
    ensures Bit(Trunc(Or(b, And(Shl(255, s), Shr(255, 7 - t)))), j) <==> Bit(b, j) || s <= j <= t
    ensures Bit(Trunc(Or(b, Shl(255, s))), j) <==> Bit(b, j) || s <= j
    ensures Bit(Trunc(Or(b, Shr(255, 7 - t))), j) <==> Bit(b, j) || j <= t
  {
    RangeInStart(j, s);
    RangeInStop(j, t);
    AndBit(Shl(255, s), Shr(255, 7 - t), j);
    TruncBit(Or(b, And(Shl(255, s), Shr(255, 7 - t))), j);
    OrBit(b, And(Shl(255, s), Shr(255, 7 - t)), j);
    TruncBit(Or(b, Shl(255, s)), j);
    OrBit(b, Shl(255, s), j);
    TruncBit(Or(b, Shr(255, 7 - t)), j);
    OrBit(b, Shr(255, 7 - t), j);
  }

  lemma ClearMasks(b: Byte, s: nat, t: nat, j: nat)
    requires s < 8 && t < 8 && j < 8
    ensures Bit(Trunc(And(b, Or(Shr(255, 8 - s), Shl(255, t + 1)))), j) <==> Bit(b, j) && !(s <= j <= t)
    ensures Bit(Trunc(And(b, Shr(255, 8 - s))), j) <==> Bit(b, j) && j < s
    ensures Bit(Trunc(And(b, Shl(255, t + 1))), j) <==> Bit(b, j) && j > t
  {
    RangeInStart(j, s);
    RangeInStop(j, t);
    OrBit(Shr(255, 8 - s), Shl(255, t + 1), j);
    TruncBit(And(b, Or(Shr(255, 8 - s), Shl(255, t + 1))), j);
    AndBit(b, Or(Shr(255, 8 - s), Shl(255, t + 1)), j);
    TruncBit(And(b, Shr(255, 8 - s)), j);
    AndBit(b, Shr(255, 8 - s), j);
    TruncBit(And(b, Shl(255, t + 1)), j);
    AndBit(b, Shl(255, t + 1), j);
  }

  function SetRangeByte(b: Byte, start: nat, stop: nat, i: nat): Byte {
    var s, t := start % 8, stop % 8;
    if start / 8 == stop / 8 then
      if i == start / 8 then Trunc(Or(b, And(Shl(255, s), Shr(255, 7 - t)))) else b
    else if i == start / 8 then Trunc(Or(b, Shl(255, s)))
    else if i == stop / 8 then Trunc(Or(b, Shr(255, 7 - t)))
    else if start / 8 < i < stop / 8 then 255
    else b
  }

  lemma SetRangeBytesMembers(before: seq<Byte>, after: seq<Byte>, start: nat, stop: nat)
    requires |after| == |before|
    requires forall i :: 0 <= i < |before| ==> after[i] == SetRangeByte(before[i], start, stop, i)
    ensures Members(after) == Members(before) + TouchedSet(start, stop, |before|)
  {
    forall k: nat | k < 8 * |before|
      ensures Has(after, k) <==> Has(before, k) || Touched(start, stop, k)
    {
      SetMasks(before[k / 8], start % 8, stop % 8, k % 8);
      FullByteBit(k % 8);
    }
  }

  function ClearRangeByte(b: Byte, start: nat, stop: nat, i: nat): Byte {
    var s, t := start % 8, stop % 8;
    if start / 8 == stop / 8 then
      if i == start / 8 then Trunc(And(b, Or(Shr(255, 8 - s), Shl(255, t + 1)))) else b
    else if i == start / 8 then Trunc(And(b, Shr(255, 8 - s)))
    else if i == stop / 8 then Trunc(And(b, Shl(255, t + 1)))
    else if start / 8 < i < stop / 8 then 0
    else b
  }

  lemma ClearRangeBytesMembers(before: seq<Byte>, after: seq<Byte>, start: nat, stop: nat)
    requires |after| == |before|
    requires forall i :: 0 <= i < |before| ==> after[i] == ClearRangeByte(before[i], start, stop, i)
    ensures Members(after) == Members(before) - TouchedSet(start, stop, |before|)
  {
    forall k: nat | k < 8 * |before|
      ensures Has(after, k) <==> Has(before, k) && !Touched(start, stop, k)
    {
      ClearMasks(before[k / 8], start % 8, stop % 8, k % 8);
      NoBits(k % 8);
    }
  }

  /** The inner loop of both range forms: it counts up before it tests. */
  method FillBetween(name: array<Byte>, startByte: nat, stopByte: nat, value: Byte)
    requires startByte < name.Length && stopByte < name.Length
    modifies name
    ensures forall i :: 0 <= i < name.Length ==>
                          name[i] == if startByte < i < stopByte then value else old(name[i])
  {
    var byte := startByte + 1;
    while byte < stopByte
      invariant startByte < byte
      invariant forall i :: 0 <= i < name.Length ==>
                              name[i] == if startByte < i < byte && i < stopByte then value else old(name[i])
      decreases stopByte - byte
    {
      name[byte] := value;
      byte := byte + 1;
    }
  }

  method BitNSet(name: array<Byte>, start: nat, stop: nat)
    requires start / 8 < name.Length && stop / 8 < name.Length
    modifies name
    ensures Members(name[..]) == old(Members(name[..])) + TouchedSet(start, stop, name.Length)
  {
    ByteAndMask(start);
    ByteAndMask(stop);
    var startByte, stopByte := BitByte(start), BitByte(stop);
    var s, t := And(start, 7), And(stop, 7);
    if startByte == stopByte {
      var mask := And(Shl(255, s), Shr(255, 7 - t));
      name[startByte] := Trunc(Or(name[startByte], mask));
    } else {
      var head, tail := Shl(255, s), Shr(255, 7 - t);
      name[startByte] := Trunc(Or(name[startByte], head));
      FillBetween(name, startByte, stopByte, 255);
      name[stopByte] := Trunc(Or(name[stopByte], tail));
    }
    SetRangeBytesMembers(old(name[..]), name[..], start, stop);
  }

  method BitNClear(name: array<Byte>, start: nat, stop: nat)
    requires start / 8 < name.Length && stop / 8 < name.Length
    modifies name
    ensures Members(name[..]) == old(Members(name[..])) - TouchedSet(start, stop, name.Length)
  {
    ByteAndMask(start);
    ByteAndMask(stop);
    var startByte, stopByte := BitByte(start), BitByte(stop);
    var s, t := And(start, 7), And(stop, 7);
    if startByte == stopByte {
      var mask := Or(Shr(255, 8 - s), Shl(255, t + 1));
      name[startByte] := Trunc(And(name[startByte], mask));
    } else {
      var head, tail := Shr(255, 8 - s), Shl(255, t + 1);
      name[startByte] := Trunc(And(name[startByte], head));
      FillBetween(name, startByte, stopByte, 0);
      name[stopByte] := Trunc(And(name[stopByte], tail));
    }
    ClearRangeBytesMembers(old(name[..]), name[..], start, stop);
  }

  lemma TouchedSetIsRange(start: nat, stop: nat, size: nat)
    requires start / 8 <= stop / 8 < size
    ensures TouchedSet(start, stop, size) == Range(start, stop)
  {
    TouchedIsRange(start, stop);
    assert forall k: nat :: InRange(start, stop, k) <==> start <= k <= stop;
  }

  /** What the range forms select: the range or, when it ends in a byte before the
      one it starts in, the rest of the first byte and the beginning of the last. */
  ghost function Selected(start: nat, stop: nat): set<nat> {
    if start / 8 <= stop / 8 then Range(start, stop)
    else Range(start, 8 * (start / 8) + 7) + Range(8 * (stop / 8), stop)
  }

  lemma TouchedSetIsSelected(start: nat, stop: nat, size: nat)
    requires start / 8 < size && stop / 8 < size
    ensures TouchedSet(start, stop, size) == Selected(start, stop)
  {
    if start / 8 <= stop / 8 {
      TouchedSetIsRange(start, stop, size);
    } else {
      forall k: nat
        ensures k in TouchedSet(start, stop, size) <==> k in Selected(start, stop)
      {
        assert InRange(start, 8 * (start / 8) + 7, k) <==> k / 8 == start / 8 && start <= k;
        assert InRange(8 * (stop / 8), stop, k) <==> k / 8 == stop / 8 && k <= stop;
      }
    }
  }

  /** A reversed range in two bytes of zeros: no bit is from 8 to 0, and yet all that
      bit_nset can leave is a first byte of 1 and a second of 255. */
  lemma ReversedRange(after: seq<Byte>)
    requires |after| == 2 && Members(after) == Members([0, 0]) + TouchedSet(8, 0, 2)
    ensures Range(8, 0) == {} && after == [1, 255]
  {
    assert forall k: nat :: !InRange(8, 0, k);
    forall k: nat | k < 16
      ensures Has([1, 255], k) <==> Has([0, 0], k) || Touched(8, 0, k)
    {
      NoBits(k % 8);
      FullByteBit(k % 8);
      OnesBit(1, k % 8);
    }
    MembersDetermine(after, [1, 255]);
  }

  /** The range forms do byte by byte what a loop of bit_set, or of bit_clear,
      does bit by bit: the resulting arrays are equal. */
  method RangeIsLoop(a: array<Byte>, b: array<Byte>, start: nat, stop: nat, setting: bool)
    requires a != b && a[..] == b[..]
    requires start / 8 <= stop / 8 < a.Length
    modifies a, b
    ensures a[..] == b[..]
    ensures Members(a[..]) == if setting then old(Members(a[..])) + Range(start, stop)
                              else old(Members(a[..])) - Range(start, stop)
  {
    if setting { BitNSet(a, start, stop); } else { BitNClear(a, start, stop); }
    TouchedSetIsRange(start, stop, a.Length);
    var k := start;
    ghost var done: set<nat>, result := {}, a[..];
    while k <= stop
      invariant a[..] == result
      invariant start <= k && (k <= stop + 1 || k == start)
      invariant forall i: nat :: i in done <==> start <= i < k
      invariant Members(b[..]) == if setting then old(Members(b[..])) + done else old(Members(b[..])) - done
    {
      if setting { BitSet(b, k); } else { BitClear(b, k); }
      done := done + {k};
      k := k + 1;
    }
    assert done == Range(start, stop) by {
      assert forall i: nat :: i in done <==> InRange(start, stop, i);
    }
    MembersDetermine(a[..], b[..]);
  }

  // ------------------------------------------------------------------- runs

  datatype Op = Set(bit: nat) | Clear(bit: nat) | NSet(start: nat, stop: nat) | NClear(start: nat, stop: nat)

  predicate OpOk(op: Op, size: nat) {
    match op
    case Set(bit) => bit / 8 < size
    case Clear(bit) => bit / 8 < size
    case NSet(start, stop) => start / 8 < size && stop / 8 < size
    case NClear(start, stop) => start / 8 < size && stop / 8 < size
  }

  ghost function Apply(members: set<nat>, op: Op): set<nat> {
    match op
    case Set(bit) => members + {bit}
    case Clear(bit) => members - {bit}
    case NSet(start, stop) => members + Selected(start, stop)
    case NClear(start, stop) => members - Selected(start, stop)
  }

  ghost function ApplyAll(members: set<nat>, ops: seq<Op>): set<nat>
    decreases |ops|
  {
    if ops == [] then members else ApplyAll(Apply(members, ops[0]), ops[1..])
  }

  /** Through every run inside the array it stands for the set that plain set
      operations would give. */
  method Run(name: array<Byte>, ops: seq<Op>)
    requires forall i :: 0 <= i < |ops| ==> OpOk(ops[i], name.Length)
    modifies name
    ensures Members(name[..]) == ApplyAll(old(Members(name[..])), ops)
  {
    ghost var start := Members(name[..]);
    for n := 0 to |ops|
      invariant ApplyAll(Members(name[..]), ops[n..]) == ApplyAll(start, ops)
    {
      assert ops[n..][0] == ops[n] && ops[n..][1..] == ops[n + 1..];
      match ops[n]
      case Set(bit) => BitSet(name, bit);
      case Clear(bit) => BitClear(name, bit);
      case NSet(first, last) =>
        TouchedSetIsSelected(first, last, name.Length);
        BitNSet(name, first, last);
      case NClear(first, last) =>
        TouchedSetIsSelected(first, last, name.Length);
        BitNClear(name, first, last);
    }
    assert ops[|ops|..] == [];
  }

  // --------------------------------------------------------------- searches

  /** The least `k < limit` whose membership is `want`, or -1. */
  ghost function First(s: seq<Byte>, limit: nat, want: bool): (r: int)
    ensures r == -1 || 0 <= r < limit
    ensures r >= 0 ==> Has(s, r) == want
    ensures forall k: nat :: k < limit && (r == -1 || k < r) ==> Has(s, k) != want
  {
    if limit == 0 then -1
    else
      var r := First(s, limit - 1, want);
      if r == -1 && Has(s, limit - 1) == want then limit - 1 else r
  }

  lemma FirstIs(s: seq<Byte>, limit: nat, want: bool, r: int)
    requires r == -1 || (0 <= r < limit && Has(s, r) == want)
    requires forall k: nat :: k < limit && (r == -1 || k < r) ==> Has(s, k) != want
    ensures r == First(s, limit, want)
  {
    var q := First(s, limit, want);
    assert q == -1 || Has(s, q) == want;
  }

  /** No byte of the array holds a match, and the scan goes on behind it. */
  ghost predicate Overruns(s: seq<Byte>, nbits: nat, want: bool) {
    |s| <= nbits / 8 && forall k: nat :: k < 8 * |s| ==> Has(s, k) != want
  }

  lemma LowBit(b: Byte, i: nat)
    ensures And(Shr(b, i), 1) == if Bit(b, i) then 1 else 0
  {
    assert Pow2(1) == 2;
    MaskIsModulus(Shr(b, i), 1);
    ShrBit(b, i, 0);
  }

  lemma {:induction false} ShrTwice(x: nat, i: nat)
    ensures Shr(x, i) / 2 == Shr(x, i + 1)
    decreases i
  {
    if i == 0 {
    } else {
      ShrTwice(x / 2, i - 1);
    }
  }

  lemma Halve(b: Byte, i: nat)
    requires i < 8
    ensures Shr(Shr(b, i), 1) == Shr(b, i + 1)
    ensures i == 7 ==> Shr(b, i) <= 1
    ensures Shr(b, i) == 0 || Shr(Shr(b, i), 1) < Shr(b, i)
  {
    ShrTwice(b, i);
    if i == 7 {
      assert Pow2(7) == 128;
      ShrIsQuotient(b, 7);
    }
  }

  lemma AllOnes(b: Byte)
    requires forall j: nat :: j < 8 ==> Bit(b, j)
    ensures b == 255
  {
    forall j: nat | j < 8
      ensures Bit(b, j) == Bit(255, j)
    {
      FullByteBit(j);
    }
    assert Pow2(8) == 256;
    BitsDetermine(b, 255, 8);
  }

  /** bit_ffs. The scan ends with the byte that holds bit `nbits`; `overrun` says
      that it would have read behind the array. */
  method BitFfs(name: array<Byte>, nbits: nat) returns (value: int, ghost overrun: bool)
    ensures overrun <==> Overruns(name[..], nbits, true)
    ensures !Overruns(name[..], nbits, true) ==> value == First(name[..], 8 * (nbits / 8 + 1), true)
  {
    ByteAndMask(nbits);
    value, overrun := -1, false;
    var stopByte := BitByte(nbits);
    var byte := 0;
    while byte <= stopByte
      invariant 0 <= byte <= stopByte + 1 && byte <= name.Length && value == -1 && !overrun
      invariant forall k: nat :: k < 8 * byte ==> !Has(name[..], k)
      decreases stopByte - byte
    {
      if byte == name.Length {
        overrun := true;
        return;
      }
      if name[byte] != 0 {
        value := 8 * byte;
        var rest: nat := name[byte];
        var i := 0;
        while And(rest, 1) == 0
          invariant rest == Shr(name[byte], i) && rest != 0 && i < 8
          invariant value == 8 * byte + i
          invariant forall j: nat :: j < i ==> !Bit(name[byte], j)
          decreases rest
        {
          LowBit(name[byte], i);
          Halve(name[byte], i);
          value := value + 1;
          rest := Shr(rest, 1);
          i := i + 1;
        }
        LowBit(name[byte], i);
        assert value / 8 == byte && value % 8 == i;
        assert Has(name[..], value) == true;
        FirstIs(name[..], 8 * (nbits / 8 + 1), true, value);
        return;
      }
      forall k: nat | k < 8 * (byte + 1)
        ensures !Has(name[..], k)
      {
        if k >= 8 * byte { NoBits(k % 8); }
      }
      byte := byte + 1;
    }
    FirstIs(name[..], 8 * (nbits / 8 + 1), true, -1);
  }

  /** bit_ffc, likewise. */
  method BitFfc(name: array<Byte>, nbits: nat) returns (value: int, ghost overrun: bool)
    ensures overrun <==> Overruns(name[..], nbits, false)
    ensures !Overruns(name[..], nbits, false) ==> value == First(name[..], 8 * (nbits / 8 + 1), false)
  {
    ByteAndMask(nbits);
    value, overrun := -1, false;
    var stopByte := BitByte(nbits);
    var byte := 0;
    while byte <= stopByte
      invariant 0 <= byte <= stopByte + 1 && byte <= name.Length && value == -1 && !overrun
      invariant forall k: nat :: k < 8 * byte ==> Has(name[..], k)
      decreases stopByte - byte
    {
      if byte == name.Length {
        overrun := true;
        return;
      }
      if name[byte] != 255 {
        value := 8 * byte;
        var rest: nat := name[byte];
        var i := 0;
        while And(rest, 1) == 1
          invariant rest == Shr(name[byte], i) && i < 8
          invariant value == 8 * byte + i
          invariant forall j: nat :: j < i ==> Bit(name[byte], j)
          decreases rest
        {
          LowBit(name[byte], i);
          Halve(name[byte], i);
          if i == 7 { AllOnes(name[byte]); }
          value := value + 1;
          rest := Shr(rest, 1);
          i := i + 1;
        }
        LowBit(name[byte], i);
        assert value / 8 == byte && value % 8 == i;
        assert Has(name[..], value) == false;
        FirstIs(name[..], 8 * (nbits / 8 + 1), false, value);
        return;
      }
      forall k: nat | k < 8 * (byte + 1)
        ensures Has(name[..], k)
      {
        if k >= 8 * byte { FullByteBit(k % 8); }
      }
      byte := byte + 1;
    }
    FirstIs(name[..], 8 * (nbits / 8 + 1), false, -1);
  }

  // -------------------------------------------- what the searches promise

  /** Bytes without a match. */
  function Barren(n: nat, want: bool): (s: seq<Byte>)
    ensures |s| == n
  {
    seq(n, _ => if want then 0 else 255)
  }

  lemma BarrenHasNoMatch(n: nat, want: bool, k: nat)
    requires k < 8 * n
    ensures Has(Barren(n, want), k) != want
  {
    NoBits(k % 8);
    FullByteBit(k % 8);
  }

  /** Some array of bitstr_size(nbits) bytes makes the searches read behind its end
      exactly when nbits is a multiple of 8. */
  lemma SizedArrayMayOverrun(nbits: nat, want: bool)
    ensures (exists s :: |s| == BitstrSize(nbits) && Overruns(s, nbits, want)) <==> nbits % 8 == 0
  {
    if nbits % 8 == 0 {
      var s := Barren(BitstrSize(nbits), want);
      forall k: nat | k < 8 * |s|
        ensures Has(s, k) != want
      {
        BarrenHasNoMatch(|s|, want, k);
      }
      assert |s| == BitstrSize(nbits) && Overruns(s, nbits, want);
    }
  }

  /** One byte of zeros, sized for 8 bits: the search for a set bit reads the byte
      behind it. With bit 0 set it does not. */
  lemma OverrunAtEightBits()
    ensures BitstrSize(8) == 1
    ensures Overruns([0], 8, true) && Overruns([255], 8, false)
    ensures !Overruns([1], 8, true)
  {
    forall k: nat | k < 8
      ensures !Has([0], k) && Has([255], k)
    {
      NoBits(k);
      FullByteBit(k);
    }
    assert Has([1], 0);
  }

  /** From bit `nbits` on, `t` is `s`. */
  ghost predicate SameFrom(s: seq<Byte>, t: seq<Byte>, nbits: nat) {
    |t| == |s| && forall k: nat :: nbits <= k < 8 * |s| ==> Has(t, k) == Has(s, k)
  }

  /** The answer is about the first `nbits` bits. */
  ghost predicate AnswersBelow(s: seq<Byte>, nbits: nat, want: bool) {
    First(s, 8 * (nbits / 8 + 1), want) == First(s, nbits, want)
  }

  /** `s` with every match among the first `nbits` bits removed. */
  lemma WithoutMatches(s: seq<Byte>, nbits: nat, want: bool) returns (t: seq<Byte>)
    requires nbits / 8 < |s|
    ensures SameFrom(s, t, nbits)
    ensures forall k: nat :: k < nbits ==> Has(t, k) != want
  {
    if nbits == 0 {
      t := s;
    } else {
      TouchedSetIsRange(0, nbits - 1, |s|);
      var below := Range(0, nbits - 1);
      assert forall k: nat :: k in below <==> InRange(0, nbits - 1, k);
      if want {
        t := seq(|s|, i requires 0 <= i < |s| => ClearRangeByte(s[i], 0, nbits - 1, i));
        ClearRangeBytesMembers(s, t, 0, nbits - 1);
      } else {
        t := seq(|s|, i requires 0 <= i < |s| => SetRangeByte(s[i], 0, nbits - 1, i));
        SetRangeBytesMembers(s, t, 0, nbits - 1);
      }
      assert forall k: nat :: k < 8 * |s| ==> (k in Members(t) <==> Has(t, k)) && (k in Members(s) <==> Has(s, k));
    }
  }

  lemma AnswersWhenRestIsClean(s: seq<Byte>, nbits: nat, want: bool)
    requires forall k: nat :: nbits <= k < 8 * (nbits / 8 + 1) ==> Has(s, k) != want
    ensures AnswersBelow(s, nbits, want)
  {
    FirstIs(s, 8 * (nbits / 8 + 1), want, First(s, nbits, want));
  }

  /** The searches scan the whole byte that holds bit `nbits`. They answer about
      the first `nbits` bits, whatever these are, exactly when the rest of that
      byte holds no matching bit. */
  lemma AnswersExactlyWhen(s: seq<Byte>, nbits: nat, want: bool)
    requires nbits / 8 < |s|
    ensures (forall t :: SameFrom(s, t, nbits) ==> AnswersBelow(t, nbits, want)) <==>
            (forall k: nat :: nbits <= k < 8 * (nbits / 8 + 1) ==> Has(s, k) != want)
  {
    if forall k: nat :: nbits <= k < 8 * (nbits / 8 + 1) ==> Has(s, k) != want {
      forall t | SameFrom(s, t, nbits)
        ensures AnswersBelow(t, nbits, want)
      {
        AnswersWhenRestIsClean(t, nbits, want);
      }
    } else {
      var k: nat :| nbits <= k < 8 * (nbits / 8 + 1) && Has(s, k) == want;
      var t := WithoutMatches(s, nbits, want);
      FirstIs(t, nbits, want, -1);
      assert Has(t, k) == want;
      assert !AnswersBelow(t, nbits, want);
    }
  }

  /** A string of one bit, which is clear, in a byte whose last bit is set: the
      search for a set bit answers 7. */
  lemma AnswerBeyondNbits()
    ensures First([128], 8, true) == 7 && First([128], 1, true) == -1
    ensures !AnswersBelow([128], 1, true)
  {
    forall k: nat | k < 8
      ensures Has([128], k) <==> k == 7
    {
      assert Pow2(7) == 128 == Shl(1, 7);
      ShlBit(1, 7, k);
      if k >= 7 { OnesBit(1, k - 7); }
    }
    FirstIs([128], 8, true, 7);
    FirstIs([128], 1, true, -1);
  }

  function Complement(s: seq<Byte>): seq<Byte> {
    seq(|s|, i requires 0 <= i < |s| => 255 - s[i])
  }

  lemma {:induction false} ComplementBit(b: nat, w: nat, j: nat)
    requires j < w && b < Pow2(w)
    ensures Bit(Pow2(w) - 1 - b, j) <==> !Bit(b, j)
    decreases w
  {
    var p := Pow2(w - 1);
    assert (2 * p - 1 - b) / 2 == p - 1 - b / 2;
    if j == 0 {
    } else {
      ComplementBit(b / 2, w - 1, j - 1);
    }
  }

  lemma ComplementHas(s: seq<Byte>, k: nat)
    requires k < 8 * |s|
    ensures Has(Complement(s), k) <==> !Has(s, k)
  {
    assert Pow2(8) == 256;
    ComplementBit(s[k / 8], 8, k % 8);
  }

  /** bit_ffc is bit_ffs on the complemented string, overruns included. */
  lemma FfcIsFfsOfComplement(s: seq<Byte>, nbits: nat)
    ensures Overruns(s, nbits, false) <==> Overruns(Complement(s), nbits, true)
    ensures !Overruns(s, nbits, false) ==>
              First(s, 8 * (nbits / 8 + 1), false) == First(Complement(s), 8 * (nbits / 8 + 1), true)
  {
    var limit, t := 8 * (nbits / 8 + 1), Complement(s);
    forall k: nat | k < 8 * |s|
      ensures Has(t, k) <==> !Has(s, k)
    {
      ComplementHas(s, k);
    }
    if !Overruns(s, nbits, false) {
      var r := First(s, limit, false);
      assert r < 8 * |s|;
      FirstIs(t, limit, true, r);
    }
  }
}
