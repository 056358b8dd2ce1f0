/**
  Bit numbering and population count inside one 32-bit bitmap word.

  The mask `0x1 << off` is a repeated doubling over an integer offset, so that bit positions are
  ordinary integers and never have to be converted to bit vectors; the proofs go through a barrel
  shifter that computes the same masks.
 */
module Words {

  /** `0x1 << i`. */
  function Mask(i: nat): bv32
  {
    if i == 0 then 1 else Mask(i - 1) << 1
  }

  // A barrel shifter computes the same masks, in a form that can be checked case by case.
  function Barrel(i: nat): bv32
    requires i < 32
  {
    if i < 16 then Mask16(i) else Mask16(i - 16) << 16
  }

  function Mask16(i: nat): bv32
    requires i < 16
  {
    if i < 8 then Mask8(i) else Mask8(i - 8) << 8
  }

  function Mask8(i: nat): bv32
    requires i < 8
  {
    if i < 4 then Mask4(i) else Mask4(i - 4) << 4
  }

  function Mask4(i: nat): bv32
    requires i < 4
  {
    if i == 0 then 1 else if i == 1 then 2 else if i == 2 then 4 else 8
  }

  // The word operators under names of their own: the lemmas below reason about bits
  // without looking inside them.
  function Meet(w: bv32, m: bv32): bv32 { w & m }

  function Join(w: bv32, m: bv32): bv32 { w | m }

  function Minus(w: bv32, m: bv32): bv32 { w & !m }

  predicate NonZero(w: bv32) { w != 0 }

  predicate Apart(a: bv32, b: bv32) { a & b == 0 }

  /** Is bit `i` of `w` set? */
  predicate Bit(w: bv32, i: nat)
    requires i < 32
  {
    NonZero(Meet(w, Mask(i)))
  }

  function Unit(w: bv32, i: nat): nat
    requires i < 32
  {
    if Bit(w, i) then 1 else 0
  }

  /** Number of set bits among the `n` lowest bits of `w`. */
  function Ones(w: bv32, n: nat): nat
    requires n <= 32
  {
    if n == 0 then 0 else Ones(w, n - 1) + Unit(w, n - 1)
  }

  // ----- setting and clearing one bit

  predicate OneHot(m: bv32) { m != 0 && m & (m - 1) == 0 }

  lemma BarrelStep(i: nat)
    requires 0 < i < 32
    ensures Barrel(i) == Barrel(i - 1) << 1
  {}

  lemma {:induction false} MaskIsBarrel(i: nat)
    requires i < 32
    ensures Mask(i) == Barrel(i)
  {
    if i != 0 {
      MaskIsBarrel(i - 1);
      BarrelStep(i);
    }
  }

  lemma MaskTable()
    ensures forall i: nat | i < 32 :: Mask(i) == Barrel(i)
  {
    forall i: nat | i < 32 ensures Mask(i) == Barrel(i) { MaskIsBarrel(i); }
  }

  lemma BarrelOneHot(i: nat)
    requires i < 32
    ensures OneHot(Barrel(i))
  {}

  lemma BarrelMonotone(i: nat, j: nat)
    requires i < j < 32
    ensures Barrel(i) < Barrel(j)
  {}

  lemma {:induction false} MaskOneHot(i: nat)
    requires i < 32
    ensures OneHot(Mask(i))
  {
    MaskIsBarrel(i);
    BarrelOneHot(i);
  }

  lemma {:induction false} MaskMonotone(i: nat, j: nat)
    requires i < j < 32
    ensures Mask(i) < Mask(j)
  {
    MaskIsBarrel(i);
    MaskIsBarrel(j);
    BarrelMonotone(i, j);
  }

  lemma OneHotApart(a: bv32, b: bv32)
    requires OneHot(a) && OneHot(b) && a != b
    ensures Apart(a, b)
  {}

  lemma ApartJoin(w: bv32, a: bv32, b: bv32)
    requires Apart(a, b)
    ensures Meet(Join(w, a), b) == Meet(w, b)
  {
    calc {
      Meet(Join(w, a), b);
      (w | a) & b;
      (w & b) | (a & b);
      (w & b) | 0;
      w & b;
      Meet(w, b);
    }
  }

  lemma ApartMinus(w: bv32, a: bv32, b: bv32)
    requires Apart(a, b)
    ensures Meet(Minus(w, a), b) == Meet(w, b)
  {
    calc {
      Meet(Minus(w, a), b);
      (w & !a) & b;
      (w & b) & !(a & b);
      (w & b) & !0;
      w & b;
      Meet(w, b);
    }
  }

  lemma SameMask(w: bv32, a: bv32)
    requires a != 0
    ensures NonZero(Meet(Join(w, a), a)) && !NonZero(Meet(Minus(w, a), a))
  {}

  lemma {:induction false} MasksApart(i: nat, j: nat)
    requires i < 32 && j < 32 && i != j
    ensures Apart(Mask(i), Mask(j))
  {
    MaskOneHot(i);
    MaskOneHot(j);
    if i < j { MaskMonotone(i, j); } else { MaskMonotone(j, i); }
    OneHotApart(Mask(i), Mask(j));
  }

  lemma {:induction false} WriteSame(w: bv32, i: nat)
    requires i < 32
    ensures Bit(Join(w, Mask(i)), i) && !Bit(Minus(w, Mask(i)), i)
  {
    MaskOneHot(i);
    SameMask(w, Mask(i));
  }

  lemma {:induction false} SameBit(x: bv32, y: bv32, j: nat)
    requires j < 32 && Meet(x, Mask(j)) == Meet(y, Mask(j))
    ensures Bit(x, j) == Bit(y, j)
  {}

  lemma {:induction false} JoinOther(w: bv32, m: bv32, j: nat)
    requires j < 32 && Apart(m, Mask(j))
    ensures Bit(Join(w, m), j) == Bit(w, j)
  {
    assert Meet(Join(w, m), Mask(j)) == Meet(w, Mask(j)) by { ApartJoin(w, m, Mask(j)); }
    SameBit(Join(w, m), w, j);
  }

  lemma {:induction false} MinusOther(w: bv32, m: bv32, j: nat)
    requires j < 32 && Apart(m, Mask(j))
    ensures Bit(Minus(w, m), j) == Bit(w, j)
  {
    assert Meet(Minus(w, m), Mask(j)) == Meet(w, Mask(j)) by { ApartMinus(w, m, Mask(j)); }
    SameBit(Minus(w, m), w, j);
  }

  /** Writing bit `i` of a word changes that bit and no other. */
  lemma {:induction false} WriteBit(w: bv32, i: nat, j: nat)
    requires i < 32 && j < 32
    ensures Bit(Join(w, Mask(i)), j) <==> i == j || Bit(w, j)
    ensures Bit(Minus(w, Mask(i)), j) <==> i != j && Bit(w, j)
  {
    if i == j {
      WriteSame(w, i);
    } else {
      MasksApart(i, j);
      JoinOther(w, Mask(i), j);
      MinusOther(w, Mask(i), j);
    }
  }

  /** A word whose 32 bits are all set is 0xffffffff, and conversely. */
  lemma FullWord(w: bv32)
    ensures w == 0xffffffff <==> forall i: nat | i < 32 :: Bit(w, i)
  {
    if w == 0xffffffff {
      forall i: nat | i < 32 ensures Bit(w, i) { MaskOneHot(i); AllOnes(Mask(i)); }
    } else if forall i: nat | i < 32 :: Bit(w, i) {
      AllBits(w);
    }
  }

  lemma AllOnes(m: bv32)
    ensures Meet(0xffffffff, m) == m
  {}

  lemma AllBits(w: bv32)
    requires forall i: nat | i < 32 :: Bit(w, i)
    ensures w == 0xffffffff
  {
    MaskTable();
    assert Bit(w, 0) && Bit(w, 1) && Bit(w, 2) && Bit(w, 3) && Bit(w, 4) && Bit(w, 5) && Bit(w, 6) && Bit(w, 7);
    assert w & 0xFF == 0xFF;
    assert Bit(w, 8) && Bit(w, 9) && Bit(w, 10) && Bit(w, 11) && Bit(w, 12) && Bit(w, 13) && Bit(w, 14) && Bit(w, 15);
    assert w & 0xFF00 == 0xFF00;
    assert Bit(w, 16) && Bit(w, 17) && Bit(w, 18) && Bit(w, 19) && Bit(w, 20) && Bit(w, 21) && Bit(w, 22) && Bit(w, 23);
    assert w & 0xFF0000 == 0xFF0000;
    assert Bit(w, 24) && Bit(w, 25) && Bit(w, 26) && Bit(w, 27) && Bit(w, 28) && Bit(w, 29) && Bit(w, 30) && Bit(w, 31);
    assert w & 0xFF000000 == 0xFF000000;
  }

  // ----- the bit-trick population count

  function Pairs(w: bv32): bv32 { w - ((w >> 1) & 0x55555555) }

  function Nibbles(c: bv32): bv32 { (c & 0x33333333) + ((c >> 2) & 0x33333333) }

  function Bytes(c: bv32): bv32 { (c + (c >> 4)) & 0x0F0F0F0F }

  function Fold(f: bv32): bv32 { (f * 0x01010101) >> 24 }

  /** The expression bitmap_nset() adds to its counter for each word. */
  function PopCount(w: bv32): bv32 { Fold(Bytes(Nibbles(Pairs(w)))) }

  // The same three stages with every field added explicitly.
  function PairSums(w: bv32): bv32 { (w & 0x55555555) + ((w >> 1) & 0x55555555) }

  function ByteSums(c: bv32): bv32 { (c & 0x0F0F0F0F) + ((c >> 4) & 0x0F0F0F0F) }

  function Fields(w: bv32): bv32 { ByteSums(Nibbles(PairSums(w))) }

  lemma PairsAdd(w: bv32)
    ensures Pairs(w) == PairSums(w)
  {}

  lemma BytesAdd(c: bv32)
    ensures Bytes(Nibbles(c)) == ByteSums(Nibbles(c))
  {}

  lemma PopCountFields(w: bv32)
    ensures PopCount(w) == Fold(Fields(w))
    ensures Fields(w) & 0xF0F0F0F0 == 0
  {
    PairsAdd(w);
    BytesAdd(PairSums(w));
  }

  function Low1(w: bv32): nat { if w & 1 == 1 then 1 else 0 }

  function Low8(w: bv32): nat {
    Low1(w) + Low1(w >> 1) + Low1(w >> 2) + Low1(w >> 3) + Low1(w >> 4) + Low1(w >> 5) + Low1(w >> 6) + Low1(w >> 7)
  }

  // Each byte of `Fields(w)` holds the number of set bits of the same byte of `w`.
  lemma Field0(w: bv32)
    ensures (Fields(w) & 0xFF) as int == Low8(w)
  {}

  lemma Field8(w: bv32)
    ensures ((Fields(w) >> 8) & 0xFF) as int == Low8(w >> 8)
  {}

  lemma Field16(w: bv32)
    ensures ((Fields(w) >> 16) & 0xFF) as int == Low8(w >> 16)
  {}

  lemma Field24(w: bv32)
    ensures (Fields(w) >> 24) as int == Low8(w >> 24)
  {}

  function Unit8(w: bv32, n: nat): nat
    requires n <= 24
  {
    Unit(w, n) + Unit(w, n + 1) + Unit(w, n + 2) + Unit(w, n + 3) +
    Unit(w, n + 4) + Unit(w, n + 5) + Unit(w, n + 6) + Unit(w, n + 7)
  }

  lemma Low8At0(w: bv32)
    ensures Low8(w) == Unit8(w, 0)
  {
    MaskTable();
  }

  lemma Low8At8(w: bv32)
    ensures Low8(w >> 8) == Unit8(w, 8)
  {
    MaskTable();
  }

  lemma Low8At16(w: bv32)
    ensures Low8(w >> 16) == Unit8(w, 16)
  {
    MaskTable();
  }

  lemma Low8At24(w: bv32)
    ensures Low8(w >> 24) == Unit8(w, 24)
  {
    MaskTable();
  }

  lemma OnesSplit(w: bv32, n: nat)
    requires n <= 24
    ensures Ones(w, n + 8) == Ones(w, n) + Unit8(w, n)
  {
    assert Ones(w, n + 2) == Ones(w, n) + Unit(w, n) + Unit(w, n + 1);
    assert Ones(w, n + 4) == Ones(w, n + 2) + Unit(w, n + 2) + Unit(w, n + 3);
    assert Ones(w, n + 6) == Ones(w, n + 4) + Unit(w, n + 4) + Unit(w, n + 5);
  }

  // The multiplication adds the four bytes without a carry between them.
  lemma Multiply(f: bv32)
    ensures f * 0x01010101 == (f + (f << 8)) + ((f + (f << 8)) << 16)
  {}

  lemma ShiftedSum(f: bv32)
    requires f & 0xF0F0F0F0 == 0
    ensures ((f + (f << 8)) + ((f + (f << 8)) << 16)) >> 24
         == ((f & 0xFF) + ((f >> 8) & 0xFF)) + (((f >> 16) & 0xFF) + (f >> 24))
  {}

  lemma FoldAdds(f: bv32)
    requires f & 0xF0F0F0F0 == 0
    ensures Fold(f) == ((f & 0xFF) + ((f >> 8) & 0xFF)) + (((f >> 16) & 0xFF) + (f >> 24))
  {
    Multiply(f);
    ShiftedSum(f);
  }

  lemma SumSmall(a: bv32, b: bv32)
    requires a < 32 && b < 32
    ensures (a + b) as int == a as int + b as int
  {}

  lemma SumPairs(x: bv32, y: bv32, a: bv32, b: bv32, c: bv32, d: bv32)
    requires a < 16 && b < 16 && c < 16 && d < 16
    requires x == a + b && y == c + d
    ensures x as int == a as int + b as int && y as int == c as int + d as int
    ensures x < 32 && y < 32
  {
    SumSmall(a, b);
    SumSmall(c, d);
  }

  lemma SumFour(x: bv32, y: bv32, a: bv32, b: bv32, c: bv32, d: bv32)
    requires a < 16 && b < 16 && c < 16 && d < 16
    requires x == a + b && y == c + d
    ensures (x + y) as int == a as int + b as int + c as int + d as int
  {
    SumPairs(x, y, a, b, c, d);
    SumSmall(x, y);
  }

  lemma FoldValue(f: bv32)
    requires f & 0xF0F0F0F0 == 0
    ensures Fold(f) as int == (f & 0xFF) as int + ((f >> 8) & 0xFF) as int + ((f >> 16) & 0xFF) as int + (f >> 24) as int
  {
    FoldAdds(f);
    SumFour((f & 0xFF) + ((f >> 8) & 0xFF), ((f >> 16) & 0xFF) + (f >> 24),
            f & 0xFF, (f >> 8) & 0xFF, (f >> 16) & 0xFF, f >> 24);
  }

  lemma {:induction false} FieldsSum(w: bv32)
    ensures (Fields(w) & 0xFF) as int + ((Fields(w) >> 8) & 0xFF) as int
          + ((Fields(w) >> 16) & 0xFF) as int + (Fields(w) >> 24) as int == Ones(w, 32)
  {
    Field0(w); Field8(w); Field16(w); Field24(w);
    OnesBytes(w);
  }

  lemma OnesBytes(w: bv32)
    ensures Ones(w, 32) == Low8(w) + Low8(w >> 8) + Low8(w >> 16) + Low8(w >> 24)
  {
    Low8At0(w); Low8At8(w); Low8At16(w); Low8At24(w);
    OnesSplit(w, 0); OnesSplit(w, 8); OnesSplit(w, 16); OnesSplit(w, 24);
  }

  /** The bit trick counts exactly the set bits of every word. */
  lemma {:induction false} PopCountIsOnes(w: bv32)
    ensures PopCount(w) as int == Ones(w, 32)
  {
    PopCountFields(w);
    FoldValue(Fields(w));
    FieldsSum(w);
  }

  /** What bitmap_nset() adds to its counter for one word. */
  method WordCount(w: bv32) returns (c: nat)
    ensures c == Ones(w, 32)
  {
    PopCountIsOnes(w);
    c := PopCount(w) as nat;
  }
}

/**
  Bitmaps: `bitmap_set`, `bitmap_clear`, `bitmap_check_bit`, `bitmap_nset`, `bitmap_nclear`
  and `bitmap_first_free`. The C code works on an array of words; `Bits` is what the array
  means, one boolean per bit, and everything above this module speaks of that meaning only.
 */
module Bitmaps {
  import opened Words

  type Bitmap = seq<bool>

  /** BITMAP_FULL. */
  const FULL := 0xffff_ffff

  /** Number of set bits among the first `n` bits. */
  function Count(b: Bitmap, n: nat): (c: nat)
    requires n <= |b|
    ensures c <= n
  {
    if n == 0 then 0 else Count(b, n - 1) + if b[n - 1] then 1 else 0
  }

  function NSet(b: Bitmap): nat { Count(b, |b|) }

  ghost predicate FullBelow(b: Bitmap, n: nat)
    requires n <= |b|
  {
    forall i: nat | i < n :: b[i]
  }

  /** `i` is the least clear bit. */
  ghost predicate FirstFree(b: Bitmap, i: nat)
  {
    i < |b| && !b[i] && FullBelow(b, i)
  }

  /** Index of the least clear bit, or the length of the map when it is full. */
  function LeastClear(b: Bitmap): (i: nat)
    ensures i <= |b| && FullBelow(b, i)
    ensures i < |b| ==> !b[i]
  {
    LeastClearFrom(b, 0)
  }

  function LeastClearFrom(b: Bitmap, k: nat): (i: nat)
    requires k <= |b| && FullBelow(b, k)
    ensures k <= i <= |b| && FullBelow(b, i)
    ensures i < |b| ==> !b[i]
    decreases |b| - k
  {
    if k == |b| || !b[k] then k else LeastClearFrom(b, k + 1)
  }

  lemma LeastClearIs(b: Bitmap, i: nat)
    requires FirstFree(b, i)
    ensures LeastClear(b) == i
  {
    var k := LeastClear(b);
  }

  lemma {:induction false} CountUpdate(b: Bitmap, i: nat, v: bool, n: nat)
    requires i < |b| && n <= |b|
    ensures Count(b[i := v], n) == Count(b, n) + if i < n && v && !b[i] then 1 else if i < n && !v && b[i] then -1 else 0
  {
    if n != 0 { CountUpdate(b, i, v, n - 1); }
  }

  /** Allocating a clear bit adds one to the count, freeing a set one takes one away. */
  lemma NSetUpdate(b: Bitmap, i: nat, v: bool)
    requires i < |b|
    ensures NSet(b[i := v]) == NSet(b) + if v && !b[i] then 1 else if !v && b[i] then -1 else 0
  {
    CountUpdate(b, i, v, |b|);
  }

  lemma {:induction false} CountMonotone(b: Bitmap, n: nat, n': nat)
    requires n <= n' <= |b|
    ensures Count(b, n) <= Count(b, n') <= Count(b, n) + (n' - n)
  {
    if n < n' { CountMonotone(b, n, n' - 1); }
  }

  lemma {:induction false} CountFull(b: Bitmap, n: nat)
    requires n <= |b|
    ensures Count(b, n) == n <==> FullBelow(b, n)
  {
    if n != 0 { CountFull(b, n - 1); }
  }

  /** The first free bit is never beyond the number of set bits. */
  lemma FirstFreeBound(b: Bitmap, i: nat)
    requires FirstFree(b, i)
    ensures i <= NSet(b) < |b|
  {
    CountFull(b, i);
    CountMonotone(b, i, |b|);
    CountFull(b, |b|);
  }

  /** A map has a clear bit exactly when fewer bits are set than it holds. */
  lemma RoomIffCount(b: Bitmap)
    ensures NSet(b) < |b| <==> LeastClear(b) < |b|
  {
    CountFull(b, |b|);
    if LeastClear(b) < |b| { FirstFreeBound(b, LeastClear(b)); }
  }

  // ----- words and bits

  function Bits(w: seq<bv32>): (b: Bitmap)
    ensures |b| == 32 * |w|
  {
    seq(32 * |w|, i requires 0 <= i < 32 * |w| => Bit(w[i / 32], i % 32))
  }

  lemma {:induction false} SetWord(w: seq<bv32>, i: nat)
    requires i < 32 * |w|
    ensures Bits(w[i / 32 := Join(w[i / 32], Mask(i % 32))]) == Bits(w)[i := true]
    ensures Bits(w[i / 32 := Minus(w[i / 32], Mask(i % 32))]) == Bits(w)[i := false]
  {
    var k := i / 32;
    var s, c := Bits(w[k := Join(w[k], Mask(i % 32))]), Bits(w[k := Minus(w[k], Mask(i % 32))]);
    forall j: nat | j < 32 * |w|
      ensures s[j] == Bits(w)[i := true][j] && c[j] == Bits(w)[i := false][j]
    {
      if j / 32 == k { WriteBit(w[k], i % 32, j % 32); }
    }
  }

  lemma {:induction false} CountWord(w: seq<bv32>, k: nat, n: nat)
    requires k < |w| && n <= 32
    ensures Count(Bits(w), 32 * k + n) == Count(Bits(w), 32 * k) + Ones(w[k], n)
  {
    if n != 0 {
      CountWord(w, k, n - 1);
      NextBit(w, k, n - 1);
    }
  }

  lemma NextBit(w: seq<bv32>, k: nat, n: nat)
    requires k < |w| && n < 32
    ensures Bits(w)[32 * k + n] == Bit(w[k], n)
  {
    assert (32 * k + n) / 32 == k && (32 * k + n) % 32 == n;
  }

  lemma FullUpTo(w: seq<bv32>, k: nat, n: nat)
    requires k < |w| && n <= 32 && FullBelow(Bits(w), 32 * k)
    requires forall i: nat | i < n :: Bit(w[k], i)
    ensures FullBelow(Bits(w), 32 * k + n)
  {
    forall i: nat | 32 * k <= i < 32 * k + n ensures Bits(w)[i] {
      NextBit(w, k, i - 32 * k);
    }
  }

  /** Number of clear bits. */
  function NClear(b: Bitmap): nat { if b == [] then 0 else NClear(b[..|b| - 1]) + if b[|b| - 1] then 0 else 1 }

  lemma {:induction false} CountPrefix(b: Bitmap, m: nat, n: nat)
    requires n <= m <= |b|
    ensures Count(b[..m], n) == Count(b, n)
  {
    if n > 0 { CountPrefix(b, m, n - 1); }
  }

  /** Every bit is set or clear. */
  lemma {:induction false} SetAndClear(b: Bitmap)
    ensures NSet(b) + NClear(b) == |b|
    decreases |b|
  {
    if b != [] {
      SetAndClear(b[..|b| - 1]);
      CountPrefix(b, |b| - 1, |b| - 1);
    }
  }

  /** A value as a 32-bit word holds it. */
  function Low32(x: nat): nat { if x < 0x1_0000_0000 then x else x % 0x1_0000_0000 }

  lemma LowSum(x: nat, y: nat)
    ensures Low32(Low32(x) + y) == Low32(x + y)
  {}

  /** bitmap_nset(): `size` is in bytes and only whole words are inspected; the counter has 32 bits. */
  method CountSetBits(a: array<bv32>, size: nat) returns (count: nat)
    requires size / 4 <= a.Length
    ensures count == Low32(NSet(Bits(a[..size / 4])))
  {
    count := 0;
    var end := size / 4;
    ghost var w, total := a[..end], 0;
    for idx := 0 to end
      invariant total == Count(Bits(w), 32 * idx) && count == Low32(total)
    {
      var chunk := WordCount(a[idx]);
      CountWord(w, idx, 32);
      LowSum(total, chunk);
      total := total + chunk;
      count := Low32(count + chunk);
    }
  }

  /** bitmap_nclear(): the number of clear bits, and eight more for every byte that does not fill a
      word; modulo 2^32. */
  method CountClearBits(a: array<bv32>, size: nat) returns (count: nat)
    requires size / 4 <= a.Length
    ensures count == (NClear(Bits(a[..size / 4])) + 8 * (size % 4)) % 0x1_0000_0000
  {
    var n := CountSetBits(a, size);
    SetAndClear(Bits(a[..size / 4]));
    LowDifference(8 * size, NSet(Bits(a[..size / 4])));
    count := (8 * size - n) % 0x1_0000_0000;
  }

  lemma LowDifference(x: nat, y: nat)
    requires y <= x
    ensures (x - Low32(y)) % 0x1_0000_0000 == (x - y) % 0x1_0000_0000
  {}

  /** The first clear bit within the first `size` bytes, as the 32-bit result holds it, or FULL. */
  function FirstFreeResult(b: Bitmap, size: nat): nat
  {
    var i := LeastClear(b);
    if i < |b| && i < 32 * (size / 4) then Low32(i) else FULL
  }

  /** bitmap_first_free(): the array must hold `size` bytes unless a clear bit stops the search. */
  method FindFirstFree(a: array<bv32>, size: nat) returns (bit: nat)
    requires size / 4 <= a.Length || !FullBelow(Bits(a[..]), 32 * a.Length)
    ensures bit == FirstFreeResult(Bits(a[..]), size)
  {
    var idx := 0;
    var max := size / 4;
    ghost var w := a[..];
    while idx < max
      invariant 0 <= idx <= max && idx <= a.Length
      invariant FullBelow(Bits(w), 32 * idx)
    {
      assert idx < a.Length;
      FullWord(w[idx]);
      if a[idx] != 0xffffffff {
        var off := 0;
        while Bit(a[idx], off)
          invariant off < 32
          invariant forall i: nat | i < off :: Bit(a[idx], i)
          decreases 32 - off
        {
          off := off + 1;
        }
        FullUpTo(w, idx, off);
        NextBit(w, idx, off);
        LeastClearIs(Bits(w), 32 * idx + off);
        return Low32(32 * idx + off);
      }
      FullUpTo(w, idx, 32);
      idx := idx + 1;
    }
    FullSearch(Bits(w), 32 * max);
    return FULL;
  }

  lemma FullSearch(b: Bitmap, n: nat)
    requires n <= |b| && FullBelow(b, n)
    ensures LeastClear(b) >= n
  {
    var i := LeastClear(b);
  }

  /** For maps of less than 512 MiB the result is the least clear bit itself; it is FULL exactly when
      every bit inspected is set. */
  lemma FirstFreeExact(b: Bitmap, size: nat)
    requires size < 0x2000_0000 && (32 * (size / 4) <= |b| || LeastClear(b) < |b|)
    ensures var r := FirstFreeResult(b, size);
      && (r != FULL ==> FirstFree(b, r) && r < 32 * (size / 4))
      && (r == FULL <==> 32 * (size / 4) <= |b| && FullBelow(b, 32 * (size / 4)))
  {}

  /** bitmap_set(). */
  method Set(a: array<bv32>, pos: nat)
    requires pos < 32 * a.Length
    modifies a
    ensures Bits(a[..]) == old(Bits(a[..]))[pos := true]
  {
    SetWord(a[..], pos);
    ghost var w := a[..];
    a[pos / 32] := Join(a[pos / 32], Mask(pos % 32));
    assert a[..] == w[pos / 32 := Join(w[pos / 32], Mask(pos % 32))];
  }

  /** bitmap_clear(). */
  method Clear(a: array<bv32>, pos: nat)
    requires pos < 32 * a.Length
    modifies a
    ensures Bits(a[..]) == old(Bits(a[..]))[pos := false]
  {
    SetWord(a[..], pos);
    ghost var w := a[..];
    a[pos / 32] := Minus(a[pos / 32], Mask(pos % 32));
    assert a[..] == w[pos / 32 := Minus(w[pos / 32], Mask(pos % 32))];
  }

  /** bitmap_check_bit(): non-zero exactly when the bit is set. */
  method CheckBit(a: array<bv32>, idx: nat) returns (r: bool)
    requires idx < 32 * a.Length
    ensures r == Bits(a[..])[idx]
  {
    r := Bit(a[idx / 32], idx % 32);
  }
}
