/** Bits of 32-bit words and counting them (src/utils.cpp). */
module PopCount {

  /** k as a word; a table, so that the solver needs no integer to bit-vector conversion. */
  function BitNumber(k: nat): (r: bv32)
    requires k < 32
    ensures r < 32
  {
    if k < 16 then
      if k < 8 then
        if k < 4 then if k < 2 then if k == 0 then 0 else 1 else if k == 2 then 2 else 3
        else if k < 6 then if k == 4 then 4 else 5 else if k == 6 then 6 else 7
      else
        if k < 12 then if k < 10 then if k == 8 then 8 else 9 else if k == 10 then 10 else 11
        else if k < 14 then if k == 12 then 12 else 13 else if k == 14 then 14 else 15
    else
      if k < 24 then
        if k < 20 then if k < 18 then if k == 16 then 16 else 17 else if k == 18 then 18 else 19
        else if k < 22 then if k == 20 then 20 else 21 else if k == 22 then 22 else 23
      else
        if k < 28 then if k < 26 then if k == 24 then 24 else 25 else if k == 26 then 26 else 27
        else if k < 30 then if k == 28 then 28 else 29 else if k == 30 then 30 else 31
  }

  /** 1u << k, as a table; see MaskIsShift. */
  function Mask(k: nat): bv32
    requires k < 32
  {
    if k < 16 then
      if k < 8 then
        if k < 4 then
          if k < 2 then if k < 1 then 0x1 else 0x2 else if k < 3 then 0x4 else 0x8
        else
          if k < 6 then if k < 5 then 0x10 else 0x20 else if k < 7 then 0x40 else 0x80
      else
        if k < 12 then
          if k < 10 then if k < 9 then 0x100 else 0x200 else if k < 11 then 0x400 else 0x800
        else
          if k < 14 then if k < 13 then 0x1000 else 0x2000 else if k < 15 then 0x4000 else 0x8000
    else
      if k < 24 then
        if k < 20 then
          if k < 18 then if k < 17 then 0x10000 else 0x20000 else if k < 19 then 0x40000 else 0x80000
        else
          if k < 22 then if k < 21 then 0x100000 else 0x200000 else if k < 23 then 0x400000 else 0x800000
      else
        if k < 28 then
          if k < 26 then if k < 25 then 0x1000000 else 0x2000000 else if k < 27 then 0x4000000 else 0x8000000
        else
          if k < 30 then if k < 29 then 0x10000000 else 0x20000000 else if k < 31 then 0x40000000 else 0x80000000
  }

  lemma MaskIsShift(k: nat)
    requires k < 32
    ensures Mask(k) == 1 << BitNumber(k)
  {
  }

  // The word operations have names: proofs about masks hide what they do, and only the lemmas
  // about plain words look inside.

  predicate Meets(x: bv32, y: bv32) {
    x & y != 0
  }

  predicate Within(x: bv32, y: bv32) {
    x & y == x
  }

  function Both(x: bv32, y: bv32): bv32 {
    x & y
  }

  /** chunk |= mask. */
  function With(w: bv32, m: bv32): bv32 {
    w | m
  }

  /** chunk &= ~0 - mask. */
  function Without(w: bv32, m: bv32): bv32 {
    w & (0xFFFFFFFF - m)
  }

  /** Bit k is set. */
  predicate TestBit(w: bv32, k: nat)
    requires k < 32
  {
    Meets(w, Mask(k))
  }

  /** The bits below bit k. */
  function Below(k: nat): bv32
    requires k < 32
  {
    Mask(k) - 1
  }

  lemma MaskAndBelow(k: nat)
    requires k < 32
    ensures Meets(Mask(k), Mask(k)) && !Meets(Mask(k), Below(k))
  {
  }

  lemma MaskWithin(k: nat)
    requires k < 31
    ensures Within(Mask(k), Below(k + 1))
  {
  }

  lemma BelowWithin(k: nat)
    requires k < 31
    ensures Within(Below(k), Below(k + 1))
  {
  }

  lemma WithinTransitive(x: bv32, y: bv32, z: bv32)
    requires Within(x, y) && Within(y, z)
    ensures Within(x, z)
  {
  }

  lemma {:induction false} MaskIsBelow(j: nat, k: nat)
    requires j < k < 32
    ensures Within(Mask(j), Below(k))
  {
    hide Mask, Below, Within;
    if j == k - 1 {
      MaskWithin(j);
    } else {
      MaskIsBelow(j, k - 1);
      BelowWithin(k - 1);
      WithinTransitive(Mask(j), Below(k - 1), Below(k));
    }
  }

  lemma ApartFrom(m: bv32, below: bv32, n: bv32)
    requires Within(m, below) && !Meets(n, below)
    ensures !Meets(m, n) && !Meets(n, m)
  {
  }

  lemma MasksApart(j: nat, k: nat)
    requires j < 32 && k < 32 && j != k
    ensures !Meets(Mask(j), Mask(k))
  {
    hide Mask, Below, Within, Meets;
    if j < k {
      MaskIsBelow(j, k);
      MaskAndBelow(k);
      ApartFrom(Mask(j), Below(k), Mask(k));
    } else {
      MaskIsBelow(k, j);
      MaskAndBelow(j);
      ApartFrom(Mask(k), Below(j), Mask(j));
    }
  }

  lemma SetApart(w: bv32, m: bv32, n: bv32)
    requires !Meets(m, n)
    ensures Meets(With(w, m), n) <==> Meets(w, n)
  {
  }

  lemma ClearApart(w: bv32, m: bv32, n: bv32)
    requires !Meets(m, n)
    ensures Meets(Without(w, m), n) <==> Meets(w, n)
  {
  }

  lemma SetSame(w: bv32, m: bv32)
    requires Meets(m, m)
    ensures Meets(With(w, m), m)
  {
  }

  lemma ClearSame(w: bv32, m: bv32)
    ensures !Meets(Without(w, m), m)
  {
  }

  /** Setting and clearing bit k leaves every other bit alone. */
  lemma SetAndClear(w: bv32, k: nat, j: nat)
    requires k < 32 && j < 32
    ensures TestBit(With(w, Mask(k)), j) <==> j == k || TestBit(w, j)
    ensures TestBit(Without(w, Mask(k)), j) <==> j != k && TestBit(w, j)
  {
    hide Mask, With, Without, Meets;
    if j == k {
      MaskAndBelow(k);
      SetSame(w, Mask(k));
      ClearSame(w, Mask(k));
    } else {
      MasksApart(k, j);
      SetApart(w, Mask(k), Mask(j));
      ClearApart(w, Mask(k), Mask(j));
    }
  }

  lemma BothBits(v: bv32, w: bv32, k: nat)
    requires k < 32
    ensures TestBit(Both(v, w), k) <==> TestBit(v, k) && TestBit(w, k)
  {
    hide BitNumber, Mask, Both, Bit;
    BitOfTest(v, k);
    BitOfTest(w, k);
    BitOfTest(Both(v, w), k);
    BitOfBoth(v, w, BitNumber(k));
  }

  lemma BitOfBoth(v: bv32, w: bv32, b: bv32)
    requires b < 32
    ensures Bit(Both(v, w), b) == Bit(v, b) & Bit(w, b)
    ensures (Bit(v, b) == 0 || Bit(v, b) == 1) && (Bit(w, b) == 0 || Bit(w, b) == 1)
  {
  }

  // ---- counting ------------------------------------------------------------------------

  /** Number of set bits among the n bits from bit lo on. */
  ghost function OnesFrom(w: bv32, lo: nat, n: nat): (ones: nat)
    requires lo + n <= 32
    ensures ones <= n
  {
    if n == 0 then 0 else OnesFrom(w, lo, n - 1) + if TestBit(w, lo + n - 1) then 1 else 0
  }

  /** Number of set bits. */
  ghost function Ones(w: bv32): nat {
    OnesFrom(w, 0, 32)
  }

  lemma {:induction false} OnesSplit(w: bv32, lo: nat, a: nat, b: nat)
    requires lo + a + b <= 32
    ensures OnesFrom(w, lo, a + b) == OnesFrom(w, lo, a) + OnesFrom(w, lo + a, b)
  {
    hide TestBit;
    if b > 0 { OnesSplit(w, lo, a, b - 1); }
  }

  lemma {:induction false} NoOnes(w: bv32, n: nat)
    requires n <= 32
    ensures OnesFrom(w, 0, n) == 0 <==> forall k :: 0 <= k < n ==> !TestBit(w, k)
  {
    hide TestBit;
    if n > 0 { NoOnes(w, n - 1); }
  }

  /** A word without a set bit is 0. */
  lemma NoBitIsZero(w: bv32)
    requires forall k :: 0 <= k < 32 ==> !TestBit(w, k)
    ensures w == 0
  {
    hide TestBit;
    NibbleClear(w, 0, 0); NibbleClear(w, 4, 4); NibbleClear(w, 8, 8); NibbleClear(w, 12, 12);
    NibbleClear(w, 16, 16); NibbleClear(w, 20, 20); NibbleClear(w, 24, 24); NibbleClear(w, 28, 28);
    AllNibblesClear(w);
  }

  lemma NibbleClear(w: bv32, k: nat, b: bv32)
    requires k <= 28 && b <= 28 && forall j :: 0 <= j < 32 ==> !TestBit(w, j)
    requires BitNumber(k) == b && BitNumber(k + 1) == b + 1 && BitNumber(k + 2) == b + 2 && BitNumber(k + 3) == b + 3
    ensures (w >> b) & 0xF == 0
  {
    hide BitNumber, TestBit, Bit;
    BitOfTest(w, k); BitOfTest(w, k + 1); BitOfTest(w, k + 2); BitOfTest(w, k + 3);
    Nibble(w, b);
  }

  lemma Nibble(w: bv32, b: bv32)
    requires b <= 28 && Bit(w, b) == Bit(w, b + 1) == Bit(w, b + 2) == Bit(w, b + 3) == 0
    ensures (w >> b) & 0xF == 0
  {
  }

  lemma AllNibblesClear(w: bv32)
    requires (w >> 0) & 0xF == 0 && (w >> 4) & 0xF == 0 && (w >> 8) & 0xF == 0 && (w >> 12) & 0xF == 0
    requires (w >> 16) & 0xF == 0 && (w >> 20) & 0xF == 0 && (w >> 24) & 0xF == 0 && (w >> 28) & 0xF == 0
    ensures w == 0
  {
  }

  lemma ZeroHasNoBit(k: nat)
    requires k < 32
    ensures !TestBit(0, k)
  {
    hide Mask;
  }

  function Bit(w: bv32, b: bv32): bv32
    requires b < 32
  {
    (w >> b) & 1
  }

  /** Sums are named, so that proofs about what words stand for can leave the adder out. */
  function Plus(x: bv32, y: bv32): bv32 {
    x + y
  }

  lemma SmallPlus(x: bv32, y: bv32)
    requires x <= 4 && y <= 4
    ensures Plus(x, y) as nat == x as nat + y as nat && Plus(x, y) <= 8
  {
  }

  function Plus4(x: bv32, y: bv32, z: bv32, u: bv32): bv32 {
    Plus(Plus(Plus(x, y), z), u)
  }

  lemma SmallPlus4(x: bv32, y: bv32, z: bv32, u: bv32)
    requires x <= 8 && y <= 8 && z <= 8 && u <= 8
    ensures Plus4(x, y, z, u) as nat == x as nat + y as nat + z as nat + u as nat
  {
    hide Plus;
    AddSmall(x, y, 8);
    AddSmall(Plus(x, y), z, 16);
    AddSmall(Plus(Plus(x, y), z), u, 24);
  }

  lemma AddSmall(x: bv32, y: bv32, most: bv32)
    requires x <= most <= 24 && y <= 8
    ensures Plus(x, y) as nat == x as nat + y as nat && Plus(x, y) <= most + 8
  {
  }

  function FourBits(w: bv32, b: bv32): bv32
    requires b <= 28
  {
    Plus4(Bit(w, b), Bit(w, b + 1), Bit(w, b + 2), Bit(w, b + 3))
  }

  function EightBits(w: bv32, b: bv32): bv32
    requires b <= 24
  {
    Plus(FourBits(w, b), FourBits(w, b + 4))
  }

  /** The first three steps leave in each byte the number of its set bits. */
  function Bytes(w: bv32): bv32 {
    var v := w - ((w >> 1) & 0x55555555);
    var x := (v & 0x33333333) + ((v >> 2) & 0x33333333);
    (x + (x >> 4)) & 0x0F0F0F0F
  }

  lemma ByteSum0(w: bv32)
    ensures Bytes(w) & 0xFF == EightBits(w, 0)
  {
  }

  lemma ByteSum1(w: bv32)
    ensures (Bytes(w) >> 8) & 0xFF == EightBits(w, 8)
  {
  }

  lemma ByteSum2(w: bv32)
    ensures (Bytes(w) >> 16) & 0xFF == EightBits(w, 16)
  {
  }

  lemma ByteSum3(w: bv32)
    ensures (Bytes(w) >> 24) & 0xFF == EightBits(w, 24)
  {
  }

  /** The multiplication adds the four bytes up in the top one. */
  lemma AddBytes(x: bv32)
    requires x & 0xF0F0F0F0 == 0
    ensures (x * 0x01010101) >> 24 == Plus4(x & 0xFF, (x >> 8) & 0xFF, (x >> 16) & 0xFF, (x >> 24) & 0xFF)
  {
  }

  lemma BitIsTest(w: bv32, b: bv32)
    requires b < 32
    ensures Bit(w, b) == if Meets(w, 1 << b) then 1 else 0
  {
  }

  lemma BitOfTest(w: bv32, k: nat)
    requires k < 32
    ensures Bit(w, BitNumber(k)) == if TestBit(w, k) then 1 else 0
  {
    hide BitNumber, Mask, Meets, Bit;
    MaskIsShift(k);
    BitIsTest(w, BitNumber(k));
  }

  lemma OneBitNumber(w: bv32, k: nat)
    requires k < 32
    ensures Bit(w, BitNumber(k)) <= 1 && Bit(w, BitNumber(k)) as nat == OnesFrom(w, k, 1)
  {
    hide BitNumber, TestBit, Bit;
    BitOfTest(w, k);
    assert OnesFrom(w, k, 0) == 0;
  }

  lemma FourBitsNumber(w: bv32, k: nat, b: bv32)
    requires k <= 28 && b <= 28
    requires BitNumber(k) == b && BitNumber(k + 1) == b + 1 && BitNumber(k + 2) == b + 2 && BitNumber(k + 3) == b + 3
    ensures FourBits(w, b) <= 4 && FourBits(w, b) as nat == OnesFrom(w, k, 4)
  {
    hide BitNumber, Bit, OnesFrom, Plus4;
    OneBitNumber(w, k); OneBitNumber(w, k + 1); OneBitNumber(w, k + 2); OneBitNumber(w, k + 3);
    OnesSplit(w, k, 1, 1); OnesSplit(w, k, 2, 1); OnesSplit(w, k, 3, 1);
    SmallPlus4(Bit(w, b), Bit(w, b + 1), Bit(w, b + 2), Bit(w, b + 3));
    AtMostFour(Bit(w, b), Bit(w, b + 1), Bit(w, b + 2), Bit(w, b + 3));
  }

  lemma AtMostFour(x: bv32, y: bv32, z: bv32, u: bv32)
    requires x <= 1 && y <= 1 && z <= 1 && u <= 1
    ensures Plus4(x, y, z, u) <= 4
  {
  }

  lemma EightBitsNumber(w: bv32, k: nat, b: bv32)
    requires k <= 24 && b <= 24
    requires BitNumber(k) == b && BitNumber(k + 1) == b + 1 && BitNumber(k + 2) == b + 2 && BitNumber(k + 3) == b + 3
    requires BitNumber(k + 4) == b + 4 && BitNumber(k + 5) == b + 4 + 1 && BitNumber(k + 6) == b + 4 + 2 && BitNumber(k + 7) == b + 4 + 3
    ensures EightBits(w, b) <= 8 && EightBits(w, b) as nat == OnesFrom(w, k, 8)
  {
    hide BitNumber, FourBits, OnesFrom, Plus;
    FourBitsNumber(w, k, b);
    FourBitsNumber(w, k + 4, b + 4);
    OnesSplit(w, k, 4, 4);
    SmallPlus(FourBits(w, b), FourBits(w, b + 4));
  }

  lemma BytesAreSmall(w: bv32)
    ensures Bytes(w) & 0xF0F0F0F0 == 0
  {
  }

  function PopulationCount(w: bv32): bv32 {
    (Bytes(w) * 0x01010101) >> 24
  }

  /** The word arithmetic counts the set bits. */
  lemma PopulationCountIsOnes(w: bv32)
    ensures PopulationCount(w) as nat == Ones(w)
  {
    hide PopulationCount, EightBits, OnesFrom, Plus4;
    PopulationCountParts(w);
    EightBitsNumber(w, 0, 0); EightBitsNumber(w, 8, 8); EightBitsNumber(w, 16, 16); EightBitsNumber(w, 24, 24);
    OnesSplit(w, 0, 8, 8); OnesSplit(w, 0, 16, 8); OnesSplit(w, 0, 24, 8);
    SmallPlus4(EightBits(w, 0), EightBits(w, 8), EightBits(w, 16), EightBits(w, 24));
  }

  lemma PopulationCountParts(w: bv32)
    ensures PopulationCount(w) == Plus4(EightBits(w, 0), EightBits(w, 8), EightBits(w, 16), EightBits(w, 24))
  {
    hide Bytes, EightBits, Plus4;
    ByteSum0(w); ByteSum1(w); ByteSum2(w); ByteSum3(w);
    BytesAreSmall(w);
    AddBytes(Bytes(w));
  }
}
