/** The bits of the words that the DES of the program works on: where its exchanges, rotations and masks put them. */
module DesBits {
  import opened Des
  import opened DesStandard

  // ----- words and blocks

  /** The bit of a word that a mask selects. */
  function On(x: word, m: word): Bit {
    if x & m != 0 then One else Zero
  }

  // the four bytes of a word, the most significant bit first

  function Octet0(x: word): (o: bits)
    ensures |o| == 8
  {
    [On(x, 0x80000000), On(x, 0x40000000), On(x, 0x20000000), On(x, 0x10000000),
     On(x, 0x8000000), On(x, 0x4000000), On(x, 0x2000000), On(x, 0x1000000)]
  }

  function Octet1(x: word): (o: bits)
    ensures |o| == 8
  {
    [On(x, 0x800000), On(x, 0x400000), On(x, 0x200000), On(x, 0x100000),
     On(x, 0x80000), On(x, 0x40000), On(x, 0x20000), On(x, 0x10000)]
  }

  function Octet2(x: word): (o: bits)
    ensures |o| == 8
  {
    [On(x, 0x8000), On(x, 0x4000), On(x, 0x2000), On(x, 0x1000), On(x, 0x800), On(x, 0x400), On(x, 0x200), On(x, 0x100)]
  }

  function Octet3(x: word): (o: bits)
    ensures |o| == 8
  {
    [On(x, 0x80), On(x, 0x40), On(x, 0x20), On(x, 0x10), On(x, 8), On(x, 4), On(x, 2), On(x, 1)]
  }

  /** Byte j of a word, the most significant first. */
  function WordOctet(x: word, j: nat): (o: bits)
    requires j < 4
    ensures |o| == 8
  {
    if j == 0 then Octet0(x) else if j == 1 then Octet1(x) else if j == 2 then Octet2(x) else Octet3(x)
  }

  /** The 32 bits of a word. */
  function Bits(x: word): Half {
    seq(32, i requires 0 <= i < 32 => WordOctet(x, i / 8)[i % 8])
  }

  function BlockOctet(h: Halves, j: nat): (o: bits)
    requires j < 8
    ensures |o| == 8
  {
    if j < 4 then WordOctet(h.left, j) else WordOctet(h.right, j - 4)
  }

  /** The 64 bits of a block. */
  function BlockBits(h: Halves): (s: bits)
    ensures |s| == 64
  {
    Bits(h.left) + Bits(h.right)
  }

  lemma BlockBitAt(h: Halves, j: nat, k: nat)
    requires j < 8 && k < 8
    ensures BlockBits(h)[8 * j + k] == BlockOctet(h, j)[k]
  {
    hide WordOctet;
  }

  /** The six bits of a box's index. */
  function SixBits(x: word): Six {
    [On(x, 0x20), On(x, 0x10), On(x, 8), On(x, 4), On(x, 2), On(x, 1)]
  }

  // ----- adding words

  lemma OnXor(x: word, y: word, m: Mask)
    ensures On(x ^ y, m) == Sum(On(x, m), On(y, m))
  {}

  lemma AllOnXor(x: word, y: word)
    ensures forall m: Mask :: On(x ^ y, m) == Sum(On(x, m), On(y, m))
  {
    hide On, Sum;
    forall m: Mask
      ensures On(x ^ y, m) == Sum(On(x, m), On(y, m))
    {
      OnXor(x, y, m);
    }
  }

  lemma SixXor(x: word, y: word)
    ensures SixBits(x ^ y) == Xor(SixBits(x), SixBits(y))
  {
    hide On, Sum;
    AllOnXor(x, y);
  }

  lemma Octet0Xor(x: word, y: word)
    ensures Octet0(x ^ y) == Xor(Octet0(x), Octet0(y))
  {
    hide On, Sum;
    AllOnXor(x, y);
  }

  lemma Octet1Xor(x: word, y: word)
    ensures Octet1(x ^ y) == Xor(Octet1(x), Octet1(y))
  {
    hide On, Sum;
    AllOnXor(x, y);
  }

  lemma Octet2Xor(x: word, y: word)
    ensures Octet2(x ^ y) == Xor(Octet2(x), Octet2(y))
  {
    hide On, Sum;
    AllOnXor(x, y);
  }

  lemma Octet3Xor(x: word, y: word)
    ensures Octet3(x ^ y) == Xor(Octet3(x), Octet3(y))
  {
    hide On, Sum;
    AllOnXor(x, y);
  }

  lemma BitsXor(x: word, y: word)
    ensures Bits(x ^ y) == Xor(Bits(x), Bits(y))
  {
    hide Octet0, Octet1, Octet2, Octet3, Sum;
    Octet0Xor(x, y);
    Octet1Xor(x, y);
    Octet2Xor(x, y);
    Octet3Xor(x, y);
  }

  lemma BitsPlus(x: word, y: word)
    ensures Bits(Plus(x, y)) == Xor(Bits(x), Bits(y))
  {
    hide Bits, Xor;
    BitsXor(x, y);
  }

  lemma RorXor(x: word, y: word)
    ensures Ror1(x ^ y) == Ror1(x) ^ Ror1(y)
  {}

  lemma RorPlus(x: word, y: word)
    ensures Ror1(Plus(x, y)) == Plus(Ror1(x), Ror1(y))
  {
    hide Ror1;
    RorXor(x, y);
  }

  lemma RotatedPlus(x: word, y: word)
    ensures Bits(Ror1(Plus(x, y))) == Xor(Bits(Ror1(x)), Bits(Ror1(y)))
  {
    hide Bits, Ror1, Plus, Xor;
    RorPlus(x, y);
    BitsPlus(Ror1(x), Ror1(y));
  }

  lemma FourPlus(a: word, b: word, c: word, d: word)
    ensures Bits(Ror1(Plus(Plus(Plus(a, b), c), d)))
         == Xor(Xor(Xor(Bits(Ror1(a)), Bits(Ror1(b))), Bits(Ror1(c))), Bits(Ror1(d)))
  {
    hide Bits, Ror1, Plus, Xor;
    RotatedPlus(Plus(Plus(a, b), c), d);
    RotatedPlus(Plus(a, b), c);
    RotatedPlus(a, b);
  }

  // ----- the initial permutation

  /** The words of the halves before the rotation they are kept in. */
  function Unrotated(h: Halves): Halves {
    Halves(Ror1(h.left), Ror1(h.right))
  }

  function High4(a: word, b: word): word {
    (a & 0x0f0f0f0f) | ((b & 0x0f0f0f0f) << 4)
  }

  function Low4(a: word, b: word): word {
    (b & 0xf0f0f0f0) | ((a >> 4) & 0x0f0f0f0f)
  }

  function High16(a: word, b: word): word {
    (a & 0x0000ffff) | ((b & 0x0000ffff) << 16)
  }

  function Low16(a: word, b: word): word {
    (b & 0xffff0000) | ((a >> 16) & 0x0000ffff)
  }

  function High2(a: word, b: word): word {
    (a & 0x33333333) | ((b & 0x33333333) << 2)
  }

  function Low2(a: word, b: word): word {
    (b & 0xcccccccc) | ((a >> 2) & 0x33333333)
  }

  function High8(a: word, b: word): word {
    (a & 0x00ff00ff) | ((b & 0x00ff00ff) << 8)
  }

  function Low8(a: word, b: word): word {
    (b & 0xff00ff00) | ((a >> 8) & 0x00ff00ff)
  }

  function Odd(a: word, b: word): word {
    (a & 0x55555555) | (b & 0xaaaaaaaa)
  }

  /** Exchanging bits by adding their difference to both is moving them. */
  lemma Exchange4Moves(a: word, b: word)
    ensures Exchange(a, b, 4, 0x0f0f0f0f) == (High4(a, b), Low4(a, b))
  {}

  lemma Exchange16Moves(a: word, b: word)
    ensures Exchange(a, b, 16, 0x0000ffff) == (High16(a, b), Low16(a, b))
  {}

  lemma Exchange2Moves(a: word, b: word)
    ensures Exchange(a, b, 2, 0x33333333) == (High2(a, b), Low2(a, b))
  {}

  lemma Exchange8Moves(a: word, b: word)
    ensures Exchange(a, b, 8, 0x00ff00ff) == (High8(a, b), Low8(a, b))
  {}

  lemma SwapMoves(a: word, b: word)
    ensures SwapOdd(a, b) == (Odd(a, b), Odd(b, a))
  {}

  /** The initial permutation with bits moved; the halves are not kept rotated. */
  function Moved(b: Halves): Halves {
    var l1, r1 := High4(b.left, b.right), Low4(b.left, b.right);
    var l2, r2 := High16(l1, r1), Low16(l1, r1);
    var r3, l3 := High2(r2, l2), Low2(r2, l2);
    var r4, l4 := High8(r3, l3), Low8(r3, l3);
    Halves(Odd(l4, Rol1(r4)), Ror1(Odd(Rol1(r4), l4)))
  }

  /** The initial permutation as the program has it leaves both halves rotated by one. */
  lemma InitialIsMoved(b: Halves)
    ensures Unrotated(InitialPermutation(b)) == Moved(b)
  {
    hide Exchange, SwapOdd, High4, Low4, High16, Low16, High2, Low2, High8, Low8, Odd, Ror1, Rol1;
    var (l1, r1) := Exchange(b.left, b.right, 4, 0x0f0f0f0f);
    var (l2, r2) := Exchange(l1, r1, 16, 0x0000ffff);
    var (r3, l3) := Exchange(r2, l2, 2, 0x33333333);
    var (r4, l4) := Exchange(r3, l3, 8, 0x00ff00ff);
    Exchange4Moves(b.left, b.right);
    Exchange16Moves(l1, r1);
    Exchange2Moves(r2, l2);
    Exchange8Moves(r3, l3);
    SwapMoves(l4, Rol1(r4));
    RotateBack(Odd(l4, Rol1(r4)));
  }

  /** Bit k of each byte, the last byte first. */
  function Column(b: Halves, k: nat): bits
    requires k < 8
  {
    [Octet3(b.right)[k], Octet2(b.right)[k], Octet1(b.right)[k], Octet0(b.right)[k],
     Octet3(b.left)[k], Octet2(b.left)[k], Octet1(b.left)[k], Octet0(b.left)[k]]
  }

  /** Each byte that comes out collects one bit of every byte that goes in. */
  lemma MovedRow0(b: Halves)
    ensures Octet0(Moved(b).left) == Column(b, 1)
  {}

  lemma MovedRow1(b: Halves)
    ensures Octet1(Moved(b).left) == Column(b, 3)
  {}

  lemma MovedRow2(b: Halves)
    ensures Octet2(Moved(b).left) == Column(b, 5)
  {}

  lemma MovedRow3(b: Halves)
    ensures Octet3(Moved(b).left) == Column(b, 7)
  {}

  lemma MovedRow4(b: Halves)
    ensures Octet0(Moved(b).right) == Column(b, 0)
  {}

  lemma MovedRow5(b: Halves)
    ensures Octet1(Moved(b).right) == Column(b, 2)
  {}

  lemma MovedRow6(b: Halves)
    ensures Octet2(Moved(b).right) == Column(b, 4)
  {}

  lemma MovedRow7(b: Halves)
    ensures Octet3(Moved(b).right) == Column(b, 6)
  {}

  lemma MovedOctet(b: Halves, r: nat)
    requires r < 8
    ensures BlockOctet(Moved(b), r) == Column(b, 7 - [6, 4, 2, 0, 7, 5, 3, 1][r])
  {
    hide Moved, Octet0, Octet1, Octet2, Octet3, Column;
    MovedRow0(b);
    MovedRow1(b);
    MovedRow2(b);
    MovedRow3(b);
    MovedRow4(b);
    MovedRow5(b);
    MovedRow6(b);
    MovedRow7(b);
  }

  lemma ColumnAt(b: Halves, k: nat, c: nat)
    requires k < 8 && c < 8
    ensures |Column(b, k)| == 8 && Column(b, k)[c] == BlockOctet(b, 7 - c)[k]
  {
    hide Octet0, Octet1, Octet2, Octet3;
  }

  lemma InitialEntry(r: nat, c: nat)
    requires r < 8 && c < 8
    ensures Entry(INITIAL, r, c) == 64 - 8 * c - [6, 4, 2, 0, 7, 5, 3, 1][r]
  {}

  /** All 64 bits go where the table of the standard says. */
  lemma MovedBits(b: Halves)
    ensures BlockBits(Moved(b)) == Permuted(INITIAL, BlockBits(b))
  {
    hide Moved, Column, BlockOctet, Entry, BlockBits;
    forall i | 0 <= i < 64
      ensures BlockBits(Moved(b))[i] == Permuted(INITIAL, BlockBits(b))[i]
    {
      var r, c := i / 8, i % 8;
      BlockBitAt(Moved(b), r, c);
      MovedOctet(b, r);
      var k := 7 - [6, 4, 2, 0, 7, 5, 3, 1][r];
      ColumnAt(b, k, c);
      BlockBitAt(b, 7 - c, k);
      InitialEntry(r, c);
    }
  }

  // ----- what the boxes are given

  /** The six bits of a half that box b is given, as a number. */
  function ExpandedField(r: word, b: nat): word {
    if b == 1 then ((r & 1) << 5) | (r >> 27) else if b == 2 then (r >> 23) & 0x3f else if b == 3 then (r >> 19) & 0x3f
    else if b == 4 then (r >> 15) & 0x3f else if b == 5 then (r >> 11) & 0x3f else if b == 6 then (r >> 7) & 0x3f
    else if b == 7 then (r >> 3) & 0x3f else ((r & 0x1f) << 1) | (r >> 31)
  }

  /** Six of the 24 bits of a key word, as a number. */
  function KeyField(r: word, g: nat): word {
    if g == 0 then (r >> 18) & 0x3f else if g == 1 then (r >> 12) & 0x3f else if g == 2 then (r >> 6) & 0x3f else r & 0x3f
  }

  /** What box n is given: six bits of the expanded half, combined with six bits of the key. */
  function BoxInput(h: word, raw0: word, raw1: word, n: nat): word {
    ExpandedField(Ror1(h), n) ^ KeyField(if n <= 4 then raw0 else raw1, (n - 1) % 4)
  }

  /** The words of a round, rearranged and combined with a half kept rotated, hold the eight numbers that the boxes are
      given. */
  lemma Input1(h: word, raw0: word, raw1: word)
    ensures ((Ror4(h) ^ Cooked0(raw0, raw1)) >> 24) & 0x3f == BoxInput(h, raw0, raw1, 1)
  {}

  lemma Input2(h: word, raw0: word, raw1: word)
    ensures ((h ^ Cooked1(raw0, raw1)) >> 24) & 0x3f == BoxInput(h, raw0, raw1, 2)
  {}

  lemma Input3(h: word, raw0: word, raw1: word)
    ensures ((Ror4(h) ^ Cooked0(raw0, raw1)) >> 16) & 0x3f == BoxInput(h, raw0, raw1, 3)
  {}

  lemma Input4(h: word, raw0: word, raw1: word)
    ensures ((h ^ Cooked1(raw0, raw1)) >> 16) & 0x3f == BoxInput(h, raw0, raw1, 4)
  {}

  lemma Input5(h: word, raw0: word, raw1: word)
    ensures ((Ror4(h) ^ Cooked0(raw0, raw1)) >> 8) & 0x3f == BoxInput(h, raw0, raw1, 5)
  {}

  lemma Input6(h: word, raw0: word, raw1: word)
    ensures ((h ^ Cooked1(raw0, raw1)) >> 8) & 0x3f == BoxInput(h, raw0, raw1, 6)
  {}

  lemma Input7(h: word, raw0: word, raw1: word)
    ensures (Ror4(h) ^ Cooked0(raw0, raw1)) & 0x3f == BoxInput(h, raw0, raw1, 7)
  {}

  lemma Input8(h: word, raw0: word, raw1: word)
    ensures (h ^ Cooked1(raw0, raw1)) & 0x3f == BoxInput(h, raw0, raw1, 8)
  {}

  /** The bits of the six-bit numbers, box by box. */
  lemma Expanded1(r: word)
    ensures SixBits(ExpandedField(r, 1)) == [Octet3(r)[7], Octet0(r)[0], Octet0(r)[1], Octet0(r)[2], Octet0(r)[3], Octet0(r)[4]]
  {}

  lemma Expanded2(r: word)
    ensures SixBits(ExpandedField(r, 2)) == [Octet0(r)[3], Octet0(r)[4], Octet0(r)[5], Octet0(r)[6], Octet0(r)[7], Octet1(r)[0]]
  {}

  lemma Expanded3(r: word)
    ensures SixBits(ExpandedField(r, 3)) == [Octet0(r)[7], Octet1(r)[0], Octet1(r)[1], Octet1(r)[2], Octet1(r)[3], Octet1(r)[4]]
  {}

  lemma Expanded4(r: word)
    ensures SixBits(ExpandedField(r, 4)) == [Octet1(r)[3], Octet1(r)[4], Octet1(r)[5], Octet1(r)[6], Octet1(r)[7], Octet2(r)[0]]
  {}

  lemma Expanded5(r: word)
    ensures SixBits(ExpandedField(r, 5)) == [Octet1(r)[7], Octet2(r)[0], Octet2(r)[1], Octet2(r)[2], Octet2(r)[3], Octet2(r)[4]]
  {}

  lemma Expanded6(r: word)
    ensures SixBits(ExpandedField(r, 6)) == [Octet2(r)[3], Octet2(r)[4], Octet2(r)[5], Octet2(r)[6], Octet2(r)[7], Octet3(r)[0]]
  {}

  lemma Expanded7(r: word)
    ensures SixBits(ExpandedField(r, 7)) == [Octet2(r)[7], Octet3(r)[0], Octet3(r)[1], Octet3(r)[2], Octet3(r)[3], Octet3(r)[4]]
  {}

  lemma Expanded8(r: word)
    ensures SixBits(ExpandedField(r, 8)) == [Octet3(r)[3], Octet3(r)[4], Octet3(r)[5], Octet3(r)[6], Octet3(r)[7], Octet0(r)[0]]
  {}

  lemma ExpandedGroup1(r: word)
    ensures SixBits(ExpandedField(r, 1)) == Group(EXPANSION, 0, Bits(r))
  {
    hide Octet0, Octet1, Octet2, Octet3, ExpandedField, SixBits;
    Expanded1(r);
  }

  lemma ExpandedGroup2(r: word)
    ensures SixBits(ExpandedField(r, 2)) == Group(EXPANSION, 1, Bits(r))
  {
    hide Octet0, Octet1, Octet2, Octet3, ExpandedField, SixBits;
    Expanded2(r);
  }

  lemma ExpandedGroup3(r: word)
    ensures SixBits(ExpandedField(r, 3)) == Group(EXPANSION, 2, Bits(r))
  {
    hide Octet0, Octet1, Octet2, Octet3, ExpandedField, SixBits;
    Expanded3(r);
  }

  lemma ExpandedGroup4(r: word)
    ensures SixBits(ExpandedField(r, 4)) == Group(EXPANSION, 3, Bits(r))
  {
    hide Octet0, Octet1, Octet2, Octet3, ExpandedField, SixBits;
    Expanded4(r);
  }

  lemma ExpandedGroup5(r: word)
    ensures SixBits(ExpandedField(r, 5)) == Group(EXPANSION, 4, Bits(r))
  {
    hide Octet0, Octet1, Octet2, Octet3, ExpandedField, SixBits;
    Expanded5(r);
  }

  lemma ExpandedGroup6(r: word)
    ensures SixBits(ExpandedField(r, 6)) == Group(EXPANSION, 5, Bits(r))
  {
    hide Octet0, Octet1, Octet2, Octet3, ExpandedField, SixBits;
    Expanded6(r);
  }

  lemma ExpandedGroup7(r: word)
    ensures SixBits(ExpandedField(r, 7)) == Group(EXPANSION, 6, Bits(r))
  {
    hide Octet0, Octet1, Octet2, Octet3, ExpandedField, SixBits;
    Expanded7(r);
  }

  lemma ExpandedGroup8(r: word)
    ensures SixBits(ExpandedField(r, 8)) == Group(EXPANSION, 7, Bits(r))
  {
    hide Octet0, Octet1, Octet2, Octet3, ExpandedField, SixBits;
    Expanded8(r);
  }

  /** The six-bit numbers are the rows of the expansion. */
  lemma ExpandedGroup(r: word, b: nat)
    requires 1 <= b <= 8
    ensures SixBits(ExpandedField(r, b)) == Group(EXPANSION, b - 1, Bits(r))
  {
    hide ExpandedField, SixBits, Group, Bits;
    ExpandedGroup1(r);
    ExpandedGroup2(r);
    ExpandedGroup3(r);
    ExpandedGroup4(r);
    ExpandedGroup5(r);
    ExpandedGroup6(r);
    ExpandedGroup7(r);
    ExpandedGroup8(r);
  }

  lemma FieldsAreSmall(r: word, b: nat, raw: word, g: nat)
    ensures ExpandedField(r, b) <= 0x3f && KeyField(raw, g) <= 0x3f
  {}

  lemma SmallXor(x: word, y: word)
    requires x <= 0x3f && y <= 0x3f
    ensures x ^ y <= 0x3f
  {}

  /** A table is looked up at the six bits that the standard gives its box. */
  lemma LookedUp(h: word, raw0: word, raw1: word, n: nat)
    requires 1 <= n <= 8
    ensures BoxInput(h, raw0, raw1, n) <= 0x3f
    ensures SixBits(BoxInput(h, raw0, raw1, n))
         == Xor(Group(EXPANSION, n - 1, Bits(Ror1(h))), SixBits(KeyField(if n <= 4 then raw0 else raw1, (n - 1) % 4)))
  {
    hide ExpandedField, KeyField, Ror1, SixBits, Group, Bits;
    var e, k := ExpandedField(Ror1(h), n), KeyField(if n <= 4 then raw0 else raw1, (n - 1) % 4);
    FieldsAreSmall(Ror1(h), n, if n <= 4 then raw0 else raw1, (n - 1) % 4);
    SixXor(e, k);
    ExpandedGroup(Ror1(h), n);
    SmallXor(e, k);
  }

  function Weight(b: Bit, w: word): word {
    if b == One then w else 0
  }

  /** Six bits as the number a table is looked up at. */
  function SixValue(s: Six): word {
    Weight(s[0], 0x20) | Weight(s[1], 0x10) | Weight(s[2], 8) | Weight(s[3], 4) | Weight(s[4], 2) | Weight(s[5], 1)
  }

  lemma SixBack(x: word)
    requires x <= 0x3f
    ensures SixValue(SixBits(x)) == x
  {}

  // ----- key words

  function BigByte(j: nat): Mask
    requires j < 24
  {
    BIG_BYTE[j]
  }

  /** The bits of the groups of a key word. */
  lemma KeyGroup0(raw: word)
    ensures SixBits(KeyField(raw, 0))
         == [On(raw, BigByte(0)), On(raw, BigByte(1)), On(raw, BigByte(2)),
             On(raw, BigByte(3)), On(raw, BigByte(4)), On(raw, BigByte(5))]
  {}

  lemma KeyGroup1(raw: word)
    ensures SixBits(KeyField(raw, 1))
         == [On(raw, BigByte(6)), On(raw, BigByte(7)), On(raw, BigByte(8)),
             On(raw, BigByte(9)), On(raw, BigByte(10)), On(raw, BigByte(11))]
  {}

  lemma KeyGroup2(raw: word)
    ensures SixBits(KeyField(raw, 2))
         == [On(raw, BigByte(12)), On(raw, BigByte(13)), On(raw, BigByte(14)),
             On(raw, BigByte(15)), On(raw, BigByte(16)), On(raw, BigByte(17))]
  {}

  lemma KeyGroup3(raw: word)
    ensures SixBits(KeyField(raw, 3))
         == [On(raw, BigByte(18)), On(raw, BigByte(19)), On(raw, BigByte(20)),
             On(raw, BigByte(21)), On(raw, BigByte(22)), On(raw, BigByte(23))]
  {}

  lemma KeyGroup(raw: word, g: nat, t: nat)
    requires g < 4 && t < 6
    ensures SixBits(KeyField(raw, g))[t] == On(raw, BigByte(6 * g + t))
  {
    hide On, KeyField, SixBits, BigByte;
    if g == 0 {
      KeyGroup0(raw);
    } else if g == 1 {
      KeyGroup1(raw);
    } else if g == 2 {
      KeyGroup2(raw);
    } else {
      KeyGroup3(raw);
    }
  }

  lemma BigByteNext(j: nat)
    requires j < 23
    ensures BigByte(j + 1) as int < BigByte(j) as int
  {}

  lemma {:induction false} BigBytesFall(i: nat, j: nat)
    requires i < j < 24
    ensures BigByte(j) as int < BigByte(i) as int
  {
    hide BigByte;
    BigByteNext(j - 1);
    if i < j - 1 {
      BigBytesFall(i, j - 1);
    }
  }

  lemma MasksDiffer(a: Mask, m: Mask)
    requires a != m
    ensures a & m == 0
  {}

  lemma OnOr(w: word, a: Mask, m: Mask)
    ensures On(w | a, m) == if a == m then One else On(w, m)
  {
    if a != m {
      MasksDiffer(a, m);
      assert (w | a) & m == (w & m) | (a & m);
    } else {
      assert (w | a) & a == a;
    }
  }

  lemma OnNothing(m: word)
    ensures On(0, m) == Zero
  {}

  lemma OrBit(w: word, k: nat, j: nat)
    requires k < 24 && j < 24
    ensures On(Or(w, BIG_BYTE[k]), BigByte(j)) == if k == j then One else On(w, BigByte(j))
  {
    hide On;
    if k < j {
      BigBytesFall(k, j);
    } else if j < k {
      BigBytesFall(j, k);
    }
    OnOr(w, BigByte(k), BigByte(j));
  }

  function OneIf(b: bool): Bit {
    if b then One else Zero
  }

  /** A key word has the bits set that the second table selects. */
  lemma {:induction false} RawBit(key: seq<bv8>, i: nat, from: nat, n: nat, j: nat)
    requires |key| == 8 && i < 16 && from <= 24 && n <= 24 && j < 24
    ensures On(RawWord(key, i, from, n), BigByte(j)) == OneIf(j < n && RoundBit(key, i, PC2[from + j]))
  {
    hide On, RoundBit, Or, BigByte;
    if n > 0 {
      RawBit(key, i, from, n - 1, j);
      OrBit(RawWord(key, i, from, n - 1), n - 1, j);
    } else {
      OnNothing(BigByte(j));
    }
  }

  // ----- bytes

  function ByteBits(b: bv8): (t: bits)
    ensures |t| == 8
  {
    [OneIf(b & 128 != 0), OneIf(b & 64 != 0), OneIf(b & 32 != 0), OneIf(b & 16 != 0),
     OneIf(b & 8 != 0), OneIf(b & 4 != 0), OneIf(b & 2 != 0), OneIf(b & 1 != 0)]
  }

  /** The bits of a string of bytes. */
  function StringBits(s: seq<bv8>): (t: bits)
    ensures |t| == 8 * |s|
  {
    seq(8 * |s|, i requires 0 <= i < 8 * |s| => ByteBits(s[i / 8])[i % 8])
  }

  lemma ByteBitIs(b: bv8, m: nat)
    requires m < 8
    ensures ByteBits(b)[m] == OneIf(b & BYTE_BIT[m] == BYTE_BIT[m])
  {
    if m == 0 {
    } else if m == 1 {
    } else if m == 2 {
    } else if m == 3 {
    } else if m == 4 {
    } else if m == 5 {
    } else if m == 6 {
    }
  }

  lemma KeyBitIs(key: seq<bv8>, l: KeyPosition)
    requires |key| == 8
    ensures At(StringBits(key), l + 1) == OneIf(KeyBit(key, l))
  {
    ByteBitIs(key[l / 8], l % 8);
  }

  lemma JoinOctet0(a: bv8, b: bv8, c: bv8, d: bv8)
    ensures Octet0(Join(Widen(a), Widen(b), Widen(c), Widen(d))) == ByteBits(a)
  {}

  lemma JoinOctet1(a: bv8, b: bv8, c: bv8, d: bv8)
    ensures Octet1(Join(Widen(a), Widen(b), Widen(c), Widen(d))) == ByteBits(b)
  {}

  lemma JoinOctet2(a: bv8, b: bv8, c: bv8, d: bv8)
    ensures Octet2(Join(Widen(a), Widen(b), Widen(c), Widen(d))) == ByteBits(c)
  {}

  lemma JoinOctet3(a: bv8, b: bv8, c: bv8, d: bv8)
    ensures Octet3(Join(Widen(a), Widen(b), Widen(c), Widen(d))) == ByteBits(d)
  {}

  lemma JoinBits(a: bv8, b: bv8, c: bv8, d: bv8, j: nat)
    requires j < 4
    ensures WordOctet(Join(Widen(a), Widen(b), Widen(c), Widen(d)), j) == ByteBits([a, b, c, d][j])
  {
    hide Join, Widen, Octet0, Octet1, Octet2, Octet3, ByteBits;
    JoinOctet0(a, b, c, d);
    JoinOctet1(a, b, c, d);
    JoinOctet2(a, b, c, d);
    JoinOctet3(a, b, c, d);
  }

  lemma LoadOctet(b: block, j: nat)
    requires j < 8
    ensures BlockOctet(LoadBlock(b), j) == ByteBits(b[j])
  {
    hide Join, Widen, WordOctet, ByteBits;
    if j < 4 {
      JoinBits(b[0], b[1], b[2], b[3], j);
    } else {
      JoinBits(b[4], b[5], b[6], b[7], j - 4);
    }
  }

  /** The words of a block have the bits of its bytes, the first bit of the first byte first. */
  lemma LoadBits(b: block)
    ensures BlockBits(LoadBlock(b)) == StringBits(b)
  {
    hide LoadBlock, BlockOctet, ByteBits, BlockBits;
    forall i | 0 <= i < 64
      ensures BlockBits(LoadBlock(b))[i] == StringBits(b)[i]
    {
      BlockBitAt(LoadBlock(b), i / 8, i % 8);
      LoadOctet(b, i / 8);
    }
  }
}
