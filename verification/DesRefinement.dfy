/** The DES of the program is that of FIPS 46-3, whatever its substitution tables hold. */
module DesRefinement {
  import opened Des
  import opened DesBits
  import opened DesStandard

  // ----- the key schedule

  lemma Key1Rows01(r: nat, c: nat)
    requires 0 <= r <= 1 && c < 7
    ensures Entry(CHOICE1, r, c) == PC1[7 * r + c] as int + 1
  {}

  lemma Key1Rows23(r: nat, c: nat)
    requires 2 <= r <= 3 && c < 7
    ensures Entry(CHOICE1, r, c) == PC1[7 * r + c] as int + 1
  {}

  lemma Key1Rows45(r: nat, c: nat)
    requires 4 <= r <= 5 && c < 7
    ensures Entry(CHOICE1, r, c) == PC1[7 * r + c] as int + 1
  {}

  lemma Key1Rows67(r: nat, c: nat)
    requires 6 <= r <= 7 && c < 7
    ensures Entry(CHOICE1, r, c) == PC1[7 * r + c] as int + 1
  {}

  /** The program counts bits from 0 and the standard from 1. */
  lemma Key1Entry(r: nat, c: nat)
    requires r < 8 && c < 7
    ensures Entry(CHOICE1, r, c) == PC1[7 * r + c] as int + 1
  {
    hide Entry;
    if r < 2 {
      Key1Rows01(r, c);
    } else if r < 4 {
      Key1Rows23(r, c);
    } else if r < 6 {
      Key1Rows45(r, c);
    } else {
      Key1Rows67(r, c);
    }
  }

  lemma Key2Rows01(r: nat, c: nat)
    requires 0 <= r <= 1 && c < 6
    ensures Entry(CHOICE2, r, c) == PC2[6 * r + c] as int + 1
  {}

  lemma Key2Rows23(r: nat, c: nat)
    requires 2 <= r <= 3 && c < 6
    ensures Entry(CHOICE2, r, c) == PC2[6 * r + c] as int + 1
  {}

  lemma Key2Rows45(r: nat, c: nat)
    requires 4 <= r <= 5 && c < 6
    ensures Entry(CHOICE2, r, c) == PC2[6 * r + c] as int + 1
  {}

  lemma Key2Rows67(r: nat, c: nat)
    requires 6 <= r <= 7 && c < 6
    ensures Entry(CHOICE2, r, c) == PC2[6 * r + c] as int + 1
  {}

  lemma Key2Entry(r: nat, c: nat)
    requires r < 8 && c < 6
    ensures Entry(CHOICE2, r, c) == PC2[6 * r + c] as int + 1
  {
    hide Entry;
    if r < 2 {
      Key2Rows01(r, c);
    } else if r < 4 {
      Key2Rows23(r, c);
    } else if r < 6 {
      Key2Rows45(r, c);
    } else {
      Key2Rows67(r, c);
    }
  }

  /** The shifts so far. */
  function Shifts(n: nat): nat
    requires n <= 16
  {
    if n == 0 then 0 else TOTROT[n - 1]
  }

  lemma NoShifts()
    ensures Shifts(0) == 0
  {}

  lemma ShiftsAdd(n: nat)
    requires 0 < n <= 16
    ensures Shifts(n) == Shifts(n - 1) + SHIFTS[n - 1] && Shifts(n) <= 28
  {}

  function Wrapped(j: nat): nat {
    if j < 28 then j else j - 28
  }

  lemma ShiftedAt(s: bits, n: nat, j: nat)
    requires |s| == 28 && n <= 28 && j < 28
    ensures ShiftedLeft(s, n)[j] == s[Wrapped(j + n)]
  {}

  /** The shifts add up to the rotation the program looks up. */
  lemma {:induction false} KeyHalfAt(key: bits, top: nat, n: nat, j: nat)
    requires n <= 16 && j < 28
    ensures Shifts(n) <= 28 && KeyHalf(key, top, n)[j] == KeyHalf(key, top, 0)[Wrapped(j + Shifts(n))]
  {
    hide Shifts, ShiftedLeft;
    if n == 0 {
      NoShifts();
    } else {
      var k := SHIFTS[n - 1];
      ShiftsAdd(n);
      ShiftedAt(KeyHalf(key, top, n - 1), k, j);
      KeyHalfAt(key, top, n - 1, Wrapped(j + k));
    }
  }

  /** The selected bits of the key before any shift. */
  lemma SelectedBit(key: seq<bv8>, x: BitPosition)
    requires |key| == 8
    ensures OneIf(KeyBit(key, PC1[x]))
         == if x < 28 then KeyHalf(StringBits(key), 0, 0)[x]
            else KeyHalf(StringBits(key), 4, 0)[x - 28]
  {
    hide StringBits, KeyBit, Entry;
    Key1Entry(x / 7, x % 7);
    KeyBitIs(key, PC1[x]);
  }

  /** The bits that a round of the program selects from are those of the shifted halves. */
  lemma RoundBitIs(key: seq<bv8>, i: nat, x: BitPosition)
    requires |key| == 8 && i < 16
    ensures OneIf(RoundBit(key, i, x)) == (KeyHalf(StringBits(key), 0, i + 1) + KeyHalf(StringBits(key), 4, i + 1))[x]
  {
    hide StringBits, KeyBit, KeyHalf, OneIf;
    SelectedBit(key, Rotated(i, x));
    if x < 28 {
      KeyHalfAt(StringBits(key), 0, i + 1, x);
    } else {
      KeyHalfAt(StringBits(key), 4, i + 1, x - 28);
    }
  }

  /** The word of a round that holds the bits for box b + 1. */
  function RawFor(key: seq<bv8>, i: nat, b: nat): word
    requires |key| == 8 && i < 16
  {
    RawWord(key, i, if b < 4 then 0 else 24, 24)
  }

  lemma RawGroupBit(key: seq<bv8>, i: nat, from: nat, g: nat, t: nat)
    requires |key| == 8 && i < 16 && from <= 24 && g < 4 && t < 6
    ensures SixBits(KeyField(RawWord(key, i, from, 24), g))[t] == OneIf(RoundBit(key, i, PC2[from + 6 * g + t]))
  {
    hide SixBits, KeyField, RawWord, BigByte, On, OneIf, RoundBit;
    KeyGroup(RawWord(key, i, from, 24), g, t);
    RawBit(key, i, from, 24, 6 * g + t);
  }

  lemma RoundKeyBit(key: seq<bv8>, i: nat, b: nat, t: nat)
    requires |key| == 8 && i < 16 && b < 8 && t < 6
    ensures SixBits(KeyField(RawFor(key, i, b), b % 4))[t] == OneIf(RoundBit(key, i, PC2[6 * b + t]))
  {
    hide SixBits, KeyField, RawWord, OneIf, RoundBit;
    if b < 4 {
      RawGroupBit(key, i, 0, b, t);
    } else {
      RawGroupBit(key, i, 24, b - 4, t);
    }
  }

  /** The words of a round hold the eight groups of the standard's round key. */
  lemma RoundKeyIs(key: seq<bv8>, i: nat, b: nat)
    requires |key| == 8 && i < 16 && b < 8
    ensures SixBits(KeyField(RawFor(key, i, b), b % 4)) == RoundKeyAfter(StringBits(key), i + 1)[b]
  {
    hide StringBits, KeyHalf, SixBits, KeyField, RawFor, Entry, OneIf, RoundBit;
    forall t: nat | t < 6
      ensures SixBits(KeyField(RawFor(key, i, b), b % 4))[t] == RoundKeyAfter(StringBits(key), i + 1)[b][t]
    {
      RoundKeyBit(key, i, b, t);
      Key2Entry(b, t);
      RoundBitIs(key, i, PC2[6 * b + t]);
    }
  }

  // ----- one round

  /** What goes into a round: the tables, the half that it starts from and the two words of its key. */
  datatype Turn = Turn(sp: Tables, h: word, raw0: word, raw1: word) {
    function Work0(): word {
      Ror4(h) ^ Cooked0(raw0, raw1)
    }

    function Work1(): word {
      h ^ Cooked1(raw0, raw1)
    }

    /** What the round adds to the other half. */
    function Gives(): word {
      Mix(sp, h, Cooked0(raw0, raw1), Cooked1(raw0, raw1))
    }
  }

  /** What is found in table n. */
  function BoxGives(t: Turn, n: nat): word {
    t.sp(n, BoxInput(t.h, t.raw0, t.raw1, n))
  }

  lemma OddInputs(sp: Tables, work: word, a: word, c: word, e: word, g: word)
    requires (work >> 24) & 0x3f == a && (work >> 16) & 0x3f == c && (work >> 8) & 0x3f == e && work & 0x3f == g
    ensures OddBoxes(sp, work) == Plus(Plus(Plus(sp(7, g), sp(5, e)), sp(3, c)), sp(1, a))
  {}

  lemma EvenInputs(sp: Tables, work: word, b: word, d: word, f: word, h: word)
    requires (work >> 24) & 0x3f == b && (work >> 16) & 0x3f == d && (work >> 8) & 0x3f == f && work & 0x3f == h
    ensures EvenBoxes(sp, work) == Plus(Plus(Plus(sp(8, h), sp(6, f)), sp(4, d)), sp(2, b))
  {}

  /** Four of the tables are looked up with the first key word of a round, four with the second. */
  lemma OddSum(t: Turn)
    ensures OddBoxes(t.sp, t.Work0()) == Plus(Plus(Plus(BoxGives(t, 7), BoxGives(t, 5)), BoxGives(t, 3)), BoxGives(t, 1))
  {
    hide OddBoxes, Plus, BoxInput, Cooked0, Ror4;
    Input1(t.h, t.raw0, t.raw1);
    Input3(t.h, t.raw0, t.raw1);
    Input5(t.h, t.raw0, t.raw1);
    Input7(t.h, t.raw0, t.raw1);
    OddInputs(t.sp, t.Work0(), BoxInput(t.h, t.raw0, t.raw1, 1), BoxInput(t.h, t.raw0, t.raw1, 3),
              BoxInput(t.h, t.raw0, t.raw1, 5), BoxInput(t.h, t.raw0, t.raw1, 7));
  }

  lemma EvenSum(t: Turn)
    ensures EvenBoxes(t.sp, t.Work1()) == Plus(Plus(Plus(BoxGives(t, 8), BoxGives(t, 6)), BoxGives(t, 4)), BoxGives(t, 2))
  {
    hide EvenBoxes, Plus, BoxInput, Cooked1;
    Input2(t.h, t.raw0, t.raw1);
    Input4(t.h, t.raw0, t.raw1);
    Input6(t.h, t.raw0, t.raw1);
    Input8(t.h, t.raw0, t.raw1);
    EvenInputs(t.sp, t.Work1(), BoxInput(t.h, t.raw0, t.raw1, 2), BoxInput(t.h, t.raw0, t.raw1, 4),
               BoxInput(t.h, t.raw0, t.raw1, 6), BoxInput(t.h, t.raw0, t.raw1, 8));
  }

  lemma MixIsPlus(sp: Tables, half: word, k0: word, k1: word)
    ensures Mix(sp, half, k0, k1) == Plus(OddBoxes(sp, Ror4(half) ^ k0), EvenBoxes(sp, half ^ k1))
  {
    hide OddBoxes, EvenBoxes, Ror4;
  }

  /** Whatever the tables hold: a round looks each of them up once, at the six bits of its box. */
  lemma MixIsBoxes(t: Turn)
    ensures t.Gives() == Plus(Plus(Plus(Plus(BoxGives(t, 7), BoxGives(t, 5)), BoxGives(t, 3)), BoxGives(t, 1)),
                              Plus(Plus(Plus(BoxGives(t, 8), BoxGives(t, 6)), BoxGives(t, 4)), BoxGives(t, 2)))
  {
    hide Plus, BoxGives, Cooked0, Cooked1, Ror4, OddBoxes, EvenBoxes, Mix;
    OddSum(t);
    EvenSum(t);
    MixIsPlus(t.sp, t.h, Cooked0(t.raw0, t.raw1), Cooked1(t.raw0, t.raw1));
  }

  /** With tables that hand through what one box is given and hold 0 elsewhere, a round adds just that. */
  lemma OneBox(b: nat, h: word, raw0: word, raw1: word)
    requires 1 <= b <= 8
    ensures Mix((n, x) => if n == b then x else 0, h, Cooked0(raw0, raw1), Cooked1(raw0, raw1)) == BoxInput(h, raw0, raw1, b)
  {
    hide Mix, Cooked0, Cooked1, BoxInput, Plus;
    MixIsBoxes(Turn((n, x) => if n == b then x else 0, h, raw0, raw1));
    PlusNothing(BoxInput(h, raw0, raw1, b));
    PlusNothing(0);
  }

  lemma PlusNothing(x: word)
    ensures Plus(x, 0) == x && Plus(0, x) == x
  {}

  /** What is found in table n, rotated back. */
  function BoxBits(t: Turn, n: nat): Half {
    Bits(Ror1(BoxGives(t, n)))
  }

  lemma MixBits(t: Turn)
    ensures Bits(Ror1(t.Gives())) == Xor(Xor(Xor(Xor(BoxBits(t, 7), BoxBits(t, 5)), BoxBits(t, 3)), BoxBits(t, 1)),
                                         Xor(Xor(Xor(BoxBits(t, 8), BoxBits(t, 6)), BoxBits(t, 4)), BoxBits(t, 2)))
  {
    hide Plus, BoxGives, Ror1, Bits, Xor, Turn.Gives;
    MixIsBoxes(t);
    RotatedPlus(Plus(Plus(Plus(BoxGives(t, 7), BoxGives(t, 5)), BoxGives(t, 3)), BoxGives(t, 1)),
                Plus(Plus(Plus(BoxGives(t, 8), BoxGives(t, 6)), BoxGives(t, 4)), BoxGives(t, 2)));
    FourPlus(BoxGives(t, 7), BoxGives(t, 5), BoxGives(t, 3), BoxGives(t, 1));
    FourPlus(BoxGives(t, 8), BoxGives(t, 6), BoxGives(t, 4), BoxGives(t, 2));
  }

  lemma EightSums(a: Bit, b: Bit, c: Bit, d: Bit, e: Bit, f: Bit, g: Bit, h: Bit)
    ensures Sum(Sum(Sum(Sum(g, e), c), a), Sum(Sum(Sum(h, f), d), b))
         == Sum(Sum(Sum(Sum(Sum(Sum(Sum(Sum(Zero, a), b), c), d), e), f), g), h)
  {}

  lemma EightXors(a: Half, b: Half, c: Half, d: Half, e: Half, f: Half, g: Half, h: Half)
    ensures Xor(Xor(Xor(Xor(g, e), c), a), Xor(Xor(Xor(h, f), d), b))
         == Xor(Xor(Xor(Xor(Xor(Xor(Xor(Xor(seq(32, _ => Zero), a), b), c), d), e), f), g), h)
  {
    hide Sum;
    forall i | 0 <= i < 32
      ensures Sum(Sum(Sum(Sum(g[i], e[i]), c[i]), a[i]), Sum(Sum(Sum(h[i], f[i]), d[i]), b[i]))
           == Sum(Sum(Sum(Sum(Sum(Sum(Sum(Sum(Zero, a[i]), b[i]), c[i]), d[i]), e[i]), f[i]), g[i]), h[i])
    {
      EightSums(a[i], b[i], c[i], d[i], e[i], f[i], g[i], h[i]);
    }
  }

  /** The tables of the program as boxes: what they hold is kept rotated by one. */
  function BoxesOf(sp: Tables): Boxes {
    (b: nat, six: Six) => Bits(Ror1(sp(b, SixValue(six))))
  }

  /** The round key is the one whose bits the two words of a round hold. */
  ghost predicate Holds(raw0: word, raw1: word, k: RoundKey) {
    forall b | 0 <= b < 8 :: k[b] == SixBits(KeyField(if b < 4 then raw0 else raw1, b % 4))
  }

  lemma BoxBitsIs(t: Turn, k: RoundKey, n: nat)
    requires Holds(t.raw0, t.raw1, k) && 1 <= n <= 8
    ensures BoxBits(t, n) == BoxesOf(t.sp)(n, Xor(Group(EXPANSION, n - 1, Bits(Ror1(t.h))), k[n - 1]))
  {
    hide BoxInput, KeyField, Ror1, SixBits, SixValue, Group, Bits, Xor;
    LookedUp(t.h, t.raw0, t.raw1, n);
    SixBack(BoxInput(t.h, t.raw0, t.raw1, n));
  }

  lemma FirstBoxesAre(t: Turn, k: RoundKey)
    requires Holds(t.raw0, t.raw1, k)
    ensures FirstBoxes(BoxesOf(t.sp), Bits(Ror1(t.h)), k, 8)
         == Xor(Xor(Xor(Xor(Xor(Xor(Xor(Xor(seq(32, _ => Zero), BoxBits(t, 1)), BoxBits(t, 2)), BoxBits(t, 3)), BoxBits(t, 4)),
                        BoxBits(t, 5)), BoxBits(t, 6)), BoxBits(t, 7)), BoxBits(t, 8))
  {
    hide BoxBits, Group, Bits, Ror1, BoxesOf, Xor, Holds;
    var f := (n: nat) requires n <= 8 => FirstBoxes(BoxesOf(t.sp), Bits(Ror1(t.h)), k, n);
    forall n: nat | 0 < n <= 8
      ensures f(n) == Xor(f(n - 1), BoxBits(t, n))
    {
      BoxBitsIs(t, k, n);
    }
    assert f(2) == Xor(Xor(f(0), BoxBits(t, 1)), BoxBits(t, 2));
    assert f(4) == Xor(Xor(f(2), BoxBits(t, 3)), BoxBits(t, 4));
    assert f(6) == Xor(Xor(f(4), BoxBits(t, 5)), BoxBits(t, 6));
  }

  /** One round of the program on a half that is kept rotated is the round function of the standard. */
  lemma MixIsStandard(t: Turn, k: RoundKey)
    requires Holds(t.raw0, t.raw1, k)
    ensures Bits(Ror1(t.Gives())) == FirstBoxes(BoxesOf(t.sp), Bits(Ror1(t.h)), k, 8)
  {
    hide Turn.Gives, Ror1, Bits, Xor, BoxBits, FirstBoxes, BoxesOf, Holds;
    MixBits(t);
    FirstBoxesAre(t, k);
    EightXors(BoxBits(t, 1), BoxBits(t, 2), BoxBits(t, 3), BoxBits(t, 4), BoxBits(t, 5), BoxBits(t, 6),
              BoxBits(t, 7), BoxBits(t, 8));
  }

  // ----- the whole cipher

  /** The round keys in the order of one direction. */
  function Ordered(key: bits, edf: nat): (ks: seq<RoundKey>)
    ensures |ks| == 16
  {
    if edf == DE1 then Backwards(RoundKeys(key)) else RoundKeys(key)
  }

  /** The round of the encryption schedule that round n of a direction is. */
  function RoundOf(edf: nat, n: nat): (i: nat)
    requires n < 16
    ensures i < 16
  {
    if edf == DE1 then 15 - n else n
  }

  lemma ScheduleCooks(key: seq<bv8>, edf: nat, n: nat)
    requires |key| == 8 && n < 16
    ensures var i := RoundOf(edf, n);
            var raw0, raw1 := RawWord(key, i, 0, 24), RawWord(key, i, 24, 24);
            Schedule(key, edf)[2 * n] == Cooked0(raw0, raw1) && Schedule(key, edf)[2 * n + 1] == Cooked1(raw0, raw1)
  {
    hide RawWord, Cooked0, Cooked1;
    assert (2 * n) / 2 == n && (2 * n + 1) / 2 == n;
  }

  lemma RawWordsHold(key: seq<bv8>, i: nat)
    requires |key| == 8 && i < 16
    ensures Holds(RawWord(key, i, 0, 24), RawWord(key, i, 24, 24), RoundKeyAfter(StringBits(key), i + 1))
  {
    hide RawWord, SixBits, KeyField, RoundKeyAfter, StringBits;
    forall b: nat | b < 8
      ensures SixBits(KeyField(if b < 4 then RawWord(key, i, 0, 24) else RawWord(key, i, 24, 24), b % 4))
           == RoundKeyAfter(StringBits(key), i + 1)[b]
    {
      RoundKeyIs(key, i, b);
    }
  }

  lemma OrderedAt(key: bits, edf: nat, n: nat)
    requires n < 16
    ensures Ordered(key, edf)[n] == RoundKeyAfter(key, RoundOf(edf, n) + 1)
  {
    hide RoundKeyAfter;
  }

  function SidesOf(h: Halves): Sides {
    Sides(Bits(Ror1(h.left)), Bits(Ror1(h.right)))
  }

  /** After each round the halves, rotated back, are those of the standard. */
  lemma {:induction false} RoundsAreStandard(sp: Tables, key: seq<bv8>, edf: nat, h: Halves, n: nat)
    requires |key| == 8 && n <= 16
    ensures SidesOf(Rounds(sp, Schedule(key, edf), h, n))
         == StandardRounds(BoxesOf(sp), Ordered(StringBits(key), edf), SidesOf(h), n)
  {
    hide RawWord, Cooked0, Cooked1, Holds, StringBits, Schedule, Ordered, RoundOf, Mix, Plus, Bits, Ror1, FirstBoxes,
         BoxesOf, Xor;
    if n > 0 {
      RoundsAreStandard(sp, key, edf, h, n - 1);
      var i := RoundOf(edf, n - 1);
      ScheduleCooks(key, edf, n - 1);
      RawWordsHold(key, i);
      OrderedAt(StringBits(key), edf, n - 1);
      var raw0, raw1 := RawWord(key, i, 0, 24), RawWord(key, i, 24, 24);
      var g := Rounds(sp, Schedule(key, edf), h, n - 1);
      MixIsStandard(Turn(sp, g.right, raw0, raw1), Ordered(StringBits(key), edf)[n - 1]);
      RotatedPlus(g.left, Mix(sp, g.right, Cooked0(raw0, raw1), Cooked1(raw0, raw1)));
    }
  }

  lemma FinalEntry(r: nat, c: nat)
    requires r < 8 && c < 8
    ensures Entry(FINAL, r, c) == [40, 8, 48, 16, 56, 24, 64, 32][c] - r
  {}

  lemma PermutationsCancel(s: bits)
    requires |s| == 64
    ensures Permuted(FINAL, Permuted(INITIAL, s)) == s
  {
    hide Entry;
    forall i | 0 <= i < 64
      ensures Permuted(FINAL, Permuted(INITIAL, s))[i] == s[i]
    {
      var r, c := i / 8, i % 8;
      FinalEntry(r, c);
      var p := Entry(FINAL, r, c) - 1;
      InitialEntry(p / 8, p % 8);
    }
  }

  lemma InitialIsStandard(block: Halves)
    ensures SidesOf(InitialPermutation(block)).l + SidesOf(InitialPermutation(block)).r == Permuted(INITIAL, BlockBits(block))
  {
    hide InitialPermutation, Ror1, Bits, Permuted;
    InitialIsMoved(block);
    MovedBits(block);
  }

  /** The exchange of bits at the end takes the rotation back and is the final permutation of the halves exchanged. */
  lemma FinalIsStandard(g: Halves)
    ensures BlockBits(FinalPermutation(g)) == Permuted(FINAL, SidesOf(g).r + SidesOf(g).l)
  {
    hide InitialPermutation, FinalPermutation, Ror1, Bits, Permuted;
    InitialUndoesFinal(g);
    InitialIsStandard(FinalPermutation(g));
    PermutationsCancel(BlockBits(FinalPermutation(g)));
  }

  /** Whatever the tables hold: sixteen rounds under a key's schedule, between the two exchanges of bits, are DES. */
  lemma DesIsStandard(sp: Tables, key: seq<bv8>, edf: nat, block: Halves)
    requires |key| == 8
    ensures BlockBits(DesBlock(sp, Schedule(key, edf), block))
         == Encipher(BoxesOf(sp), Ordered(StringBits(key), edf), BlockBits(block))
  {
    hide InitialPermutation, FinalPermutation, Rounds, StandardRounds, Bits, Ror1, Permuted, Schedule, Ordered,
         StringBits, BoxesOf, BlockBits;
    var h := InitialPermutation(block);
    InitialIsStandard(block);
    var p := Permuted(INITIAL, BlockBits(block));
    assert p[..32] == SidesOf(h).l && p[32..] == SidesOf(h).r;
    RoundsAreStandard(sp, key, edf, h, 16);
    FinalIsStandard(Rounds(sp, Schedule(key, edf), h, 16));
  }

  // ----- three keys and chaining

  /** The round keys of eight bytes. */
  function KeysOf(key: seq<bv8>): (ks: seq<RoundKey>)
    ensures |ks| == 16
  {
    RoundKeys(StringBits(key))
  }

  /** Three passes of DES: under the first key, back under the second and under the third. */
  lemma TripleIsStandard(sp: Tables, key: seq<bv8>, b: block)
    requires |key| == 24
    ensures var box := BoxesOf(sp);
            var k1, k2, k3 := KeysOf(key[..8]), KeysOf(key[8..16]), KeysOf(key[16..]);
            var once := Encipher(box, k1, StringBits(b));
            StringBits(EcbBlock(sp, KeySchedules(key), b)) == Encipher(box, k3, Encipher(box, Backwards(k2), once))
  {
    hide Schedule, DesBlock, LoadBlock, StoreBlock, Encipher, RoundKeys, Backwards, StringBits, BoxesOf, BlockBits;
    var ks := KeySchedules(key);
    var h0 := LoadBlock(b);
    var h1 := DesBlock(sp, ks[0], h0);
    var h2 := DesBlock(sp, ks[1], h1);
    var h3 := DesBlock(sp, ks[2], h2);
    DesIsStandard(sp, key[..8], EN0, h0);
    DesIsStandard(sp, key[8..16], DE1, h1);
    DesIsStandard(sp, key[16..], EN0, h2);
    LoadBits(b);
    LoadBits(StoreBlock(h3));
    LoadStored(h3);
  }

  /** With one key three times, triple DES is DES under that key. */
  lemma EqualKeys(sp: Tables, k: seq<bv8>, b: block)
    requires |k| == 8
    ensures EcbBlock(sp, KeySchedules(k + k + k), b) == StoreBlock(DesBlock(sp, Schedule(k, EN0), LoadBlock(b)))
  {
    hide Schedule, DesBlock, LoadBlock, StoreBlock, Reversed;
    var key := k + k + k;
    assert key[..8] == k && key[8..16] == k && key[16..] == k;
    SchedulesReversed(k);
    DesInverse(sp, Schedule(k, EN0), Schedule(k, DE1), LoadBlock(b));
  }

  lemma CbcStep(sp: Tables, ks: seq<seq<word>>, iv: block, pt: seq<bv8>)
    requires Schedules(ks) && |pt| % 8 == 0 && pt != []
    ensures var n := |pt| - 8; var before := CbcEncrypt(sp, ks, iv, pt[..n]);
            && |before| == n
            && CbcEncrypt(sp, ks, iv, pt) == before + EcbBlock(sp, ks, XorBytes(pt[n..], LastBlock(iv, before)))
  {
    hide EcbBlock, XorBytes;
  }

  /** Cipher block chaining: each block of ciphertext is the block of plaintext, combined with the ciphertext before it,
      under the cipher; the first is combined with the initial value. */
  lemma {:induction false} CbcChains(sp: Tables, ks: seq<seq<word>>, iv: block, pt: seq<bv8>, at: nat)
    requires Schedules(ks) && |pt| % 8 == 0 && at % 8 == 0 && at + 8 <= |pt|
    ensures var ct := CbcEncrypt(sp, ks, iv, pt);
            ct[at..at + 8] == EcbBlock(sp, ks, XorBytes(pt[at..at + 8], LastBlock(iv, ct[..at])))
  {
    hide EcbBlock, XorBytes, CbcEncrypt, LastBlock;
    var n := |pt| - 8;
    CbcStep(sp, ks, iv, pt);
    var ct, before := CbcEncrypt(sp, ks, iv, pt), CbcEncrypt(sp, ks, iv, pt[..n]);
    assert ct[..at] == before[..at];
    if at < n {
      CbcChains(sp, ks, iv, pt[..n], at);
      assert pt[..n][at..at + 8] == pt[at..at + 8];
      assert ct[at..at + 8] == before[at..at + 8];
    } else {
      assert at == n && before[..n] == before && pt[at..at + 8] == pt[n..] && ct[at..at + 8] == ct[n..];
    }
  }
}
