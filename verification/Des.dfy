/** Triple DES in encrypt-decrypt-encrypt mode with cipher block chaining. */
module Des {
  import opened Splices

  type word = bv32

  datatype Halves = Halves(left: word, right: word)

  // ----- the initial and final permutations, as exchanges of bits between the halves

  /** Exchanges the bits of a selected by mask << s with the bits of b selected by mask. */
  function Exchange(a: word, b: word, s: nat, mask: word): (word, word)
    requires s < 32
  {
    var work := ((a >> s) ^ b) & mask;
    (a ^ (work << s), b ^ work)
  }

  function Rol1(x: word): word {
    (x << 1) | (x >> 31)
  }

  function Ror1(x: word): word {
    (x >> 1) | (x << 31)
  }

  function Ror4(x: word): word {
    (x >> 4) | (x << 28)
  }

  function SwapOdd(a: word, b: word): (word, word) {
    var work := (a ^ b) & 0xaaaaaaaa;
    (a ^ work, b ^ work)
  }

  function InitialPermutation(block: Halves): Halves {
    var (l1, r1) := Exchange(block.left, block.right, 4, 0x0f0f0f0f);
    var (l2, r2) := Exchange(l1, r1, 16, 0x0000ffff);
    var (r3, l3) := Exchange(r2, l2, 2, 0x33333333);
    var (r4, l4) := Exchange(r3, l3, 8, 0x00ff00ff);
    var (l5, r5) := SwapOdd(l4, Rol1(r4));
    Halves(Rol1(l5), r5)
  }

  function FinalPermutation(h: Halves): Halves {
    var (l1, r1) := SwapOdd(h.left, Ror1(h.right));
    var l2 := Ror1(l1);
    var (l3, r3) := Exchange(l2, r1, 8, 0x00ff00ff);
    var (l4, r4) := Exchange(l3, r3, 2, 0x33333333);
    var (r5, l5) := Exchange(r4, l4, 16, 0x0000ffff);
    var (r6, l6) := Exchange(r5, l5, 4, 0x0f0f0f0f);
    Halves(r6, l6)
  }

  lemma Exchange4(a: word, b: word)
    ensures var (x, y) := Exchange(a, b, 4, 0x0f0f0f0f); Exchange(x, y, 4, 0x0f0f0f0f) == (a, b)
  {}

  lemma Exchange16(a: word, b: word)
    ensures var (x, y) := Exchange(a, b, 16, 0x0000ffff); Exchange(x, y, 16, 0x0000ffff) == (a, b)
  {}

  lemma Exchange2(a: word, b: word)
    ensures var (x, y) := Exchange(a, b, 2, 0x33333333); Exchange(x, y, 2, 0x33333333) == (a, b)
  {}

  lemma Exchange8(a: word, b: word)
    ensures var (x, y) := Exchange(a, b, 8, 0x00ff00ff); Exchange(x, y, 8, 0x00ff00ff) == (a, b)
  {}

  lemma RotateBack(x: word)
    ensures Ror1(Rol1(x)) == x && Rol1(Ror1(x)) == x
  {}

  lemma SwapBack(a: word, b: word)
    ensures var (x, y) := SwapOdd(a, b); SwapOdd(x, y) == (a, b)
  {}

  lemma SwapOddSwapped(a: word, b: word)
    ensures SwapOdd(b, a) == (SwapOdd(a, b).1, SwapOdd(a, b).0)
  {}

  /** With the halves exchanged, each permutation undoes the other. */
  lemma FinalUndoesInitial(block: Halves)
    ensures var h := InitialPermutation(block); FinalPermutation(Halves(h.right, h.left)) == block
  {
    hide Exchange, SwapOdd, Rol1, Ror1;
    var (l1, r1) := Exchange(block.left, block.right, 4, 0x0f0f0f0f);
    var (l2, r2) := Exchange(l1, r1, 16, 0x0000ffff);
    var (r3, l3) := Exchange(r2, l2, 2, 0x33333333);
    var (r4, l4) := Exchange(r3, l3, 8, 0x00ff00ff);
    var (l5, r5) := SwapOdd(l4, Rol1(r4));
    Exchange4(block.left, block.right);
    Exchange16(l1, r1);
    Exchange2(r2, l2);
    Exchange8(r3, l3);
    SwapBack(l4, Rol1(r4));
    SwapOddSwapped(l5, r5);
    RotateBack(l5);
    RotateBack(r4);
  }

  lemma InitialUndoesFinal(h: Halves)
    ensures InitialPermutation(FinalPermutation(h)) == Halves(h.right, h.left)
  {
    hide Exchange, SwapOdd, Rol1, Ror1;
    var (l1, r1) := SwapOdd(h.left, Ror1(h.right));
    var l2 := Ror1(l1);
    var (l3, r3) := Exchange(l2, r1, 8, 0x00ff00ff);
    var (l4, r4) := Exchange(l3, r3, 2, 0x33333333);
    var (r5, l5) := Exchange(r4, l4, 16, 0x0000ffff);
    Exchange4(r5, l5);
    Exchange16(r4, l4);
    Exchange2(l3, r3);
    Exchange8(l2, r1);
    SwapBack(h.left, Ror1(h.right));
    SwapOddSwapped(l1, r1);
    RotateBack(l1);
    RotateBack(h.right);
  }

  // ----- the rounds

  /** The eight substitution-permutation tables, whatever they hold. */
  type Tables = (nat, word) -> word

  /** The four substitutions of a half rotated and mixed with the first key word of its round. */
  function OddBoxes(sp: Tables, work: word): word {
    sp(7, work & 0x3f) ^ sp(5, (work >> 8) & 0x3f) ^ sp(3, (work >> 16) & 0x3f) ^ sp(1, (work >> 24) & 0x3f)
  }

  /** The four substitutions of a half mixed with the second key word. */
  function EvenBoxes(sp: Tables, work: word): word {
    sp(8, work & 0x3f) ^ sp(6, (work >> 8) & 0x3f) ^ sp(4, (work >> 16) & 0x3f) ^ sp(2, (work >> 24) & 0x3f)
  }

  /** What one half and two key words contribute to the other half. */
  function Mix(sp: Tables, half: word, k0: word, k1: word): word {
    OddBoxes(sp, Ror4(half) ^ k0) ^ EvenBoxes(sp, half ^ k1)
  }

  /** A half taking up what the other half contributes. */
  function Plus(x: word, y: word): word {
    x ^ y
  }

  /** n rounds, each followed by an exchange of the halves. */
  function Rounds(sp: Tables, keys: seq<word>, h: Halves, n: nat): Halves
    requires 2 * n <= |keys|
  {
    if n == 0 then h
    else
      var g := Rounds(sp, keys, h, n - 1);
      Halves(g.right, Plus(g.left, Mix(sp, g.right, keys[2 * n - 2], keys[2 * n - 1])))
  }

  /** One block through the sixteen rounds. */
  function DesBlock(sp: Tables, keys: seq<word>, block: Halves): Halves
    requires |keys| == 32
  {
    FinalPermutation(Rounds(sp, keys, InitialPermutation(block), 16))
  }

  /** The key words in reverse order of their pairs. */
  ghost predicate Reversed(keys: seq<word>, keys': seq<word>) {
    && |keys| == |keys'| == 32
    && forall j | 0 <= j < 16 :: keys'[2 * j] == keys[30 - 2 * j] && keys'[2 * j + 1] == keys[31 - 2 * j]
  }

  /** Each round with the reversed key words takes one round back. */
  lemma {:induction false} RoundsCancel(sp: Tables, keys: seq<word>, keys': seq<word>, h: Halves, m: nat)
    requires Reversed(keys, keys') && m <= 16
    ensures var g, e := Rounds(sp, keys, h, 16), Rounds(sp, keys, h, 16 - m);
            Rounds(sp, keys', Halves(g.right, g.left), m) == Halves(e.right, e.left)
  {
    hide Mix, Rounds, Plus;
    var g := Rounds(sp, keys, h, 16);
    NoRounds(sp, keys', Halves(g.right, g.left));
    if m > 0 {
      RoundsCancel(sp, keys, keys', h, m - 1);
      var j := m - 1;
      assert keys'[2 * j] == keys[30 - 2 * j] && keys'[2 * j + 1] == keys[31 - 2 * j];
      OneRound(sp, keys, h, 16 - m);
      OneRound(sp, keys', Halves(g.right, g.left), j);
      var e := Rounds(sp, keys, h, 16 - m);
      XorCancels(e.left, Mix(sp, e.right, keys[30 - 2 * j], keys[31 - 2 * j]));
    }
  }

  lemma XorCancels(x: word, y: word)
    ensures Plus(Plus(x, y), y) == x
  {}

  /** A block put through the reversed key schedule comes back. */
  lemma DesInverse(sp: Tables, keys: seq<word>, keys': seq<word>, block: Halves)
    requires Reversed(keys, keys')
    ensures DesBlock(sp, keys', DesBlock(sp, keys, block)) == block
  {
    hide InitialPermutation, FinalPermutation, Rounds;
    var h := InitialPermutation(block);
    var g := Rounds(sp, keys, h, 16);
    InitialUndoesFinal(g);
    RoundsCancel(sp, keys, keys', h, 16);
    NoRounds(sp, keys, h);
    FinalUndoesInitial(block);
  }

  lemma NoRounds(sp: Tables, keys: seq<word>, h: Halves)
    ensures Rounds(sp, keys, h, 0) == h
  {}

  lemma ReversedBack(keys: seq<word>, keys': seq<word>)
    requires Reversed(keys, keys')
    ensures Reversed(keys', keys)
  {
    forall j | 0 <= j < 16
      ensures keys[2 * j] == keys'[30 - 2 * j] && keys[2 * j + 1] == keys'[31 - 2 * j]
    {
      var i := 15 - j;
      assert keys'[2 * i] == keys[30 - 2 * i] && keys'[2 * i + 1] == keys[31 - 2 * i];
    }
  }

  /** Two words of a block in place through permutation, rounds and permutation. */
  method DesFunc(sp: Tables, block: array<word>, keys: seq<word>)
    requires block.Length == 2 && |keys| == 32
    modifies block
    ensures Halves(block[0], block[1]) == DesBlock(sp, keys, Halves(old(block[0]), old(block[1])))
  {
    hide Rounds, InitialPermutation, FinalPermutation;
    var leftt, right := Permute(block[0], block[1]);
    leftt, right := RunRounds(sp, leftt, right, keys);
    var first, second := Unpermute(leftt, right);
    block[0], block[1] := first, second;
  }

  method RunRounds(sp: Tables, left0: word, right0: word, keys: seq<word>) returns (leftt: word, right: word)
    requires |keys| == 32
    ensures Halves(leftt, right) == Rounds(sp, keys, Halves(left0, right0), 16)
  {
    hide Rounds, Mix, Plus;
    leftt, right := left0, right0;
    ghost var h := Halves(leftt, right);
    NoRounds(sp, keys, h);
    var round := 0;
    while round < 8
      invariant 0 <= round <= 8
      invariant leftt == Rounds(sp, keys, h, 2 * round).left && right == Rounds(sp, keys, h, 2 * round).right
    {
      TwoRounds(sp, keys, h, 2 * round);
      leftt := MixInto(sp, leftt, right, keys[4 * round], keys[4 * round + 1]);
      right := MixInto(sp, right, leftt, keys[4 * round + 2], keys[4 * round + 3]);
      round := round + 1;
    }
  }

  /** Half a round: one half takes up the boxes of the other. */
  method MixInto(sp: Tables, target0: word, half: word, k0: word, k1: word) returns (target: word)
    ensures target == Plus(target0, Mix(sp, half, k0, k1))
  {
    hide OddBoxes, EvenBoxes, Ror4;
    target := target0;
    var work := Ror4(half) ^ k0;
    target := target ^ OddBoxes(sp, work);
    XorAssoc(target0, OddBoxes(sp, work), EvenBoxes(sp, half ^ k1));
    work := half ^ k1;
    target := target ^ EvenBoxes(sp, work);
  }

  lemma XorAssoc(x: word, y: word, z: word)
    ensures (x ^ y) ^ z == x ^ (y ^ z)
  {}

  method Permute(left: word, right: word) returns (leftt: word, rightt: word)
    ensures Halves(leftt, rightt) == InitialPermutation(Halves(left, right))
  {
    hide Exchange, SwapOdd, Rol1;
    leftt, rightt := left, right;
    var e := Exchange(leftt, rightt, 4, 0x0f0f0f0f);
    leftt, rightt := e.0, e.1;
    e := Exchange(leftt, rightt, 16, 0x0000ffff);
    leftt, rightt := e.0, e.1;
    e := Exchange(rightt, leftt, 2, 0x33333333);
    rightt, leftt := e.0, e.1;
    e := Exchange(rightt, leftt, 8, 0x00ff00ff);
    rightt, leftt := e.0, e.1;
    rightt := Rol1(rightt);
    e := SwapOdd(leftt, rightt);
    leftt, rightt := e.0, e.1;
    leftt := Rol1(leftt);
  }

  method Unpermute(left: word, right: word) returns (first: word, second: word)
    ensures Halves(first, second) == FinalPermutation(Halves(left, right))
  {
    hide Exchange, SwapOdd, Ror1;
    var leftt, rightt := left, Ror1(right);
    var e := SwapOdd(leftt, rightt);
    leftt, rightt := e.0, e.1;
    leftt := Ror1(leftt);
    e := Exchange(leftt, rightt, 8, 0x00ff00ff);
    leftt, rightt := e.0, e.1;
    e := Exchange(leftt, rightt, 2, 0x33333333);
    leftt, rightt := e.0, e.1;
    e := Exchange(rightt, leftt, 16, 0x0000ffff);
    rightt, leftt := e.0, e.1;
    e := Exchange(rightt, leftt, 4, 0x0f0f0f0f);
    rightt, leftt := e.0, e.1;
    first, second := rightt, leftt;
  }

  lemma TwoRounds(sp: Tables, keys: seq<word>, h: Halves, n: nat)
    requires 2 * n + 4 <= |keys|
    ensures var g, e := Rounds(sp, keys, h, n), Rounds(sp, keys, h, n + 2);
            && e.left == Plus(g.left, Mix(sp, g.right, keys[2 * n], keys[2 * n + 1]))
            && e.right == Plus(g.right, Mix(sp, e.left, keys[2 * n + 2], keys[2 * n + 3]))
  {
    hide Mix, Plus;
    OneRound(sp, keys, h, n);
    OneRound(sp, keys, h, n + 1);
  }

  lemma OneRound(sp: Tables, keys: seq<word>, h: Halves, n: nat)
    requires 2 * n + 2 <= |keys|
    ensures var g, e := Rounds(sp, keys, h, n), Rounds(sp, keys, h, n + 1);
            e.left == g.right && e.right == Plus(g.left, Mix(sp, g.right, keys[2 * n], keys[2 * n + 1]))
  {
    hide Mix, Plus;
  }

  // ----- the key schedule

  type KeyPosition = x: int | 0 <= x < 64
  type BitPosition = x: int | 0 <= x < 56
  type Rotation = x: int | 0 <= x <= 28

  const EN0: nat := 0
  const DE1: nat := 1

  const BYTE_BIT: seq<bv8> := [128, 64, 32, 16, 8, 4, 2, 1]

  /** A word with a single bit set. */
  type Mask = m: word | m != 0 && m & (m - 1) == 0 witness 1

  const BIG_BYTE: seq<Mask> := [
    0x800000, 0x400000, 0x200000, 0x100000, 0x80000, 0x40000, 0x20000, 0x10000,
    0x8000, 0x4000, 0x2000, 0x1000, 0x800, 0x400, 0x200, 0x100,
    0x80, 0x40, 0x20, 0x10, 0x8, 0x4, 0x2, 0x1]

  const PC1: seq<KeyPosition> :=
    [56, 48, 40, 32, 24, 16, 8, 0, 57, 49, 41, 33, 25, 17] + [9, 1, 58, 50, 42, 34, 26, 18, 10, 2, 59, 51, 43, 35]
    + [62, 54, 46, 38, 30, 22, 14, 6, 61, 53, 45, 37, 29, 21] + [13, 5, 60, 52, 44, 36, 28, 20, 12, 4, 27, 19, 11, 3]

  const PC2: seq<BitPosition> :=
    [13, 16, 10, 23, 0, 4, 2, 27, 14, 5, 20, 9] + [22, 18, 11, 3, 25, 7, 15, 6, 26, 19, 12, 1]
    + [40, 51, 30, 36, 46, 54, 29, 39, 50, 44, 32, 47] + [43, 48, 38, 55, 33, 52, 45, 41, 49, 35, 28, 31]

  const TOTROT: seq<Rotation> := [1, 2, 4, 6, 8, 10, 12, 14, 15, 17, 19, 21, 23, 25, 27, 28]

  /** Bit l of a key, the most significant bit of each byte first. */
  function KeyBit(key: seq<bv8>, l: KeyPosition): bool
    requires |key| == 8
  {
    key[l / 8] & BYTE_BIT[l % 8] == BYTE_BIT[l % 8]
  }

  /** The position that bit j of the two rotated 28-bit halves of round i comes from. */
  function Rotated(i: nat, j: BitPosition): BitPosition
    requires i < 16
  {
    var l := j + TOTROT[i];
    if l < (if j < 28 then 28 else 56) then l else l - 28
  }

  /** Bit j of the selected and rotated key of round i. */
  function RoundBit(key: seq<bv8>, i: nat, j: BitPosition): bool
    requires |key| == 8 && i < 16
  {
    KeyBit(key, PC1[Rotated(i, j)])
  }

  function Or(x: word, y: word): word {
    x | y
  }

  /** The first n bits of one of the two 24-bit words of round i. */
  function RawWord(key: seq<bv8>, i: nat, from: nat, n: nat): word
    requires |key| == 8 && i < 16 && n <= 24 && from <= 24
  {
    if n == 0 then 0
    else
      var w := RawWord(key, i, from, n - 1);
      if RoundBit(key, i, PC2[from + n - 1]) then Or(w, BIG_BYTE[n - 1]) else w
  }

  /** The two words of a round as the rounds use them. */
  function Cooked0(raw0: word, raw1: word): word {
    ((raw0 & 0x00fc0000) << 6) | ((raw0 & 0x00000fc0) << 10) | ((raw1 & 0x00fc0000) >> 10) | ((raw1 & 0x00000fc0) >> 6)
  }

  function Cooked1(raw0: word, raw1: word): word {
    ((raw0 & 0x0003f000) << 12) | ((raw0 & 0x0000003f) << 16) | ((raw1 & 0x0003f000) >> 4) | (raw1 & 0x0000003f)
  }

  /** Word k of the schedule of a key; decryption has the rounds in reverse. */
  function ScheduleWord(key: seq<bv8>, edf: nat, k: nat): word
    requires |key| == 8 && k < 32
  {
    var i := if edf == DE1 then 15 - k / 2 else k / 2;
    var raw0, raw1 := RawWord(key, i, 0, 24), RawWord(key, i, 24, 24);
    if k % 2 == 0 then Cooked0(raw0, raw1) else Cooked1(raw0, raw1)
  }

  /** The schedule of a key for one direction. */
  function Schedule(key: seq<bv8>, edf: nat): (keys: seq<word>)
    requires |key| == 8
    ensures |keys| == 32
  {
    seq(32, k requires 0 <= k < 32 => ScheduleWord(key, edf, k))
  }

  /** The two schedules of one key are each other's reverse. */
  lemma SchedulesReversed(key: seq<bv8>)
    requires |key| == 8
    ensures Reversed(Schedule(key, EN0), Schedule(key, DE1)) && Reversed(Schedule(key, DE1), Schedule(key, EN0))
  {
    hide RawWord, Cooked0, Cooked1;
    var en, de := Schedule(key, EN0), Schedule(key, DE1);
    forall j | 0 <= j < 16
      ensures de[2 * j] == en[30 - 2 * j] && de[2 * j + 1] == en[31 - 2 * j]
    {
      assert (2 * j) / 2 == j && (2 * j + 1) / 2 == j;
      assert (30 - 2 * j) / 2 == 15 - j && (31 - 2 * j) / 2 == 15 - j;
    }
    ReversedBack(en, de);
  }

  /** Selects the 56 bits of the key. */
  method SelectBits(key: seq<bv8>) returns (pc1m: seq<bool>)
    requires |key| == 8
    ensures |pc1m| == 56 && forall j | 0 <= j < 56 :: pc1m[j] == KeyBit(key, PC1[j])
  {
    pc1m := seq(56, _ => false);
    var j := 0;
    while j < 56
      invariant 0 <= j <= 56 && |pc1m| == 56 && forall x | 0 <= x < j :: pc1m[x] == KeyBit(key, PC1[x])
    {
      var l := PC1[j];
      var m := l % 8;
      pc1m := pc1m[j := key[l / 8] & BYTE_BIT[m] == BYTE_BIT[m]];
      j := j + 1;
    }
  }

  /** Rotates the two halves of the selected bits for round i. */
  method RotateBits(pc1m: seq<bool>, i: nat) returns (pcr: seq<bool>)
    requires |pc1m| == 56 && i < 16
    ensures |pcr| == 56 && forall j | 0 <= j < 56 :: pcr[j] == pc1m[Rotated(i, j)]
  {
    pcr := seq(56, _ => false);
    var j: int := 0;
    while j < 28
      invariant 0 <= j <= 28 && |pcr| == 56 && forall x | 0 <= x < j :: pcr[x] == pc1m[Rotated(i, x)]
    {
      var l: int := j + TOTROT[i];
      pcr := pcr[j := if l < 28 then pc1m[l] else pc1m[l - 28]];
      j := j + 1;
    }
    while j < 56
      invariant 28 <= j <= 56 && |pcr| == 56 && forall x | 0 <= x < j :: pcr[x] == pc1m[Rotated(i, x)]
    {
      var l: int := j + TOTROT[i];
      pcr := pcr[j := if l < 56 then pc1m[l] else pc1m[l - 28]];
      j := j + 1;
    }
  }

  /** Packs the rotated bits of round i into two words. */
  method PackBits(pcr: seq<bool>, ghost key: seq<bv8>, ghost i: nat) returns (raw0: word, raw1: word)
    requires |key| == 8 && i < 16 && |pcr| == 56 && forall j | 0 <= j < 56 :: pcr[j] == RoundBit(key, i, j)
    ensures raw0 == RawWord(key, i, 0, 24) && raw1 == RawWord(key, i, 24, 24)
  {
    hide Or, RoundBit;
    raw0, raw1 := 0, 0;
    var j := 0;
    while j < 24
      invariant 0 <= j <= 24 && raw0 == RawWord(key, i, 0, j) && raw1 == RawWord(key, i, 24, j)
    {
      if pcr[PC2[j]] {
        raw0 := Or(raw0, BIG_BYTE[j]);
      }
      if pcr[PC2[j + 24]] {
        raw1 := Or(raw1, BIG_BYTE[j]);
      }
      j := j + 1;
    }
  }

  /** The key schedule of one DES key. */
  method Deskey(key: seq<bv8>, edf: nat) returns (keyout: seq<word>)
    requires |key| == 8
    ensures keyout == Schedule(key, edf)
  {
    hide RawWord, RoundBit, KeyBit, Cooked0, Cooked1;
    var pc1m := SelectBits(key);
    var kn: seq<word> := seq(32, _ => 0);
    var i := 0;
    while i < 16
      invariant 0 <= i <= 16 && |kn| == 32
      invariant forall x | 0 <= x < i :: Packed(kn, key, edf, x)
    {
      var m := if edf == DE1 then 2 * (15 - i) else 2 * i;
      var n := m + 1;
      var pcr := RotateBits(pc1m, i);
      RoundBits(key, i, pc1m, pcr);
      var raw0, raw1 := PackBits(pcr, key, i);
      ghost var was := kn;
      kn := kn[m := raw0][n := raw1];
      forall x | 0 <= x < i
        ensures Packed(kn, key, edf, x)
      {
        assert Packed(was, key, edf, x);
      }
      i := i + 1;
    }
    keyout := Cookey(kn, key, edf);
  }

  lemma RoundBits(key: seq<bv8>, i: nat, pc1m: seq<bool>, pcr: seq<bool>)
    requires |key| == 8 && i < 16 && |pc1m| == |pcr| == 56
    requires forall j | 0 <= j < 56 :: pc1m[j] == KeyBit(key, PC1[j])
    requires forall j | 0 <= j < 56 :: pcr[j] == pc1m[Rotated(i, j)]
    ensures forall j | 0 <= j < 56 :: pcr[j] == RoundBit(key, i, j)
  {}

  /** Round i's two words are in their place in the raw schedule. */
  ghost predicate Packed(kn: seq<word>, key: seq<bv8>, edf: nat, i: nat)
    requires |kn| == 32 && |key| == 8 && i < 16
  {
    var m := if edf == DE1 then 2 * (15 - i) else 2 * i;
    kn[m] == RawWord(key, i, 0, 24) && kn[m + 1] == RawWord(key, i, 24, 24)
  }

  /** Rearranges the bits of each pair of words. */
  method Cookey(kn: seq<word>, ghost key: seq<bv8>, ghost edf: nat) returns (keyout: seq<word>)
    requires |kn| == 32 && |key| == 8 && forall x | 0 <= x < 16 :: Packed(kn, key, edf, x)
    ensures |keyout| == 32 && forall k | 0 <= k < 32 :: keyout[k] == ScheduleWord(key, edf, k)
  {
    hide RawWord, Cooked0, Cooked1;
    keyout := seq(32, _ => 0);
    var i := 0;
    while i < 16
      invariant 0 <= i <= 16 && |keyout| == 32
      invariant forall k | 0 <= k < 2 * i :: keyout[k] == ScheduleWord(key, edf, k)
    {
      assert Packed(kn, key, edf, if edf == DE1 then 15 - i else i);
      var raw0, raw1 := kn[2 * i], kn[2 * i + 1];
      keyout := keyout[2 * i := Cooked0(raw0, raw1)][2 * i + 1 := Cooked1(raw0, raw1)];
      i := i + 1;
    }
  }

  // ----- words and bytes

  /** The byte of a word that stands s bits above its end. */
  function Part(x: word, s: nat): word
    requires s < 32
  {
    (x >> s) & 255
  }

  /** A word from four bytes, most significant first. */
  function Join(a: word, b: word, c: word, d: word): word {
    (a << 24) | (b << 16) | (c << 8) | d
  }

  lemma JoinParts(x: word)
    ensures Join(Part(x, 24), Part(x, 16), Part(x, 8), Part(x, 0)) == x
  {}

  lemma PartsOfJoin(a: word, b: word, c: word, d: word)
    requires a <= 255 && b <= 255 && c <= 255 && d <= 255
    ensures Part(Join(a, b, c, d), 24) == a && Part(Join(a, b, c, d), 16) == b
    ensures Part(Join(a, b, c, d), 8) == c && Part(Join(a, b, c, d), 0) == d
  {}

  function Narrow(y: word): bv8 {
    (y & 255) as bv8
  }

  function Widen(b: bv8): (y: word)
    ensures y <= 255
  {
    b as word
  }

  lemma NarrowWiden(b: bv8, x: word, s: nat)
    requires s < 32
    ensures Narrow(Widen(b)) == b && Widen(Narrow(Part(x, s))) == Part(x, s)
  {}

  type block = b: seq<bv8> | |b| == 8 witness [0, 0, 0, 0, 0, 0, 0, 0]

  /** The two words of a block of bytes, and back. */
  function LoadBlock(b: block): Halves {
    Halves(Join(Widen(b[0]), Widen(b[1]), Widen(b[2]), Widen(b[3])), Join(Widen(b[4]), Widen(b[5]), Widen(b[6]), Widen(b[7])))
  }

  function StoreBlock(h: Halves): block {
    [Narrow(Part(h.left, 24)), Narrow(Part(h.left, 16)), Narrow(Part(h.left, 8)), Narrow(Part(h.left, 0)),
     Narrow(Part(h.right, 24)), Narrow(Part(h.right, 16)), Narrow(Part(h.right, 8)), Narrow(Part(h.right, 0))]
  }

  lemma LoadStored(h: Halves)
    ensures LoadBlock(StoreBlock(h)) == h
  {
    hide Join, Part, Narrow, Widen;
    StoredWord(h.left);
    StoredWord(h.right);
  }

  lemma StoredWord(x: word)
    ensures Join(Widen(Narrow(Part(x, 24))), Widen(Narrow(Part(x, 16))), Widen(Narrow(Part(x, 8))), Widen(Narrow(Part(x, 0)))) == x
  {
    hide Join, Part, Narrow, Widen;
    NarrowWiden(0, x, 24);
    NarrowWiden(0, x, 16);
    NarrowWiden(0, x, 8);
    NarrowWiden(0, x, 0);
    JoinParts(x);
  }

  lemma StoreLoaded(b: block)
    ensures StoreBlock(LoadBlock(b)) == b
  {
    hide Join, Part, Narrow, Widen;
    LoadedWord(b[0], b[1], b[2], b[3]);
    LoadedWord(b[4], b[5], b[6], b[7]);
  }

  lemma LoadedWord(a: bv8, b: bv8, c: bv8, d: bv8)
    ensures var x := Join(Widen(a), Widen(b), Widen(c), Widen(d));
            Narrow(Part(x, 24)) == a && Narrow(Part(x, 16)) == b && Narrow(Part(x, 8)) == c && Narrow(Part(x, 0)) == d
  {
    hide Join, Part, Narrow, Widen;
    PartsOfJoin(Widen(a), Widen(b), Widen(c), Widen(d));
    NarrowWiden(a, 0, 0);
    NarrowWiden(b, 0, 0);
    NarrowWiden(c, 0, 0);
    NarrowWiden(d, 0, 0);
  }

  // ----- three keys

  ghost predicate Schedules(ks: seq<seq<word>>) {
    |ks| == 3 && |ks[0]| == |ks[1]| == |ks[2]| == 32
  }

  /** One block of bytes through three schedules. */
  ghost function EcbBlock(sp: Tables, ks: seq<seq<word>>, b: block): block
    requires Schedules(ks)
  {
    StoreBlock(DesBlock(sp, ks[2], DesBlock(sp, ks[1], DesBlock(sp, ks[0], LoadBlock(b)))))
  }

  /** The decryption schedules undo the encryption schedules, in opposite order. */
  ghost predicate Opposite(ek: seq<seq<word>>, dk: seq<seq<word>>) {
    Schedules(ek) && Schedules(dk) && Reversed(ek[0], dk[2]) && Reversed(ek[1], dk[1]) && Reversed(ek[2], dk[0])
  }

  lemma EcbInverse(sp: Tables, ek: seq<seq<word>>, dk: seq<seq<word>>, b: block)
    requires Opposite(ek, dk)
    ensures EcbBlock(sp, dk, EcbBlock(sp, ek, b)) == b
  {
    hide DesBlock, LoadBlock, StoreBlock, Reversed;
    var h0 := LoadBlock(b);
    var h1 := DesBlock(sp, ek[0], h0);
    var h2 := DesBlock(sp, ek[1], h1);
    LoadStored(DesBlock(sp, ek[2], h2));
    DesInverse(sp, ek[2], dk[0], h2);
    DesInverse(sp, ek[1], dk[1], h1);
    DesInverse(sp, ek[0], dk[2], h0);
    StoreLoaded(b);
  }

  // ----- chaining

  function XorBytes(a: seq<bv8>, b: seq<bv8>): (c: seq<bv8>)
    requires |a| == |b|
    ensures |c| == |a|
  {
    seq(|a|, i requires 0 <= i < |a| => a[i] ^ b[i])
  }

  lemma XorBytesBack(a: seq<bv8>, b: seq<bv8>)
    requires |a| == |b|
    ensures XorBytes(XorBytes(a, b), b) == a
  {
    forall i | 0 <= i < |a|
      ensures (a[i] ^ b[i]) ^ b[i] == a[i]
    {
      XorByteBack(a[i], b[i]);
    }
  }

  lemma XorByteBack(a: bv8, b: bv8)
    ensures (a ^ b) ^ b == a
  {}

  /** The chaining value after some ciphertext. */
  function LastBlock(iv: block, ct: seq<bv8>): block
    requires |ct| % 8 == 0
  {
    if ct == [] then iv else ct[|ct| - 8..]
  }

  ghost function CbcEncrypt(sp: Tables, ks: seq<seq<word>>, iv: block, pt: seq<bv8>): (ct: seq<bv8>)
    requires Schedules(ks) && |pt| % 8 == 0
    ensures |ct| == |pt|
  {
    if pt == [] then []
    else
      var n := |pt| - 8;
      var ct := CbcEncrypt(sp, ks, iv, pt[..n]);
      ct + EcbBlock(sp, ks, XorBytes(pt[n..], LastBlock(iv, ct)))
  }

  ghost function CbcDecrypt(sp: Tables, ks: seq<seq<word>>, iv: block, ct: seq<bv8>): (pt: seq<bv8>)
    requires Schedules(ks) && |ct| % 8 == 0
    ensures |pt| == |ct|
  {
    if ct == [] then []
    else
      var n := |ct| - 8;
      CbcDecrypt(sp, ks, iv, ct[..n]) + XorBytes(EcbBlock(sp, ks, ct[n..]), LastBlock(iv, ct[..n]))
  }

  /** Decryption undoes encryption, over any number of blocks. */
  lemma {:induction false} CbcInverse(sp: Tables, ek: seq<seq<word>>, dk: seq<seq<word>>, iv: block, pt: seq<bv8>)
    requires Opposite(ek, dk) && |pt| % 8 == 0
    ensures CbcDecrypt(sp, dk, iv, CbcEncrypt(sp, ek, iv, pt)) == pt
  {
    hide EcbBlock, Reversed;
    if pt != [] {
      var n := |pt| - 8;
      var ct := CbcEncrypt(sp, ek, iv, pt[..n]);
      CbcInverse(sp, ek, dk, iv, pt[..n]);
      var b := XorBytes(pt[n..], LastBlock(iv, ct));
      EcbInverse(sp, ek, dk, b);
      XorBytesBack(pt[n..], LastBlock(iv, ct));
      var all := CbcEncrypt(sp, ek, iv, pt);
      assert all[..n] == ct && all[n..] == EcbBlock(sp, ek, b);
    }
  }

  lemma WholeBlocks(m: nat, n: nat)
    requires m % 8 == 0 && n % 8 == 0
    ensures (m + n) % 8 == 0 && (n > 0 ==> n >= 8 && (n - 8) % 8 == 0)
  {}

  /** Encrypting in two calls, the second from where the first left the chain, is encrypting in one. */
  lemma {:induction false} CbcInParts(sp: Tables, ks: seq<seq<word>>, iv: block, a: seq<bv8>, b: seq<bv8>)
    requires Schedules(ks) && |a| % 8 == 0 && |b| % 8 == 0
    ensures |a + b| % 8 == 0
    ensures var ct := CbcEncrypt(sp, ks, iv, a);
            CbcEncrypt(sp, ks, iv, a + b) == ct + CbcEncrypt(sp, ks, LastBlock(iv, ct), b)
  {
    hide EcbBlock, Schedules, XorBytes, LastBlock;
    var ct := CbcEncrypt(sp, ks, iv, a);
    WholeBlocks(|a|, |b|);
    if b == [] {
      assert a + b == a;
      assert CbcEncrypt(sp, ks, LastBlock(iv, ct), b) == [];
    } else {
      var n := |b| - 8;
      CbcInParts(sp, ks, iv, a, b[..n]);
      assert (a + b)[..|a| + n] == a + b[..n] && (a + b)[|a| + n..] == b[n..];
      LastOfParts(iv, ct, CbcEncrypt(sp, ks, LastBlock(iv, ct), b[..n]));
    }
  }

  lemma LastOfParts(iv: block, a: seq<bv8>, b: seq<bv8>)
    requires |a| % 8 == 0 && |b| % 8 == 0
    ensures |a + b| % 8 == 0 && LastBlock(iv, a + b) == LastBlock(LastBlock(iv, a), b)
  {
    WholeBlocks(|a|, |b|);
    if b == [] {
      assert a + b == a;
    } else {
      assert (a + b)[|a + b| - 8..] == b[|b| - 8..];
    }
  }

  /** s with the block at position t replaced. */
  function Replaced(s: seq<bv8>, t: nat, b: block): seq<bv8>
    requires t + 8 <= |s|
  {
    s[..t] + b + s[t + 8..]
  }

  /** The context of one direction of a 3DES connection. */
  class Des3Cbc {
    var ek: seq<seq<word>>
    var dk: seq<seq<word>>
    var iv: block

    ghost predicate Valid()
      reads this
    {
      Opposite(ek, dk)
    }

    /** Sets up the six schedules and the chaining value; a key of another length is refused. */
    method Init(initial: block, key: seq<bv8>) returns (res: int)
      modifies this
      ensures res == if |key| == 24 then 0 else -1
      ensures res == 0 ==> Valid() && iv == initial && ek == KeySchedules(key) && dk == InverseSchedules(key)
    {
      if |key| != 24 {
        return -1;
      }
      Des3Setup(key);
      var x := 0;
      var copy: seq<bv8> := [0, 0, 0, 0, 0, 0, 0, 0];
      while x < 8
        invariant 0 <= x <= 8 && |copy| == 8 && copy[..x] == initial[..x] && Valid() && ek == KeySchedules(key) && dk == InverseSchedules(key)
      {
        copy := copy[x := initial[x]];
        x := x + 1;
      }
      iv := copy;
      res := 0;
    }

    method Des3Setup(key: seq<bv8>)
      requires |key| == 24
      modifies `ek, `dk
      ensures Valid() && ek == KeySchedules(key) && dk == InverseSchedules(key)
    {
      hide Schedule, Reversed;
      var e0 := Deskey(key[..8], EN0);
      var e1 := Deskey(key[8..16], DE1);
      var e2 := Deskey(key[16..], EN0);
      var d2 := Deskey(key[..8], DE1);
      var d1 := Deskey(key[8..16], EN0);
      var d0 := Deskey(key[16..], DE1);
      SchedulesOpposite(key);
      ek := [e0, e1, e2];
      dk := [d0, d1, d2];
    }

    /** Encrypts len bytes, also in place; a length that is not whole blocks is refused. */
    method Encrypt(sp: Tables, pt: array<bv8>, from: nat, ct: array<bv8>, to: nat, len: nat) returns (res: int)
      requires Valid() && from + len <= pt.Length && to + len <= ct.Length && (pt != ct || from == to)
      modifies `iv, ct
      ensures res == if len % 8 == 0 then len else -1
      ensures res == -1 ==> iv == old(iv) && ct[..] == old(ct[..])
      ensures res != -1 ==> ct[to..to + len] == CbcEncrypt(sp, ek, old(iv), old(pt[from..from + len]))
      ensures res != -1 ==> iv == LastBlock(old(iv), ct[to..to + len])
      ensures forall k | 0 <= k < ct.Length && !(to <= k < to + len) :: ct[k] == old(ct[k])
    {
      if len % 8 != 0 {
        return -1;
      }
      EncryptBlocks(sp, pt, from, ct, to, len);
      res := len;
    }

    method EncryptBlocks(sp: Tables, pt: array<bv8>, from: nat, ct: array<bv8>, to: nat, len: nat)
      requires Valid() && from + len <= pt.Length && to + len <= ct.Length && (pt != ct || from == to) && len % 8 == 0
      modifies `iv, ct
      ensures ct[to..to + len] == CbcEncrypt(sp, ek, old(iv), old(pt[from..from + len]))
      ensures iv == LastBlock(old(iv), ct[to..to + len])
      ensures forall k | 0 <= k < ct.Length && !(to <= k < to + len) :: ct[k] == old(ct[k])
    {
      hide EcbBlock, CbcEncrypt, Opposite, XorBytes, LastBlock, Placed, Encrypted, Replaced;
      ghost var iv0, all, c0 := iv, pt[..], ct[..];
      ghost var p0, out := all[from..from + len], [];
      OppositeShape(ek, dk);
      EncryptedStart(sp, ek, iv0, p0);
      PlacedNothing(c0, to);
      var i := 0;
      while i < len
        invariant 0 <= i <= len && i % 8 == 0
        invariant pt != ct ==> pt[..] == all
        invariant Encrypted(sp, ek, iv0, p0, i, out, iv) && Placed(ct[..], c0, to, out)
      {
        NextBlock(i, len);
        EncryptedShape(sp, ek, iv0, p0, i, out, iv);
        BlockToRead(pt[..], all, from, len, i, pt == ct, c0, to, out);
        EncryptedStep(sp, ek, iv0, p0, i, out, iv);
        ghost var was := ct[..];
        EncryptStep(sp, pt, from + i, ct, to + i);
        NextPlaced(was, c0, to, out, iv);
        out := out + iv;
        i := i + 8;
      }
      EncryptedEnd(sp, ek, iv0, p0, out, iv);
      PlacedWhole(ct[..], c0, to, out);
    }

    /** Decrypts len bytes, also in place. */
    method Decrypt(sp: Tables, ct: array<bv8>, from: nat, pt: array<bv8>, to: nat, len: nat) returns (res: int)
      requires Valid() && from + len <= ct.Length && to + len <= pt.Length && (pt != ct || from == to)
      modifies `iv, pt
      ensures res == if len % 8 == 0 then len else -1
      ensures res == -1 ==> iv == old(iv) && pt[..] == old(pt[..])
      ensures res != -1 ==> pt[to..to + len] == CbcDecrypt(sp, dk, old(iv), old(ct[from..from + len]))
      ensures res != -1 ==> iv == LastBlock(old(iv), old(ct[from..from + len]))
      ensures forall k | 0 <= k < pt.Length && !(to <= k < to + len) :: pt[k] == old(pt[k])
    {
      if len % 8 != 0 {
        return -1;
      }
      DecryptBlocks(sp, ct, from, pt, to, len);
      res := len;
    }

    method DecryptBlocks(sp: Tables, ct: array<bv8>, from: nat, pt: array<bv8>, to: nat, len: nat)
      requires Valid() && from + len <= ct.Length && to + len <= pt.Length && (pt != ct || from == to) && len % 8 == 0
      modifies `iv, pt
      ensures pt[to..to + len] == CbcDecrypt(sp, dk, old(iv), old(ct[from..from + len]))
      ensures iv == LastBlock(old(iv), old(ct[from..from + len]))
      ensures forall k | 0 <= k < pt.Length && !(to <= k < to + len) :: pt[k] == old(pt[k])
    {
      hide EcbBlock, CbcDecrypt, Opposite, XorBytes, LastBlock, Placed, Decrypted, Replaced;
      ghost var iv0, all, p0 := iv, ct[..], pt[..];
      ghost var c0, out := all[from..from + len], [];
      OppositeShape(ek, dk);
      DecryptedStart(sp, dk, iv0, c0);
      PlacedNothing(p0, to);
      var i := 0;
      while i < len
        invariant 0 <= i <= len && i % 8 == 0
        invariant pt != ct ==> ct[..] == all
        invariant Decrypted(sp, dk, iv0, c0, i, out, iv) && Placed(pt[..], p0, to, out)
      {
        NextBlock(i, len);
        DecryptedShape(sp, dk, iv0, c0, i, out, iv);
        BlockToRead(ct[..], all, from, len, i, pt == ct, p0, to, out);
        DecryptedStep(sp, dk, iv0, c0, i, out, iv);
        ghost var was := pt[..];
        ghost var b := DecryptStep(sp, ct, from + i, pt, to + i);
        NextPlaced(was, p0, to, out, b);
        out := out + b;
        i := i + 8;
      }
      DecryptedEnd(sp, dk, iv0, c0, out, iv);
      PlacedWhole(pt[..], p0, to, out);
    }

    /** One block: decrypt, keep the ciphertext aside in case it is about to be overwritten, combine. */
    method DecryptStep(sp: Tables, ct: array<bv8>, f: nat, pt: array<bv8>, t: nat) returns (ghost b: block)
      requires Schedules(dk) && f + 8 <= ct.Length && t + 8 <= pt.Length
      modifies `iv, pt
      ensures iv == old(ct[..])[f..f + 8] && b == XorBytes(EcbBlock(sp, dk, iv), old(iv))
      ensures pt[..] == Replaced(old(pt[..]), t, b)
    {
      hide EcbBlock;
      assert ct[..][f..f + 8] == ct[f..f + 8];
      var tmp := EcbEncrypt(sp, dk, ct[f..f + 8]);
      var tmp2: block := ct[f..f + 8];
      var out: block := [0, 0, 0, 0, 0, 0, 0, 0];
      var x := 0;
      while x < 8
        invariant 0 <= x <= 8 && |out| == 8 && forall k | 0 <= k < x :: out[k] == tmp[k] ^ iv[k]
      {
        out := out[x := tmp[x] ^ iv[x]];
        x := x + 1;
      }
      assert out == XorBytes(tmp, iv);
      CopyBlock(out, pt, t);
      b := out;
      iv := tmp2;
    }

    /** One block: combine with the chaining value, encrypt, keep the ciphertext for the next. */
    method EncryptStep(sp: Tables, pt: array<bv8>, f: nat, ct: array<bv8>, t: nat)
      requires Schedules(ek) && f + 8 <= pt.Length && t + 8 <= ct.Length
      modifies `iv, ct
      ensures iv == EcbBlock(sp, ek, XorBytes(old(pt[..])[f..f + 8], old(iv)))
      ensures ct[..] == Replaced(old(ct[..]), t, iv)
    {
      hide EcbBlock, XorBytes;
      assert pt[..][f..f + 8] == pt[f..f + 8];
      var tmp := XorWith(pt, f, iv);
      var r := EcbEncrypt(sp, ek, tmp);
      CopyBlock(r, ct, t);
      iv := r;
    }
  }

  /** The first i bytes of p are encrypted as out, and iv is where the chain stands. */
  ghost predicate Encrypted(sp: Tables, ks: seq<seq<word>>, iv0: block, p: seq<bv8>, i: nat, out: seq<bv8>, iv: block)
    requires Schedules(ks)
  {
    i % 8 == 0 && i <= |p| && out == CbcEncrypt(sp, ks, iv0, p[..i]) && iv == LastBlock(iv0, out)
  }

  lemma EncryptedStart(sp: Tables, ks: seq<seq<word>>, iv0: block, p: seq<bv8>)
    requires Schedules(ks)
    ensures Encrypted(sp, ks, iv0, p, 0, [], iv0)
  {}

  lemma EncryptedShape(sp: Tables, ks: seq<seq<word>>, iv0: block, p: seq<bv8>, i: nat, out: seq<bv8>, iv: block)
    requires Schedules(ks) && Encrypted(sp, ks, iv0, p, i, out, iv)
    ensures |out| == i
  {}

  lemma EncryptedStep(sp: Tables, ks: seq<seq<word>>, iv0: block, p: seq<bv8>, i: nat, out: seq<bv8>, iv: block)
    requires Schedules(ks) && Encrypted(sp, ks, iv0, p, i, out, iv) && i + 8 <= |p|
    ensures var b := EcbBlock(sp, ks, XorBytes(p[i..i + 8], iv));
            Encrypted(sp, ks, iv0, p, i + 8, out + b, b)
  {
    hide EcbBlock;
    assert p[..i + 8][..i] == p[..i] && p[..i + 8][i..] == p[i..i + 8];
    LastOfNext(iv0, out, EcbBlock(sp, ks, XorBytes(p[i..i + 8], iv)));
  }

  lemma EncryptedEnd(sp: Tables, ks: seq<seq<word>>, iv0: block, p: seq<bv8>, out: seq<bv8>, iv: block)
    requires Schedules(ks) && Encrypted(sp, ks, iv0, p, |p|, out, iv)
    ensures |p| % 8 == 0 && |out| == |p| && out == CbcEncrypt(sp, ks, iv0, p) && iv == LastBlock(iv0, out)
  {
    assert p[..|p|] == p;
  }

  /** The first i bytes of c are decrypted as out, and iv is where the chain stands. */
  ghost predicate Decrypted(sp: Tables, ks: seq<seq<word>>, iv0: block, c: seq<bv8>, i: nat, out: seq<bv8>, iv: block)
    requires Schedules(ks)
  {
    i % 8 == 0 && i <= |c| && out == CbcDecrypt(sp, ks, iv0, c[..i]) && iv == LastBlock(iv0, c[..i])
  }

  lemma DecryptedStart(sp: Tables, ks: seq<seq<word>>, iv0: block, c: seq<bv8>)
    requires Schedules(ks)
    ensures Decrypted(sp, ks, iv0, c, 0, [], iv0)
  {}

  lemma DecryptedShape(sp: Tables, ks: seq<seq<word>>, iv0: block, c: seq<bv8>, i: nat, out: seq<bv8>, iv: block)
    requires Schedules(ks) && Decrypted(sp, ks, iv0, c, i, out, iv)
    ensures |out| == i
  {}

  lemma DecryptedStep(sp: Tables, ks: seq<seq<word>>, iv0: block, c: seq<bv8>, i: nat, out: seq<bv8>, iv: block)
    requires Schedules(ks) && Decrypted(sp, ks, iv0, c, i, out, iv) && i + 8 <= |c|
    ensures Decrypted(sp, ks, iv0, c, i + 8, out + XorBytes(EcbBlock(sp, ks, c[i..i + 8]), iv), c[i..i + 8])
  {
    hide EcbBlock;
    assert c[..i + 8][..i] == c[..i] && c[..i + 8][i..] == c[i..i + 8];
    LastOfNext(iv0, c[..i], c[i..i + 8]);
    assert c[..i] + c[i..i + 8] == c[..i + 8];
  }

  lemma DecryptedEnd(sp: Tables, ks: seq<seq<word>>, iv0: block, c: seq<bv8>, out: seq<bv8>, iv: block)
    requires Schedules(ks) && Decrypted(sp, ks, iv0, c, |c|, out, iv)
    ensures |c| % 8 == 0 && |out| == |c| && out == CbcDecrypt(sp, ks, iv0, c) && iv == LastBlock(iv0, c)
  {
    assert c[..|c|] == c;
  }

  lemma LastOfNext(iv: block, out: seq<bv8>, b: block)
    requires |out| % 8 == 0
    ensures |out + b| % 8 == 0 && LastBlock(iv, out + b) == b
  {
    WholeBlocks(|out|, 8);
    assert (out + b)[|out + b| - 8..] == b;
  }

  /** The next block to read is still as it was, in place or not. */
  lemma BlockToRead(p: seq<bv8>, all: seq<bv8>, from: nat, len: nat, i: nat, inPlace: bool, c0: seq<bv8>, to: nat, out: seq<bv8>)
    requires i + 8 <= len && from + len <= |all| && |out| == i
    requires if inPlace then all == c0 && from == to && Placed(p, c0, to, out) else p == all
    ensures |p| == |all| && p[from + i..from + i + 8] == all[from..from + len][i..i + 8]
  {
    if inPlace {
      PlacedBehind(p, c0, to, out, 8);
      SliceOfSlice(c0, to, len, i, 8);
    } else {
      SliceOfSlice(all, from, len, i, 8);
    }
  }

  lemma NextPlaced(c: seq<bv8>, c0: seq<bv8>, to: nat, out: seq<bv8>, b: block)
    requires Placed(c, c0, to, out) && to + |out| + 8 <= |c0|
    ensures |c| == |c0| && Placed(Replaced(c, to + |out|, b), c0, to, out + b)
  {
    PlacedNext(c, c0, to, out, Replaced(c, to + |out|, b), b);
  }

  lemma OppositeShape(ek: seq<seq<word>>, dk: seq<seq<word>>)
    requires Opposite(ek, dk)
    ensures Schedules(ek) && Schedules(dk)
  {}

  lemma NextBlock(i: nat, len: nat)
    requires i < len && i % 8 == 0 && len % 8 == 0
    ensures i + 8 <= len && (i + 8) % 8 == 0
  {}

  /** The block at a position, combined with the chaining value. */
  method XorWith(pt: array<bv8>, at: nat, iv: block) returns (tmp: block)
    requires at + 8 <= pt.Length
    ensures tmp == XorBytes(pt[at..at + 8], iv)
  {
    tmp := [0, 0, 0, 0, 0, 0, 0, 0];
    var x := 0;
    while x < 8
      invariant 0 <= x <= 8 && |tmp| == 8 && forall k | 0 <= k < x :: tmp[k] == pt[at + k] ^ iv[k]
    {
      tmp := tmp[x := pt[at + x] ^ iv[x]];
      x := x + 1;
    }
  }

  method CopyBlock(b: block, ct: array<bv8>, at: nat)
    requires at + 8 <= ct.Length
    modifies ct
    ensures ct[..] == Replaced(old(ct[..]), at, b)
  {
    ghost var was := ct[..];
    var x := 0;
    while x < 8
      invariant 0 <= x <= 8 && forall k | 0 <= k < x :: ct[at + k] == b[k]
      invariant forall k | 0 <= k < ct.Length && !(at <= k < at + 8) :: ct[k] == was[k]
    {
      ct[at + x] := b[x];
      x := x + 1;
    }
    forall k | 0 <= k < ct.Length ensures ct[..][k] == Replaced(was, at, b)[k] {
      if at <= k < at + 8 {
        assert ct[at + (k - at)] == b[k - at];
      }
    }
  }

  /** Three passes over the two words of a block. */
  method EcbEncrypt(sp: Tables, ks: seq<seq<word>>, b: block) returns (r: block)
    requires Schedules(ks)
    ensures r == EcbBlock(sp, ks, b)
  {
    hide DesBlock, LoadBlock, StoreBlock;
    var work := new word[2];
    var h := LoadBlock(b);
    work[0], work[1] := h.left, h.right;
    DesFunc(sp, work, ks[0]);
    DesFunc(sp, work, ks[1]);
    DesFunc(sp, work, ks[2]);
    r := StoreBlock(Halves(work[0], work[1]));
  }

  /** The encryption schedules of a 24-byte key: encrypt, decrypt, encrypt. */
  function KeySchedules(key: seq<bv8>): seq<seq<word>>
    requires |key| == 24
  {
    [Schedule(key[..8], EN0), Schedule(key[8..16], DE1), Schedule(key[16..], EN0)]
  }

  /** The decryption schedules of a 24-byte key: the directions and the order of the keys exchanged. */
  function InverseSchedules(key: seq<bv8>): seq<seq<word>>
    requires |key| == 24
  {
    [Schedule(key[16..], DE1), Schedule(key[8..16], EN0), Schedule(key[..8], DE1)]
  }

  lemma SchedulesOpposite(key: seq<bv8>)
    requires |key| == 24
    ensures Opposite(KeySchedules(key), InverseSchedules(key))
  {
    hide Schedule, Reversed;
    SchedulesReversed(key[..8]);
    SchedulesReversed(key[8..16]);
    SchedulesReversed(key[16..]);
  }
}
