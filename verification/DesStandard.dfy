/** The Data Encryption Standard as FIPS 46-3 prints it: strings of bits, counted from 1, and the tables that say where
    each bit goes. */
module DesStandard {
  datatype Bit = Zero | One

  type bits = seq<Bit>

  type Half = s: bits | |s| == 32 witness seq(32, _ => Zero)

  type Six = s: bits | |s| == 6 witness seq(6, _ => Zero)

  type Table = seq<seq<nat>>

  /** Bit p of a string, counted from 1. */
  function At(s: bits, p: nat): Bit {
    if 1 <= p <= |s| then s[p - 1] else Zero
  }

  function Entry(t: Table, r: nat, c: nat): nat {
    if r < |t| && c < |t[r]| then t[r][c] else 0
  }

  /** Addition modulo 2. */
  function Sum(a: Bit, b: Bit): Bit {
    if a == b then Zero else One
  }

  function Xor(a: bits, b: bits): (c: bits)
    requires |a| == |b|
    ensures |c| == |a|
  {
    seq(|a|, i requires 0 <= i < |a| => Sum(a[i], b[i]))
  }

  // ----- the tables

  /** The initial permutation: the bits of the input in the order they come out. */
  const INITIAL: Table := [
    [58, 50, 42, 34, 26, 18, 10, 2], [60, 52, 44, 36, 28, 20, 12, 4],
    [62, 54, 46, 38, 30, 22, 14, 6], [64, 56, 48, 40, 32, 24, 16, 8],
    [57, 49, 41, 33, 25, 17, 9, 1], [59, 51, 43, 35, 27, 19, 11, 3],
    [61, 53, 45, 37, 29, 21, 13, 5], [63, 55, 47, 39, 31, 23, 15, 7]]

  /** Its inverse, at the end. */
  const FINAL: Table := [
    [40, 8, 48, 16, 56, 24, 64, 32], [39, 7, 47, 15, 55, 23, 63, 31],
    [38, 6, 46, 14, 54, 22, 62, 30], [37, 5, 45, 13, 53, 21, 61, 29],
    [36, 4, 44, 12, 52, 20, 60, 28], [35, 3, 43, 11, 51, 19, 59, 27],
    [34, 2, 42, 10, 50, 18, 58, 26], [33, 1, 41, 9, 49, 17, 57, 25]]

  /** The bits of a half that each of the eight boxes is given. */
  const EXPANSION: Table := [
    [32, 1, 2, 3, 4, 5], [4, 5, 6, 7, 8, 9], [8, 9, 10, 11, 12, 13], [12, 13, 14, 15, 16, 17],
    [16, 17, 18, 19, 20, 21], [20, 21, 22, 23, 24, 25], [24, 25, 26, 27, 28, 29], [28, 29, 30, 31, 32, 1]]

  /** The 56 bits of the key that are used: four rows for the one half, four for the other. */
  const CHOICE1: Table := [
    [57, 49, 41, 33, 25, 17, 9], [1, 58, 50, 42, 34, 26, 18], [10, 2, 59, 51, 43, 35, 27], [19, 11, 3, 60, 52, 44, 36],
    [63, 55, 47, 39, 31, 23, 15], [7, 62, 54, 46, 38, 30, 22], [14, 6, 61, 53, 45, 37, 29], [21, 13, 5, 28, 20, 12, 4]]

  /** The 48 of them that each round uses, in eight groups of six. */
  const CHOICE2: Table := [
    [14, 17, 11, 24, 1, 5], [3, 28, 15, 6, 21, 10], [23, 19, 12, 4, 26, 8], [16, 7, 27, 20, 13, 2],
    [41, 52, 31, 37, 47, 55], [30, 40, 51, 45, 33, 48], [44, 49, 39, 56, 34, 53], [46, 42, 50, 36, 29, 32]]

  type Shift = n: nat | n <= 2

  /** How far both halves of the key move before each round. */
  const SHIFTS: seq<Shift> := [1, 1, 2, 2, 2, 2, 2, 2, 1, 2, 2, 2, 2, 2, 2, 1]

  // ----- enciphering

  /** The 64 bits that a table of eight rows of eight names. */
  function Permuted(t: Table, s: bits): (u: bits)
    ensures |u| == 64
  {
    seq(64, i requires 0 <= i < 64 => At(s, Entry(t, i / 8, i % 8)))
  }

  /** The six bits that a row of a table names. */
  function Group(t: Table, r: nat, s: bits): Six {
    seq(6, c requires 0 <= c < 6 => At(s, Entry(t, r, c)))
  }

  /** A box takes six bits; what it gives is put in its place among 32 by the permutation behind the boxes. */
  type Boxes = (nat, Six) -> Half

  type RoundKey = k: seq<Six> | |k| == 8 witness seq(8, _ => seq(6, _ => Zero))

  datatype Sides = Sides(l: Half, r: Half)

  /** The first n boxes, each given its six bits of the expanded half and of the key. */
  function FirstBoxes(box: Boxes, r: Half, k: RoundKey, n: nat): Half
    requires n <= 8
  {
    if n == 0 then seq(32, _ => Zero)
    else Xor(FirstBoxes(box, r, k, n - 1), box(n, Xor(Group(EXPANSION, n - 1, r), k[n - 1])))
  }

  /** The halves after n rounds. */
  function StandardRounds(box: Boxes, ks: seq<RoundKey>, s: Sides, n: nat): Sides
    requires n <= |ks|
  {
    if n == 0 then s
    else
      var t := StandardRounds(box, ks, s, n - 1);
      Sides(t.r, Xor(t.l, FirstBoxes(box, t.r, ks[n - 1], 8)))
  }

  /** A block of 64 bits under sixteen round keys. */
  function Encipher(box: Boxes, ks: seq<RoundKey>, block: bits): bits
    requires |ks| == 16
  {
    var p := Permuted(INITIAL, block);
    var s := StandardRounds(box, ks, Sides(p[..32], p[32..]), 16);
    Permuted(FINAL, s.r + s.l)
  }

  // ----- the round keys

  /** The first bits moved to the end. */
  function ShiftedLeft(s: bits, n: nat): (t: bits)
    requires n <= |s|
    ensures |t| == |s|
  {
    s[n..] + s[..n]
  }

  /** One of the two halves of the key after n shifts; its rows of the first table start at top. */
  function KeyHalf(key: bits, top: nat, n: nat): (c: bits)
    requires n <= 16
    ensures |c| == 28
  {
    if n == 0 then seq(28, i requires 0 <= i < 28 => At(key, Entry(CHOICE1, top + i / 7, i % 7)))
    else ShiftedLeft(KeyHalf(key, top, n - 1), SHIFTS[n - 1])
  }

  /** The key of round n: both halves of the key after n shifts, and the bits that the second table names. */
  function RoundKeyAfter(key: bits, n: nat): RoundKey
    requires n <= 16
  {
    seq(8, b requires 0 <= b < 8 => Group(CHOICE2, b, KeyHalf(key, 0, n) + KeyHalf(key, 4, n)))
  }

  /** Round keys 1 to 16. */
  function RoundKeys(key: bits): (ks: seq<RoundKey>)
    ensures |ks| == 16
  {
    seq(16, i requires 0 <= i < 16 => RoundKeyAfter(key, i + 1))
  }

  function Backwards(ks: seq<RoundKey>): (rs: seq<RoundKey>)
    ensures |rs| == |ks|
  {
    seq(|ks|, i requires 0 <= i < |ks| => ks[|ks| - 1 - i])
  }

  // ----- the boxes

  type Four = s: bits | |s| == 4 witness seq(4, _ => Zero)

  /** The eight substitutions, of six bits by four. */
  type Substitutions = (nat, Six) -> Four

  const DISPERSAL: Table := [
    [16, 7, 20, 21], [29, 12, 28, 17], [1, 15, 23, 26], [5, 18, 31, 10],
    [2, 8, 24, 14], [32, 27, 3, 9], [19, 13, 30, 6], [22, 11, 4, 25]]

  /** The permutation of the 32 bits that the boxes give. */
  function Dispersed(s: Half): Half {
    seq(32, i requires 0 <= i < 32 => At(s, Entry(DISPERSAL, i / 4, i % 4)))
  }

  /** Four bits in the place of box n. */
  function Placed(n: nat, four: Four): Half {
    seq(32, i requires 0 <= i < 32 => if i / 4 + 1 == n then four[i % 4] else Zero)
  }

  /** The boxes with the permutation behind them. */
  function Behind(s: Substitutions): Boxes {
    (n: nat, six: Six) => Dispersed(Placed(n, s(n, six)))
  }

  /** What the eight substitutions give, end to end. */
  function Outputs(s: Substitutions, r: Half, k: RoundKey): Half {
    seq(32, i requires 0 <= i < 32 => s(i / 4 + 1, Xor(Group(EXPANSION, i / 4, r), k[i / 4]))[i % 4])
  }

  /** The round function as the standard writes it: the half expanded, combined with the key and put through the
      substitutions, and the 32 bits they give permuted. */
  lemma RoundFunction(s: Substitutions, r: Half, k: RoundKey)
    ensures FirstBoxes(Behind(s), r, k, 8) == Dispersed(Outputs(s, r, k))
  {
    hide Entry, Group, Xor;
    forall i | 0 <= i < 32
      ensures FirstBoxes(Behind(s), r, k, 8)[i] == Dispersed(Outputs(s, r, k))[i]
    {
      FirstBoxesAt(s, r, k, 8, i);
    }
  }

  lemma BoxAt(s: Substitutions, n: nat, six: Six, i: nat)
    requires i < 32
    ensures var p := Entry(DISPERSAL, i / 4, i % 4);
            Behind(s)(n, six)[i] == if 1 <= p <= 32 && (p - 1) / 4 + 1 == n then s(n, six)[(p - 1) % 4] else Zero
  {
    hide Entry;
    assert Behind(s)(n, six)[i] == At(Placed(n, s(n, six)), Entry(DISPERSAL, i / 4, i % 4));
  }

  lemma {:induction false} FirstBoxesAt(s: Substitutions, r: Half, k: RoundKey, n: nat, i: nat)
    requires n <= 8 && i < 32
    ensures var p := Entry(DISPERSAL, i / 4, i % 4);
            FirstBoxes(Behind(s), r, k, n)[i] == if 1 <= p <= 32 && (p - 1) / 4 < n then Outputs(s, r, k)[p - 1] else Zero
  {
    hide Entry, Group, Behind;
    if n > 0 {
      FirstBoxesAt(s, r, k, n - 1, i);
      BoxAt(s, n, Xor(Group(EXPANSION, n - 1, r), k[n - 1]), i);
    }
  }
}
