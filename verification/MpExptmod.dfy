/** Sliding-window modular exponentiation over Montgomery residues. */
module MpExptmod {
  import opened Numbers
  import opened Congruence
  import opened MpCore
  import opened MpCompare
  import opened MpAddSub
  import opened MpScale
  import opened MpDiv
  import opened MpMul
  import opened MpMontgomery

  const TAB_SIZE: nat := 32

  // ----- Montgomery residues

  /** The modulus p with its reduction constant; r is the R of the reduction. */
  ghost predicate Modulus(P: MpInt, rho: nat, p: nat, r: nat)
    reads P
  {
    && P.Valid() && P.sign == ZPos && 0 < P.used <= 255
    && p == P.Mag() && p % 2 == 1 && r == Weight(P.used)
    && Congruent(rho * P.dp[0], -1, BASE)
  }

  /** x holds g^e * R modulo p. */
  ghost predicate Holds(x: MpInt, g: int, e: nat, p: nat, r: nat)
    reads x
  {
    && p > 0 && x.Valid() && x.sign == ZPos && x.Mag() <= p
    && Congruent(x.Mag(), Pow(g, e) * r, p)
  }

  /** Reducing the product of g^e * R and g^f * R leaves g^(e+f) * R. */
  lemma ProductHolds(x: nat, y: nat, z: nat, g: int, e: nat, f: nat, p: nat, n: nat)
    requires p % 2 == 1
    requires Congruent(x, Pow(g, e) * Weight(n), p) && Congruent(y, Pow(g, f) * Weight(n), p)
    requires Congruent(z * Weight(n), x * y, p)
    ensures Congruent(z, Pow(g, e + f) * Weight(n), p)
  {
    hide Congruent, Pow, Weight;
    var r := Weight(n);
    CongruentMul(x, Pow(g, e) * r, y, Pow(g, f) * r, p);
    MulExchange(Pow(g, e), r, Pow(g, f), r);
    PowAdd(g, e, f);
    MulAssoc(Pow(g, e + f), r, r);
    ChainCongruent(z * r, x * y, Pow(g, e + f) * r * r, p);
    WeightIsPow(n);
    CancelPower(z, Pow(g, e + f) * r, DIGIT_BIT * n, p);
  }

  /** The product of two residues is in the range the reduction needs. */
  lemma ProductInRange(x: nat, y: nat, P: MpInt)
    requires P.Valid() && x <= P.Mag() && y <= P.Mag()
    ensures x * y < P.Mag() * Weight(P.used) || P.Mag() == 0
  {
    hide Val, Weight;
    if P.Mag() > 0 {
      ValBound(P.dp, P.used);
      MulLe(x, P.Mag(), y);
      MulLt(y, Weight(P.used), P.Mag());
    }
  }

  method SquareReduce(x: MpInt, P: MpInt, rho: nat, ghost g: int, ghost e: nat, ghost p: nat, ghost r: nat)
    requires Modulus(P, rho, p, r) && Holds(x, g, e, p, r) && x != P
    modifies x
    ensures Holds(x, g, 2 * e, p, r)
  {
    hide Val, Weight, Pow, Congruent;
    ghost var m := x.Mag();
    NoLonger(P, x);
    ProductInRange(m, m, P);
    Sqr(x, x);
    MontgomeryReduce(x, P, rho);
    ProductHolds(m, m, x.Mag(), g, e, e, p, P.used);
  }

  /** z = x * y reduced; z may be x. */
  method MultiplyReduce(x: MpInt, y: MpInt, z: MpInt, P: MpInt, rho: nat,
                        ghost g: int, ghost e: nat, ghost f: nat, ghost p: nat, ghost r: nat)
    requires Modulus(P, rho, p, r) && Holds(x, g, e, p, r) && Holds(y, g, f, p, r)
    requires z.Valid() && z != P && z != y
    modifies z
    ensures Holds(z, g, e + f, p, r)
  {
    hide Val, Weight, Pow, Congruent;
    ghost var a, b := x.Mag(), y.Mag();
    NoLonger(P, x);
    NoLonger(P, y);
    ProductInRange(a, b, P);
    MulNat(a, b);
    Mul(x, y, z);
    ZeroIsUnused(z);
    MontgomeryReduce(z, P, rho);
    ProductHolds(a, b, z.Mag(), g, e, f, p, P.used);
  }

  /** k squarings. */
  method SquareTimes(x: MpInt, P: MpInt, rho: nat, k: nat, ghost g: int, ghost e: nat, ghost p: nat, ghost r: nat)
    requires Modulus(P, rho, p, r) && Holds(x, g, e, p, r) && x != P
    modifies x
    ensures e * Pow(2, k) >= 0 && Holds(x, g, e * Pow(2, k), p, r)
  {
    hide Holds, Modulus, Pow;
    ghost var f := e;
    var i := 0;
    PowZero(2);
    while i < k
      invariant 0 <= i <= k && Modulus(P, rho, p, r)
      invariant f == e * Pow(2, i) && Holds(x, g, f, p, r)
    {
      SquareReduce(x, P, rho, g, f, p, r);
      DoublePower(e, i);
      f := 2 * f;
      i := i + 1;
    }
  }

  lemma DoublePower(e: nat, i: nat)
    ensures e * Pow(2, i + 1) == 2 * (e * Pow(2, i)) >= 0
  {
    PowPos(2, i);
    MulNat(e, Pow(2, i));
    MulAssoc(e, 2, Pow(2, i));
  }

  // ----- the table of windows
  //
  // The table is an array of TAB_SIZE numbers of which only some are ever initialised:
  // a slot that is not is null here, so that reading it is an error.

  /** The cells that exist: slot 1 and the slots from lo up to hi, all distinct. */
  ghost predicate Cells(M: seq<MpInt?>, lo: nat, hi: nat) {
    && |M| == TAB_SIZE && 1 < lo <= hi <= TAB_SIZE && M[1] != null
    && (forall x | lo <= x < hi :: M[x] != null && M[x] != M[1])
    && forall x, y | lo <= x < y < hi :: M[x] != M[y]
  }

  ghost function CellSet(M: seq<MpInt?>, lo: nat, hi: nat): set<MpInt>
    requires Cells(M, lo, hi)
  {
    {M[1]} + set x | lo <= x < hi :: M[x]
  }

  /** Slot x holds g^x * R for slot 1 and for the slots from lo up to n. */
  ghost predicate Table(M: seq<MpInt?>, lo: nat, hi: nat, n: nat, g: int, p: nat, r: nat)
    requires Cells(M, lo, hi)
    reads CellSet(M, lo, hi)
  {
    n <= hi && Holds(M[1], g, 1, p, r) && forall x | lo <= x < n :: Holds(M[x], g, x, p, r)
  }

  /** Initialises slot 1 and the upper half of the table, nothing else. */
  method InitTable(lo: nat) returns (M: seq<MpInt?>)
    requires 1 < lo && 2 * lo <= TAB_SIZE
    ensures Cells(M, lo, 2 * lo) && fresh(CellSet(M, lo, 2 * lo))
    ensures M[1].Valid() && forall x | lo <= x < 2 * lo :: M[x].Valid()
  {
    M := seq(TAB_SIZE, _ => null);
    var first := new MpInt.Init();
    M := M[1 := first];
    var x := lo;
    while x < 2 * lo
      invariant lo <= x <= 2 * lo && Cells(M, lo, x) && fresh(CellSet(M, lo, x))
      invariant M[1].Valid() && forall i | lo <= i < x :: M[i].Valid()
    {
      var cell := new MpInt.Init();
      M := M[x := cell];
      x := x + 1;
    }
  }

  /** The window width by the length of the exponent, capped for low memory. */
  function WindowSize(bits: nat): (w: nat)
    ensures 2 <= w <= 5
  {
    var w :=
      if bits <= 7 then 2 else if bits <= 36 then 3 else if bits <= 140 then 4 else if bits <= 450 then 5
      else if bits <= 1303 then 6 else if bits <= 3529 then 7 else 8;
    if w > 5 then 5 else w
  }

  lemma CellIn(M: seq<MpInt?>, lo: nat, hi: nat, x: nat)
    requires Cells(M, lo, hi) && (x == 1 || lo <= x < hi)
    ensures M[x] in CellSet(M, lo, hi)
  {}

  /** Slot n is the product of the one below it and slot 1; the slots below stay as they were. */
  method FillSlot(M: seq<MpInt?>, P: MpInt, rho: nat, lo: nat, hi: nat, n: nat, ghost g: int, ghost p: nat, ghost r: nat)
    requires Cells(M, lo, hi) && lo < n < hi && Table(M, lo, hi, n, g, p, r) && M[n].Valid()
    requires Modulus(P, rho, p, r) && P !in CellSet(M, lo, hi)
    modifies M[n]
    ensures Table(M, lo, hi, n + 1, g, p, r)
  {
    hide Holds, Modulus;
    CellIn(M, lo, hi, n);
    MultiplyReduce(M[n - 1], M[1], M[n], P, rho, g, n - 1, 1, p, r);
  }

  /** M[2^(w-1)] by w - 1 squarings of M[1], then each further slot by one product with M[1]. */
  method FillTable(M: seq<MpInt?>, P: MpInt, rho: nat, w: nat, lo: nat, ghost g: int, ghost p: nat, ghost r: nat)
    requires 2 <= w <= 5 && lo == Pow(2, w - 1) && 1 < lo && 2 * lo <= TAB_SIZE && Cells(M, lo, 2 * lo)
    requires Modulus(P, rho, p, r) && P !in CellSet(M, lo, 2 * lo)
    requires Holds(M[1], g, 1, p, r) && forall x | lo <= x < 2 * lo :: M[x].Valid()
    modifies CellSet(M, lo, 2 * lo) - {M[1]}
    ensures Table(M, lo, 2 * lo, 2 * lo, g, p, r)
  {
    hide Holds, Modulus, Pow, CellSet;
    CellIn(M, lo, 2 * lo, 1);
    CellIn(M, lo, 2 * lo, lo);
    FirstSlot(M, P, rho, w, lo, g, p, r);
    var x := lo + 1;
    while x < 2 * lo
      invariant lo < x <= 2 * lo && Modulus(P, rho, p, r)
      invariant Table(M, lo, 2 * lo, x, g, p, r) && forall i | x <= i < 2 * lo :: M[i].Valid()
    {
      CellIn(M, lo, 2 * lo, x);
      FillSlot(M, P, rho, lo, 2 * lo, x, g, p, r);
      x := x + 1;
    }
  }

  method FirstSlot(M: seq<MpInt?>, P: MpInt, rho: nat, w: nat, lo: nat, ghost g: int, ghost p: nat, ghost r: nat)
    requires 2 <= w <= 5 && lo == Pow(2, w - 1) && 1 < lo && 2 * lo <= TAB_SIZE && Cells(M, lo, 2 * lo)
    requires Modulus(P, rho, p, r) && P != M[lo]
    requires Holds(M[1], g, 1, p, r) && M[lo].Valid()
    modifies M[lo]
    ensures Table(M, lo, 2 * lo, lo + 1, g, p, r)
  {
    Copy(M[1], M[lo]);
    SquareTimes(M[lo], P, rho, w - 1, g, 1, p, r);
  }

  // ----- reading the exponent bit by bit

  /** seen is the part of the exponent above the bits still to come: `left` of them in buf, the rest in digits. */
  ghost predicate Reading(x: nat, s: seq<nat>, digidx: int, left: nat, buf: nat, seen: nat, low: nat) {
    && -1 <= digidx < |s| && left <= DIGIT_BIT && low < Pow(2, left)
    && buf % BASE == low * Pow(2, DIGIT_BIT - left)
    && x == (seen * Pow(2, left) + low) * Weight(digidx + 1) + Val(s, digidx + 1)
  }

  lemma ReadDigit(x: nat, s: seq<nat>, digidx: int, buf: nat, seen: nat, low: nat)
    requires Reading(x, s, digidx, 0, buf, seen, low) && digidx >= 0 && Digits(s)
    ensures Reading(x, s, digidx - 1, DIGIT_BIT, s[digidx], seen, s[digidx])
  {
    PowZero(2);
    PowDigitBits();
    var w := Weight(digidx);
    WeightStep(digidx);
    MulAssoc(seen, BASE, w);
    Distribute(seen * BASE, s[digidx], w);
    ValStep(s, digidx);
  }

  /** The top bit of the digit buffer is the next bit of the exponent. */
  lemma TakeBit(x: nat, s: seq<nat>, digidx: int, left: nat, buf: nat, seen: nat, low: nat) returns (low': nat)
    requires Reading(x, s, digidx, left, buf, seen, low) && left > 0
    ensures var y := buf / (BASE / 2) % 2;
            Reading(x, s, digidx, left - 1, buf * 2 % DIGIT_WORD, 2 * seen + y, low')
  {
    hide Val, Weight;
    var h, p, p' := Pow(2, left - 1), Pow(2, DIGIT_BIT - left), Pow(2, DIGIT_BIT - (left - 1));
    BitSplit(left - 1);
    MulAssoc(h, 2, p);
    assert p' == 2 * p && Pow(2, left) == 2 * h;
    var y := TopBit(buf, low, h, p);
    low' := low - y * h;
    Distribute(low, y * h, p');
    MulAssoc(y, h, p');
    MulAssoc(low, 2, p);
    MulAssoc(seen, 2, h);
    Distribute(2 * seen, y, h);
  }

  lemma TopBit(buf: nat, low: nat, h: nat, p: nat) returns (y: nat)
    requires h > 0 && p > 0 && 2 * (h * p) == BASE && buf % BASE == low * p && low < 2 * h
    ensures y == buf / (BASE / 2) % 2 && y * h <= low < y * h + h
    ensures buf * 2 % DIGIT_WORD % BASE == 2 * (low * p) - y * BASE
  {
    y := buf / (BASE / 2) % 2;
    BitOf(buf);
    if low >= h {
      MulLe(h, low, p);
    } else {
      MulLt(low, h, p);
    }
  }

  lemma BitOf(buf: nat)
    ensures buf / (BASE / 2) % 2 == buf % BASE / (BASE / 2)
    ensures buf * 2 % DIGIT_WORD % BASE == 2 * (buf % BASE) - buf % BASE / (BASE / 2) * BASE
  {
    var q, m := buf / BASE, buf % BASE;
    var y: nat := if m < BASE / 2 then 0 else 1;
    HalfOf(buf, q, m, y);
    DoubleOf(buf, q, m, y);
  }

  lemma HalfOf(buf: nat, q: nat, m: nat, y: nat)
    requires buf == BASE * q + m && y * (BASE / 2) <= m < y * (BASE / 2) + BASE / 2 && y <= 1
    ensures buf / (BASE / 2) % 2 == y == m / (BASE / 2)
  {
    DivModUnique(buf, BASE / 2, 2 * q + y, m - y * (BASE / 2));
    DivModUnique(m, BASE / 2, y, m - y * (BASE / 2));
  }

  lemma DoubleOf(buf: nat, q: nat, m: nat, y: nat)
    requires buf == BASE * q + m && y * BASE <= 2 * m < y * BASE + BASE && y <= 1
    ensures buf * 2 % DIGIT_WORD % BASE == 2 * m - y * BASE
  {
    var t := buf * 2;
    DivMod(t, DIGIT_WORD);
    DivModUnique(t, BASE, 2 * q + y, 2 * m - y * BASE);
    var k := t / DIGIT_WORD;
    DivModUnique(t % DIGIT_WORD, BASE, 2 * q + y - 16 * k, 2 * m - y * BASE);
  }

  // ----- the sliding window

  /** seen = done * 2^bitcpy + win: res holds done, the window buffer holds win at its left end. */
  ghost predicate Window(w: nat, mode: nat, bitcpy: nat, bitbuf: nat, seen: nat, done: nat, win: nat) {
    && bitcpy < w && seen == done * Pow(2, bitcpy) + win && bitbuf == win * Pow(2, w - bitcpy)
    && win < Pow(2, bitcpy)
    && (mode == 0 ==> seen == 0 && bitcpy == 0)
    && (mode == 1 ==> bitcpy == 0)
    && (mode == 2 ==> bitcpy > 0 && Pow(2, bitcpy - 1) <= win)
    && mode <= 2
  }

  lemma WindowStart(w: nat)
    requires w > 0
    ensures Window(w, 0, 0, 0, 0, 0, 0)
  {
    PowZero(2);
  }

  /** Outside a window nothing is pending. */
  lemma NonePending(w: nat, mode: nat, bitbuf: nat, seen: nat, done: nat, win: nat)
    requires Window(w, mode, 0, bitbuf, seen, done, win)
    ensures done == seen && win == 0 && bitbuf == 0 && mode < 2
  {
    PowZero(2);
  }

  /** A zero bit outside a window. */
  lemma ZeroBit(w: nat, mode: nat, seen: nat)
    requires mode <= 1 && w > 0 && (mode == 0 ==> seen == 0)
    ensures Window(w, mode, 0, 0, 2 * seen, 2 * seen, 0)
  {
    PowZero(2);
  }

  /** One more bit of a window: the bit falls on a free position of the buffer. */
  lemma WindowBit(w: nat, mode: nat, bitcpy: nat, bitbuf: nat, seen: nat, done: nat, win: nat, y: nat)
    requires Window(w, mode, bitcpy, bitbuf, seen, done, win) && y <= 1 && (y == 1 || mode == 2)
    ensures 2 * seen + y == done * Pow(2, bitcpy + 1) + (2 * win + y)
    ensures 0 <= bitbuf + y * Pow(2, w - (bitcpy + 1)) == (2 * win + y) * Pow(2, w - (bitcpy + 1))
    ensures Pow(2, bitcpy) <= 2 * win + y < Pow(2, bitcpy + 1)
  {
    var h, p := Pow(2, bitcpy), Pow(2, w - (bitcpy + 1));
    MulAssoc(done, 2, h);
    MulAssoc(win, 2, p);
    Distribute(2 * win, y, p);
    PowPos(2, w - (bitcpy + 1));
    MulNat(y, p);
    PowZero(2);
    if bitcpy == 0 {
      NonePending(w, mode, bitbuf, seen, done, win);
    }
  }

  /** A full window is a slot of the upper half of the table. */
  lemma FullWindow(w: nat, bitbuf: nat, win: nat)
    requires w > 0 && bitbuf == win * Pow(2, w - w) && Pow(2, w - 1) <= win < Pow(2, w)
    ensures bitbuf == win && Pow(2, w - 1) <= bitbuf < 2 * Pow(2, w - 1)
  {
    PowZero(2);
  }

  lemma WindowShape(w: nat, mode: nat, bitcpy: nat, bitbuf: nat, seen: nat, done: nat, win: nat)
    requires Window(w, mode, bitcpy, bitbuf, seen, done, win)
    ensures bitcpy < w && mode <= 2 && (mode == 0 ==> seen == 0) && (mode < 2 ==> bitcpy == 0)
  {}

  lemma WindowGrown(w: nat, bitcpy: nat, bitbuf: nat, seen: nat, done: nat, win: nat)
    requires 0 < bitcpy < w && seen == done * Pow(2, bitcpy) + win && bitbuf == win * Pow(2, w - bitcpy)
    requires Pow(2, bitcpy - 1) <= win < Pow(2, bitcpy)
    ensures Window(w, 2, bitcpy, bitbuf, seen, done, win)
  {}

  /** Everything the bit loop reads and does not change: the table, the modulus, and res apart from both. */
  ghost predicate Ready(M: seq<MpInt?>, P: MpInt, rho: nat, w: nat, lo: nat, res: MpInt, g: int, p: nat, r: nat)
    reads P, if Cells(M, lo, 2 * lo) then CellSet(M, lo, 2 * lo) else {}
  {
    && 2 <= w <= 5 && lo == Pow(2, w - 1) && Cells(M, lo, 2 * lo) && Table(M, lo, 2 * lo, 2 * lo, g, p, r)
    && Modulus(P, rho, p, r) && res != P && res !in CellSet(M, lo, 2 * lo)
  }

  method SquareStep(res: MpInt, M: seq<MpInt?>, P: MpInt, rho: nat, w: nat, ghost lo: nat, ghost e: nat, ghost g: int, ghost p: nat, ghost r: nat)
    requires Ready(M, P, rho, w, lo, res, g, p, r) && Holds(res, g, e, p, r)
    modifies res
    ensures Ready(M, P, rho, w, lo, res, g, p, r) && Holds(res, g, 2 * e, p, r)
  {
    hide Holds, Modulus, Pow;
    SquareReduce(res, P, rho, g, e, p, r);
  }

  method MultiplyStep(res: MpInt, M: seq<MpInt?>, P: MpInt, rho: nat, w: nat, ghost lo: nat, ghost e: nat, ghost g: int, ghost p: nat, ghost r: nat)
    requires Ready(M, P, rho, w, lo, res, g, p, r) && Holds(res, g, e, p, r)
    modifies res
    ensures Ready(M, P, rho, w, lo, res, g, p, r) && Holds(res, g, e + 1, p, r)
  {
    hide Holds, Modulus, Pow;
    CellIn(M, lo, 2 * lo, 1);
    HoldsValid(res, g, e, p, r);
    MultiplyReduce(res, M[1], res, P, rho, g, e, 1, p, r);
  }

  /** A bit that belongs to a window; the window that becomes full is multiplied in. */
  method PushBit(res: MpInt, M: seq<MpInt?>, P: MpInt, rho: nat, w: nat, y: nat,
                 mode0: nat, bitcpy0: nat, bitbuf0: nat, ghost lo: nat,
                 ghost seen: nat, ghost done0: nat, ghost win0: nat, ghost g: int, ghost p: nat, ghost r: nat)
    returns (mode: nat, bitcpy: nat, bitbuf: nat, ghost done: nat, ghost win: nat)
    requires Ready(M, P, rho, w, lo, res, g, p, r) && y <= 1 && (y == 1 || mode0 == 2)
    requires Window(w, mode0, bitcpy0, bitbuf0, seen, done0, win0) && Holds(res, g, done0, p, r)
    modifies res
    ensures Ready(M, P, rho, w, lo, res, g, p, r)
    ensures Window(w, mode, bitcpy, bitbuf, 2 * seen + y, done, win) && Holds(res, g, done, p, r)
  {
    hide Holds, Modulus, Pow, Window, Table, Ready;
    ReadyShape(M, P, rho, w, lo, res, g, p, r);
    WindowShape(w, mode0, bitcpy0, bitbuf0, seen, done0, win0);
    WindowBit(w, mode0, bitcpy0, bitbuf0, seen, done0, win0, y);
    bitcpy := bitcpy0 + 1;
    bitbuf := bitbuf0 + y * Pow(2, w - bitcpy);
    mode, done, win := 2, done0, 2 * win0 + y;
    if bitcpy == w {
      FullWindow(w, bitbuf, win);
      MultiplyWindow(res, M, P, rho, w, bitbuf, lo, done, g, p, r);
      done := 2 * seen + y;
      mode, bitcpy, bitbuf, win := 1, 0, 0, 0;
      EmptyWindow(w, done);
    } else {
      WindowGrown(w, bitcpy, bitbuf, 2 * seen + y, done, win);
    }
  }

  lemma ReadyShape(M: seq<MpInt?>, P: MpInt, rho: nat, w: nat, lo: nat, res: MpInt, g: int, p: nat, r: nat)
    requires Ready(M, P, rho, w, lo, res, g, p, r)
    ensures 2 <= w <= 5 && lo == Pow(2, w - 1)
  {}

  /** One bit of the exponent: skipped, squared in, or added to the window; a full window is multiplied in. */
  method TakeWindowBit(res: MpInt, M: seq<MpInt?>, P: MpInt, rho: nat, w: nat, y: nat,
                       mode0: nat, bitcpy0: nat, bitbuf0: nat, ghost lo: nat,
                       ghost seen: nat, ghost done0: nat, ghost win0: nat, ghost g: int, ghost p: nat, ghost r: nat)
    returns (mode: nat, bitcpy: nat, bitbuf: nat, ghost done: nat, ghost win: nat)
    requires Ready(M, P, rho, w, lo, res, g, p, r)
    requires y <= 1 && Window(w, mode0, bitcpy0, bitbuf0, seen, done0, win0) && Holds(res, g, done0, p, r)
    modifies res
    ensures Ready(M, P, rho, w, lo, res, g, p, r)
    ensures Window(w, mode, bitcpy, bitbuf, 2 * seen + y, done, win) && Holds(res, g, done, p, r)
  {
    hide Holds, Modulus, Pow, Window, Table, Ready;
    mode, bitcpy, bitbuf, done, win := mode0, bitcpy0, bitbuf0, done0, win0;
    WindowShape(w, mode, bitcpy, bitbuf, seen, done, win);
    if mode == 0 && y == 0 {
      NonePending(w, mode, bitbuf, seen, done, win);
      ZeroBit(w, 0, seen);
      return;
    }
    if mode == 1 && y == 0 {
      NonePending(w, mode, bitbuf, seen, done, win);
      SquareStep(res, M, P, rho, w, lo, done, g, p, r);
      ZeroBit(w, 1, seen);
      done := 2 * seen;
      return;
    }
    mode, bitcpy, bitbuf, done, win :=
      PushBit(res, M, P, rho, w, y, mode, bitcpy, bitbuf, lo, seen, done, win, g, p, r);
  }

  lemma EmptyWindow(w: nat, done: nat)
    requires w > 0
    ensures Window(w, 1, 0, 0, done, done, 0)
  {
    PowZero(2);
  }

  /** w squarings, then one product with the slot the full window names. */
  method MultiplyWindow(res: MpInt, M: seq<MpInt?>, P: MpInt, rho: nat, w: nat, bitbuf: nat,
                        ghost lo: nat, ghost done: nat, ghost g: int, ghost p: nat, ghost r: nat)
    requires Ready(M, P, rho, w, lo, res, g, p, r) && Holds(res, g, done, p, r) && lo <= bitbuf < 2 * lo
    modifies res
    ensures Ready(M, P, rho, w, lo, res, g, p, r)
    ensures done * Pow(2, w) >= 0 && Holds(res, g, done * Pow(2, w) + bitbuf, p, r)
  {
    hide Holds, Modulus, Pow;
    CellIn(M, lo, 2 * lo, bitbuf);
    SquareTimes(res, P, rho, w, g, done, p, r);
    HoldsValid(res, g, done * Pow(2, w), p, r);
    MultiplyReduce(res, M[bitbuf], res, P, rho, g, done * Pow(2, w), bitbuf, p, r);
  }

  lemma HoldsValid(x: MpInt, g: int, e: nat, p: nat, r: nat)
    requires Holds(x, g, e, p, r)
    ensures x.Valid()
  {}

  /** After x bits of the tail, e is done followed by the top x bits of the window. */
  ghost predicate Tail(w: nat, n: nat, x: nat, bitbuf: nat, done: nat, win: nat, e: nat) {
    && x <= n < w && win < Pow(2, n)
    && bitbuf == win * Pow(2, w - n + x)
    && Pow(2, n - x) > 0 && e == done * Pow(2, x) + win / Pow(2, n - x)
  }

  lemma TailStart(w: nat, n: nat, bitbuf: nat, done: nat, win: nat)
    requires n < w && bitbuf == win * Pow(2, w - n) && win < Pow(2, n)
    ensures Tail(w, n, 0, bitbuf, done, win, done)
  {
    PowZero(2);
    DivModUnique(win, Pow(2, n), 0, win);
  }

  /** Bit w of the buffer. */
  function ShiftedOut(bitbuf: nat, w: nat): (bit: nat)
    ensures bit <= 1
  {
    PowPos(2, w); bitbuf / Pow(2, w) % 2
  }

  lemma DivCancel(x: nat, q: nat, p: nat)
    requires q > 0 && p > 0
    ensures q * p > 0 && x * p / (q * p) == x / q
  {
    DivMod(x, q);
    var k, t := x / q, x % q;
    MulAssoc(q, k, p);
    MulAssoc(k, q, p);
    Distribute(q * k, t, p);
    MulLt(t, q, p);
    MulNat(t, p);
    DivModUnique(x * p, q * p, k, t * p);
  }

  /** The bit shifted out of the buffer is the next bit of the window. */
  lemma TailStep(w: nat, n: nat, x: nat, bitbuf: nat, done: nat, win: nat, e: nat) returns (e': nat)
    requires Tail(w, n, x, bitbuf, done, win, e) && x < n
    ensures Tail(w, n, x + 1, 2 * bitbuf, done, win, e')
    ensures e' == 2 * e + ShiftedOut(2 * bitbuf, w)
  {
    hide Pow;
    var j := n - x - 1;
    PowPos(2, j);
    PowPos(2, w - j);
    PowPos(2, w);
    PowAdd(2, j, w - j);
    PowAdd(2, 1, j);
    PowAdd(2, 1, w - n + x);
    PowZero(2);
    MulAssoc(win, 2, Pow(2, w - n + x));
    DivCancel(win, Pow(2, j), Pow(2, w - j));
    DivComposes(win, Pow(2, j), 2);
    DoublePower(done, x);
    e' := 2 * e + ShiftedOut(2 * bitbuf, w);
  }

  lemma TailEnd(w: nat, n: nat, bitbuf: nat, done: nat, win: nat, e: nat)
    requires Tail(w, n, n, bitbuf, done, win, e)
    ensures e == done * Pow(2, n) + win
  {
    PowZero(2);
  }

  /** The bits left in an unfilled window: a squaring for each, and a product with slot 1 for each one bit. */
  method FinishWindow(res: MpInt, M: seq<MpInt?>, P: MpInt, rho: nat, w: nat, bitcpy: nat, bitbuf0: nat,
                      ghost lo: nat, ghost done: nat, ghost win: nat, ghost g: int, ghost p: nat, ghost r: nat)
    requires Ready(M, P, rho, w, lo, res, g, p, r) && Holds(res, g, done, p, r)
    requires bitcpy < w && bitbuf0 == win * Pow(2, w - bitcpy) && win < Pow(2, bitcpy)
    modifies res
    ensures done * Pow(2, bitcpy) >= 0 && Holds(res, g, done * Pow(2, bitcpy) + win, p, r)
  {
    hide Holds, Modulus, Pow, Table, Ready, Tail, ShiftedOut;
    var bitbuf := bitbuf0;
    var x := 0;
    ghost var e := done;
    TailStart(w, bitcpy, bitbuf0, done, win);
    while x < bitcpy
      invariant 0 <= x <= bitcpy && Ready(M, P, rho, w, lo, res, g, p, r)
      invariant Tail(w, bitcpy, x, bitbuf, done, win, e) && Holds(res, g, e, p, r)
    {
      ghost var e' := TailStep(w, bitcpy, x, bitbuf, done, win, e);
      bitbuf := 2 * bitbuf;
      SquareStep(res, M, P, rho, w, lo, e, g, p, r);
      if ShiftedOut(bitbuf, w) != 0 {
        MultiplyStep(res, M, P, rho, w, lo, 2 * e, g, p, r);
      }
      e := e';
      x := x + 1;
    }
    TailEnd(w, bitcpy, bitbuf, done, win, e);
  }

  // ----- the exponentiation

  lemma ReadStart(X: MpInt)
    requires X.Valid()
    ensures Reading(X.Mag(), X.dp, X.used - 1, 0, 0, 0, 0)
  {
    PowZero(2);
  }

  lemma ReadEnd(x: nat, s: seq<nat>, buf: nat, seen: nat, low: nat)
    requires Reading(x, s, -1, 0, buf, seen, low)
    ensures seen == x
  {
    PowZero(2);
    SmallWeights();
    ValZero(s);
  }

  /** Scans the exponent from its top bit down; res ends with all but the pending window. */
  method ScanExponent(res: MpInt, M: seq<MpInt?>, P: MpInt, X: MpInt, rho: nat, w: nat,
                      ghost lo: nat, ghost g: int, ghost p: nat, ghost r: nat)
    returns (mode: nat, bitcpy: nat, bitbuf: nat, ghost done: nat, ghost win: nat)
    requires Ready(M, P, rho, w, lo, res, g, p, r) && Holds(res, g, 0, p, r) && X.Valid() && X != res
    modifies res
    ensures Ready(M, P, rho, w, lo, res, g, p, r) && Holds(res, g, done, p, r)
    ensures Window(w, mode, bitcpy, bitbuf, X.Mag(), done, win)
  {
    hide Holds, Modulus, Pow, Val, Weight, Table, Window, Reading;
    mode, bitcpy, bitbuf, done, win := 0, 0, 0, 0, 0;
    WindowStart(w);
    ReadStart(X);
    var bitcnt: nat, buf: nat, digidx: int := 1, 0, X.used - 1;
    ghost var seen: nat, low: nat := 0, 0;
    while true
      invariant bitcnt > 0 && buf >= 0
      invariant Reading(X.Mag(), X.dp, digidx, bitcnt - 1, buf, seen, low)
      invariant Ready(M, P, rho, w, lo, res, g, p, r) && Holds(res, g, done, p, r)
      invariant Window(w, mode, bitcpy, bitbuf, seen, done, win)
      decreases DIGIT_BIT * (digidx + 1) + bitcnt
    {
      bitcnt := bitcnt - 1;
      ReadShape(X.Mag(), X.dp, digidx, bitcnt, buf, seen, low);
      if bitcnt == 0 {
        if digidx == -1 {
          ReadEnd(X.Mag(), X.dp, buf, seen, low);
          break;
        }
        ReadDigit(X.Mag(), X.dp, digidx, buf, seen, low);
        buf := X.dp[digidx];
        low := buf;
        digidx := digidx - 1;
        bitcnt := DIGIT_BIT;
      }
      var y := buf / (BASE / 2) % 2;
      low := TakeBit(X.Mag(), X.dp, digidx, bitcnt, buf, seen, low);
      buf := buf * 2 % DIGIT_WORD;
      mode, bitcpy, bitbuf, done, win := TakeWindowBit(res, M, P, rho, w, y, mode, bitcpy, bitbuf, lo, seen, done, win, g, p, r);
      seen := 2 * seen + y;
    }
  }

  lemma ReadShape(x: nat, s: seq<nat>, digidx: int, left: nat, buf: nat, seen: nat, low: nat)
    requires Reading(x, s, digidx, left, buf, seen, low)
    ensures -1 <= digidx < |s| && left <= DIGIT_BIT && (left == 0 ==> low == 0)
  {
    PowZero(2);
  }

  lemma WindowSlots(w: nat)
    requires 2 <= w <= 5
    ensures 1 < Pow(2, w - 1) <= TAB_SIZE / 2
  {
    PowMono(2, 1, w - 1);
    PowMono(2, w - 1, 4);
    assert Pow(2, 2) == 4 && Pow(2, 4) == 16 by { PowAdd(2, 2, 2); PowZero(2); }
  }

  /** The last reduction removes the factor R. */
  lemma FactorRemoved(x: nat, y: nat, g: int, e: nat, p: nat, n: nat)
    requires p % 2 == 1 && Congruent(x, Pow(g, e) * Weight(n), p) && Congruent(y * Weight(n), x, p) && y < p
    ensures y == Pow(g, e) % p
  {
    hide Congruent, Pow, Weight;
    ChainCongruent(y * Weight(n), x, Pow(g, e) * Weight(n), p);
    WeightIsPow(n);
    CancelPower(y, Pow(g, e), DIGIT_BIT * n, p);
    CongruentSmall(y, Pow(g, e), p);
  }

  /** g * (R mod p) mod p is g^1 * R modulo p, and R mod p is g^0 * R. */
  lemma FirstHolds(res: MpInt, first: MpInt, g: int, p: nat, r: nat)
    requires p % 2 == 1 && res.Valid() && res.sign == ZPos && res.Mag() <= p && Congruent(res.Mag(), r, p)
    requires first.Valid() && first.Int() == ModResult(g * res.Int(), p)
    ensures Holds(res, g, 0, p, r) && Holds(first, g, 1, p, r)
  {
    hide Congruent, ModResult;
    PowZero(g);
    ModForPositive(g * res.Int(), p);
    CongruentMod(g * res.Int(), p);
    ReflCongruent(g, p);
    CongruentMul(g, g, res.Mag(), r, p);
    ChainCongruent(first.Int(), g * res.Int(), g * r, p);
    ZeroIsUnused(first);
  }

  /** The table of G's powers and the accumulator at G^0, all in Montgomery form. */
  method Prepare(G: MpInt, P: MpInt, w: nat, lo: nat, ghost g: int, ghost p: nat, ghost r: nat)
    returns (M: seq<MpInt?>, acc: MpInt, rho: nat)
    requires G.Valid() && P.Valid() && P.sign == ZPos && P.Mag() % 2 == 1 && 0 < P.used <= 255 && G.used + P.used + 1 < MP_WARRAY
    requires 2 <= w <= 5 && lo == Pow(2, w - 1) && 1 < lo && 2 * lo <= TAB_SIZE
    requires g == G.Int() && p == P.Mag() && r == Weight(P.used)
    ensures Ready(M, P, rho, w, lo, acc, g, p, r) && Holds(acc, g, 0, p, r) && fresh(acc) && fresh(CellSet(M, lo, 2 * lo))
  {
    hide Val, Weight, Pow, Congruent, Table, ModResult, Holds;
    M := InitTable(lo);
    CellIn(M, lo, 2 * lo, 1);
    var status;
    status, rho := MontgomerySetup(P);
    acc := new MpInt.Init();
    CalcNormalization(acc, P);
    NoLonger(P, acc);
    status := MulMod(G, acc, P, M[1]);
    FirstHolds(acc, M[1], g, p, r);
    FillTable(M, P, rho, w, lo, g, p, r);
  }

  /** Y = G^X mod P for an odd P and a nonnegative X. */
  method ExptmodFast(G: MpInt, X: MpInt, P: MpInt, Y: MpInt) returns (res: Status)
    requires G.Valid() && X.Valid() && P.Valid() && P.sign == ZPos && P.Mag() % 2 == 1
    requires P.used <= 255 && G.used + P.used + 1 < MP_WARRAY
    modifies Y
    ensures res == Okay && Y.Valid() && Y.Int() == Pow(old(G.Int()), old(X.Mag())) % old(P.Mag())
  {
    hide Val, Weight, Pow, Congruent, Table, Window, Holds, Ready;
    ghost var g, p, r := G.Int(), P.Mag(), Weight(P.used);
    var bits := CountBits(X);
    var w := WindowSize(bits);
    WindowSlots(w);
    var lo := Pow(2, w - 1);
    ZeroIsUnused(P);
    var M, acc, rho := Prepare(G, P, w, lo, g, p, r);
    var mode, bitcpy, bitbuf;
    ghost var done, win;
    mode, bitcpy, bitbuf, done, win := ScanExponent(acc, M, P, X, rho, w, lo, g, p, r);
    FinishAndStrip(acc, M, P, X, rho, w, mode, bitcpy, bitbuf, lo, done, win, g, p, r);
    Exch(acc, Y);
    res := Okay;
  }

  method FinishAndStrip(acc: MpInt, M: seq<MpInt?>, P: MpInt, X: MpInt, rho: nat, w: nat, mode: nat, bitcpy: nat, bitbuf: nat,
                        ghost lo: nat, ghost done: nat, ghost win: nat, ghost g: int, ghost p: nat, ghost r: nat)
    requires Ready(M, P, rho, w, lo, acc, g, p, r) && Holds(acc, g, done, p, r) && X.Valid() && X != acc
    requires Window(w, mode, bitcpy, bitbuf, X.Mag(), done, win)
    modifies acc
    ensures acc.Valid() && p > 0 && acc.Int() == Pow(g, X.Mag()) % p
  {
    hide Val, Weight, Pow, Congruent, Table;
    ghost var e := X.Mag();
    if mode == 2 && bitcpy > 0 {
      FinishWindow(acc, M, P, rho, w, bitcpy, bitbuf, lo, done, win, g, p, r);
    } else {
      NonePending(w, mode, bitbuf, e, done, win);
    }
    ghost var x := acc.Mag();
    ProductInRange(1, x, P);
    MontgomeryReduce(acc, P, rho);
    FactorRemoved(x, acc.Mag(), g, e, p, P.used);
  }
}
