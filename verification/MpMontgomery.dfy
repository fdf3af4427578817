/** Montgomery setup, normalisation and column-wise reduction. */
module MpMontgomery {
  import opened Numbers
  import opened Congruence
  import opened MpCore
  import opened MpCompare
  import opened MpAddSub
  import opened MpShift
  import opened MpScale
  import opened MpDiv
  import opened MpMul

  // ----- inverting the low digit

  /** One Newton step: an inverse modulo m becomes one modulo every divisor of m squared. */
  lemma NewtonStep(b: int, x: int, y: int, m: int, m': int, d: int)
    requires m > 0 && m' > 0 && m * m == m' * d
    requires Congruent(b * x, 1, m) && Congruent(y, x * (2 - b * x), m')
    ensures Congruent(b * y, 1, m')
  {
    var k := DifferIfCongruent(b * x, 1, m);
    CongruentMul(b, b, y, x * (2 - b * x), m');
    MulAssoc(b, x, 2 - b * x);
    var t := k * m;
    assert b * x == 1 + t;
    assert (1 + t) * (1 - t) == 1 + -(t * t) by { Distribute(1, t, 1 - t); Distribute(1, t, t); }
    MulExchange(k, m, k, m);
    MulAssoc(k * k, m', d);
    CongruentIfDiffer(b * (x * (2 - b * x)), 1, m', -(k * k * d));
  }

  /** For an odd digit the first guess is right in its four low bits. */
  lemma FirstGuess(b: nat)
    requires b % 2 == 1
    ensures Congruent(b * ((b + 2) / 4 % 2 * 8 + b), 1, 16)
  {
    var r := b % 16;
    GuessBits(b);
    GuessTable(r);
    FromResidue(b, r, (r + 2) / 4 % 2 * 8);
  }

  lemma GuessBits(b: nat)
    ensures (b + 2) / 4 % 2 == (b % 16 + 2) / 4 % 2 && b % 16 % 2 == b % 2
  {
    var q, r := b / 16, b % 16;
    assert b == 16 * q + r;
    GuessQuarter(q, r);
    EvenDrop(q, (r + 2) / 4);
    EvenDrop(4 * q, r);
  }

  lemma GuessQuarter(q: nat, r: nat)
    ensures (16 * q + r + 2) / 4 == 4 * q + (r + 2) / 4
  {}

  lemma EvenDrop(q: nat, t: nat)
    ensures (4 * q + t) % 2 == t % 2
  {}

  lemma FromResidue(b: nat, r: nat, g: nat)
    requires r == b % 16 && r * (g + r) % 16 == 1
    ensures Congruent(b * (g + b), 1, 16)
  {
    hide Congruent;
    CongruentMod(b, 16);
    ReflCongruent(g, 16);
    CongruentAdd(g, g, r, b, 16);
    CongruentMul(r, b, g + r, g + b, 16);
    ResidueOne(b * (g + b), r * (g + r), 16);
  }

  lemma ResidueOne(x: int, y: int, m: int)
    requires m > 1 && Congruent(y, x, m) && y % m == 1
    ensures Congruent(x, 1, m)
  {
    DivModUnique(1, m, 0, 1);
  }

  lemma GuessTable(r: nat)
    requires r < 16 && r % 2 == 1
    ensures r * ((r + 2) / 4 % 2 * 8 + r) % 16 == 1
  {
    assert r in {1, 3, 5, 7, 9, 11, 13, 15};
  }

  function Wrap(x: int): nat {
    x % DIGIT_WORD
  }

  /** x * (2 - b * x) in unsigned digit arithmetic. */
  function Newton(b: nat, x: nat): nat {
    Wrap(x * Wrap(2 - Wrap(b * x)))
  }

  /** Unsigned wrap-around is invisible modulo a power of two that divides the word. */
  lemma WrapNewton(b: nat, x: nat)
    ensures Congruent(Newton(b, x), x * (2 - b * x), DIGIT_WORD)
  {
    CongruentMod(b * x, DIGIT_WORD);
    CongruentAdd(2, 2, Wrap(b * x), b * x, DIGIT_WORD);
    CongruentMod(2 - Wrap(b * x), DIGIT_WORD);
    CongruentMul(x, x, Wrap(2 - Wrap(b * x)), 2 - b * x, DIGIT_WORD);
    CongruentMod(x * Wrap(2 - Wrap(b * x)), DIGIT_WORD);
  }

  lemma MaskedNewton(b: nat, x: nat, m: int, m': int, d: int)
    requires m > 0 && m' > 0 && m * m == m' && d > 0 && m' * d == BASE
    requires Congruent(b * x, 1, m)
    ensures Congruent(b * (Newton(b, x) % BASE), 1, m')
  {
    var y := Newton(b, x);
    WrapNewton(b, x);
    CongruentDivisor(y, x * (2 - b * x), BASE, 16);
    CongruentMod(y, BASE);
    CongruentDivisor(y % BASE, x * (2 - b * x), m', d);
    NewtonStep(b, x, y % BASE, m, m', 1);
  }

  /** rho with rho * n0 = -1 mod 2^28, by Newton doubling from four correct bits. */
  method MontgomerySetup(n: MpInt) returns (res: Status, rho: nat)
    requires n.Valid() && |n.dp| > 0
    ensures res == if n.Mag() % 2 == 0 then BadValue else Okay
    ensures res == Okay ==> rho < BASE && Congruent(rho * n.dp[0], -1, BASE)
  {
    hide Val, Weight;
    rho := 0;
    var b := n.dp[0];
    if n.used > 0 {
      LowBit(n.dp, n.used);
    } else {
      ValZero(n.dp);
    }
    if b % 2 == 0 {
      return BadValue, 0;
    }
    var x := (b + 2) / 4 % 2 * 8 + b;
    FirstGuess(b);
    rho := NewtonRounds(b, x);
    res := Okay;
  }

  /** The three Newton steps, the first two masked to a digit. */
  method NewtonRounds(b: nat, x0: nat) returns (rho: nat)
    requires b < BASE && Congruent(b * x0, 1, 16)
    ensures rho < BASE && Congruent(rho * b, -1, BASE)
  {
    hide Congruent, Newton;
    MaskedNewton(b, x0, 16, 0x100, 0x10_0000);
    var x := Newton(b, x0) % BASE;
    MaskedNewton(b, x, 0x100, 0x1_0000, 0x1000);
    x := Newton(b, x) % BASE;
    LastNewton(b, x);
    x := Newton(b, x);
    rho := (BASE - x) % COLUMN_WORD % BASE;
    NegatedInverse(b, x, rho);
  }

  lemma LastNewton(b: nat, x: nat)
    requires Congruent(b * x, 1, 0x1_0000)
    ensures Congruent(b * Newton(b, x), 1, BASE)
  {
    WrapNewton(b, x);
    NewtonStep(b, x, Newton(b, x), 0x1_0000, DIGIT_WORD, 1);
    CongruentDivisor(b * Newton(b, x), 1, BASE, 16);
  }

  lemma NegatedInverse(b: int, y: nat, rho: nat)
    requires Congruent(b * y, 1, BASE) && rho == (BASE - y) % COLUMN_WORD % BASE
    ensures Congruent(rho * b, -1, BASE)
  {
    CongruentMod(BASE - y, COLUMN_WORD);
    CongruentDivisor((BASE - y) % COLUMN_WORD, BASE - y, BASE, 0x10_0000_0000);
    CongruentMod((BASE - y) % COLUMN_WORD, BASE);
    CongruentMul(rho, BASE - y, b, b, BASE);
    Distribute(BASE, y, b);
    CongruentIfDiffer((BASE - y) * b, -(b * y), BASE, b);
    CongruentAdd(0, 0, b * y, 1, BASE);
  }

  // ----- R mod b by doubling

  /** A power of two no longer than an odd number of more than one digit is below it. */
  lemma PowerBelowOdd(b: nat, n: nat, e: nat)
    requires BitLength(b, n) && b % 2 == 1 && 0 < e < n
    ensures Pow(2, e) < b
  {
    PowMono(2, e, n - 1);
    assert Pow(2, e) == 2 * Pow(2, e - 1);
  }

  /** a = R mod b for R = 2^(28 * b.used), by doublings that stay below b. A modulus of one leaves one. */
  method CalcNormalization(a: MpInt, b: MpInt)
    requires a.Valid() && b.Valid() && a != b && |a.dp| > 0 && b.Mag() % 2 == 1
    modifies a
    ensures a.Valid() && a.sign == ZPos
    ensures Congruent(a.Mag(), Weight(b.used), b.Mag()) && a.Mag() <= b.Mag() && (b.Mag() > 1 ==> a.Mag() < b.Mag())
  {
    hide Val, Weight, Pow, Congruent;
    ghost var m := b.Mag();
    ZeroIsUnused(b);
    var count := CountBits(b);
    var bits: int := count % DIGIT_BIT;
    ghost var e;
    if b.used > 1 {
      e := (b.used - 1) * DIGIT_BIT + bits - 1;
      PowerBelowOdd(m, count, e);
      TwoExpt(a, (b.used - 1) * DIGIT_BIT + bits - 1);
    } else {
      a.Set(1);
      bits := 1;
      e := 0;
      PowZero(2);
    }
    PowPos(2, e);
    DoubleUp(a, b, bits - 1, e);
    WeightIsPow(b.used);
  }

  method DoubleUp(a: MpInt, b: MpInt, start: int, ghost e: nat)
    requires a.Valid() && b.Valid() && a != b && b.Mag() > 0 && a.Int() == Pow(2, e) > 0
    requires -1 <= start <= DIGIT_BIT && e + (DIGIT_BIT - start) == DIGIT_BIT * b.used
    requires a.Mag() <= b.Mag() && (b.Mag() > 1 ==> a.Mag() < b.Mag())
    modifies a
    ensures a.Valid() && a.sign == ZPos
    ensures Congruent(a.Mag(), Pow(2, DIGIT_BIT * b.used), b.Mag()) && a.Mag() <= b.Mag() && (b.Mag() > 1 ==> a.Mag() < b.Mag())
  {
    hide Val, Weight, Pow, Congruent;
    ZeroIsUnused(a);
    ReflCongruent(Pow(2, e), b.Mag());
    ghost var n := e;
    var x := start;
    while x < DIGIT_BIT
      invariant start <= x <= DIGIT_BIT && n + (DIGIT_BIT - x) == DIGIT_BIT * b.used
      invariant a.Valid() && a.sign == ZPos
      invariant a.Mag() <= b.Mag() && (b.Mag() > 1 ==> a.Mag() < b.Mag())
      invariant Congruent(a.Mag(), Pow(2, n), b.Mag())
    {
      DoubleMod(a.Mag(), n, b.Mag());
      Mul2(a, a);
      ZeroIsUnused(a);
      var r := CmpMag(a, b);
      if r != Lt {
        NoLonger(a, b);
        SubMag(a, b, a);
      }
      n := n + 1;
      x := x + 1;
    }
  }

  lemma DoubleMod(a: nat, n: nat, m: nat)
    requires m > 0 && Congruent(a, Pow(2, n), m)
    ensures Congruent(2 * a, Pow(2, n + 1), m) && Congruent(2 * a - m, Pow(2, n + 1), m)
  {
    CongruentMul(2, 2, a, Pow(2, n), m);
    CongruentIfDiffer(2 * a - m, 2 * a, m, -1);
  }

  // ----- column-wise reduction
  //
  // The columns w[0..2n] hold the number being reduced; row ix adds a multiple of the modulus
  // that clears column ix, then moves that column's carry up.

  /** The value of the columns from i up to n, at their weights. */
  function Upper(w: seq<nat>, i: nat, n: nat): int
    requires i <= n <= |w|
  {
    Val(w, n) - Val(w, i)
  }

  lemma UpperSet(w: seq<nat>, i: nat, n: nat, k: nat, d: nat)
    requires i <= k < n <= |w|
    ensures Upper(w[k := d], i, n) == Upper(w, i, n) + (d - w[k]) * Weight(k)
  {
    hide Val, Weight;
    ValSet(w, k, d, n);
    ValFrame(w, w[k := d], i);
  }

  /** A column's bound after r rows have been added to it, not counting a carry. */
  function CellBound(r: nat): nat {
    BASE - 1 + r * PRODUCT_MAX
  }

  /** With at most 255 rows neither a product nor a carry overflows a column. */
  lemma CellFits(r: nat, v: nat)
    requires r <= 255 && v <= CellBound(r) + CARRY_BOUND
    ensures v < COLUMN_WORD && v / BASE < CARRY_BOUND
  {
    MulLe(r, 255, PRODUCT_MAX);
  }

  lemma CellGrows(r: nat, v: nat, carry: nat, mu: nat, d: nat)
    requires v <= CellBound(r) + carry && mu < BASE && d < BASE
    ensures 0 <= mu * d && v + mu * d <= CellBound(r + 1) + carry
  {
    DigitProduct(mu, d);
    Distribute(r, 1, PRODUCT_MAX);
  }

  /** The multiplier of row ix makes its lowest column a multiple of the base. */
  lemma ClearsColumn(v: nat, rho: nat, n0: nat, mu: nat)
    requires Congruent(rho * n0, -1, BASE) && mu == v % BASE * rho % BASE
    ensures (v + mu * n0) % BASE == 0
  {
    CongruentMod(v, BASE);
    CongruentMod(v % BASE * rho, BASE);
    CongruentMul(v % BASE, v, rho, rho, BASE);
    CongruentMul(mu, v * rho, n0, n0, BASE);
    MulAssoc(v, rho, n0);
    CongruentMul(v, v, rho * n0, -1, BASE);
    CongruentAdd(v, v, mu * n0, v * -1, BASE);
  }

  /** Moving a cleared column's carry up keeps the value of what is above. */
  lemma CarryUp(w: seq<nat>, i: nat, n: nat)
    requires i + 1 < n <= |w| && w[i] % BASE == 0
    ensures Upper(w[i + 1 := w[i + 1] + w[i] / BASE], i + 1, n) == Upper(w, i, n)
  {
    hide Val, Weight;
    UpperSet(w, i + 1, n, i + 1, w[i + 1] + w[i] / BASE);
    ValStep(w, i);
    WeightStep(i);
    MulAssoc(w[i] / BASE, BASE, Weight(i));
  }

  /** mu times the low iy digits of n, at the weight of column ix. */
  function RowValue(mu: nat, n: seq<nat>, iy: nat, ix: nat): int
    requires iy <= |n|
  {
    mu * Val(n, iy) * Weight(ix)
  }

  /** Adds mu times the modulus, shifted by ix columns. */
  method AddRow(w: array<nat>, n: MpInt, mu: nat, ix: nat, ghost top: nat)
    requires n.Wf() && mu < BASE && ix + n.used < top <= w.Length && ix < 255
    requires forall k | ix <= k < top :: w[k] <= CellBound(ix) + (if k == ix then CARRY_BOUND else 0)
    modifies w
    ensures w[..ix] == old(w[..ix]) && forall k | top <= k < w.Length :: w[k] == old(w[k])
    ensures forall k | ix <= k < top :: w[k] <= CellBound(ix + 1) + (if k == ix then CARRY_BOUND else 0)
    ensures Upper(w[..], ix, top) == Upper(old(w[..]), ix, top) + RowValue(mu, n.dp, n.used, ix)
    ensures n.used > 0 ==> w[ix] == old(w[ix]) + mu * n.dp[0]
  {
    hide Val, Weight, Upper, CellBound, RowValue;
    ghost var w0 := w[..];
    var iy := 0;
    RowStart(mu, n.dp, ix);
    CellBoundGrows(ix);
    while iy < n.used
      invariant 0 <= iy <= n.used
      invariant w[..ix] == w0[..ix] && forall k | ix + iy <= k < w.Length :: w[k] == w0[k]
      invariant forall k | ix <= k < top :: w[k] <= CellBound(ix + 1) + (if k == ix then CARRY_BOUND else 0)
      invariant Upper(w[..], ix, top) == Upper(w0, ix, top) + RowValue(mu, n.dp, iy, ix)
      invariant iy > 0 ==> w[ix] == w0[ix] + mu * n.dp[0]
    {
      ghost var was := w[..];
      var p := mu * n.dp[iy];
      CellGrows(ix, w[ix + iy], if iy == 0 then CARRY_BOUND else 0, mu, n.dp[iy]);
      CellFits(ix + 1, w[ix + iy] + p);
      w[ix + iy] := w[ix + iy] + p;
      RowStep(was, ix, iy, top, mu, n.dp, p);
      assert w[..] == was[ix + iy := was[ix + iy] + p];
      iy := iy + 1;
    }
  }

  lemma CellBoundGrows(r: nat)
    ensures CellBound(r) <= CellBound(r + 1)
  {
    Distribute(r, 1, PRODUCT_MAX);
  }

  lemma RowStart(mu: nat, n: seq<nat>, ix: nat)
    ensures RowValue(mu, n, 0, ix) == 0
  {}

  lemma RowStep(w: seq<nat>, ix: nat, iy: nat, top: nat, mu: nat, n: seq<nat>, p: nat)
    requires ix + iy < top <= |w| && iy < |n| && p == mu * n[iy]
    ensures Upper(w[ix + iy := w[ix + iy] + p], ix, top)
         == Upper(w, ix, top) + RowValue(mu, n, iy + 1, ix) - RowValue(mu, n, iy, ix)
  {
    hide Val, Weight;
    UpperSet(w, ix, top, ix + iy, w[ix + iy] + p);
    ValStep(n, iy);
    WeightAdd(ix, iy);
    RowProduct(mu, Val(n, iy), n[iy], Weight(iy), Weight(ix));
  }

  lemma RowProduct(mu: nat, v: nat, d: nat, wy: nat, wx: nat)
    ensures mu * (v + d * wy) * wx == mu * v * wx + mu * d * (wx * wy)
  {
    Distribute(v, d * wy, mu);
    MulAssoc(mu, d, wy);
    Distribute(mu * v, mu * d * wy, wx);
    MulAssoc(mu * d, wy, wx);
  }

  /** The columns from i up to top hold x0 and some multiple m < b^i of the modulus. */
  ghost predicate Reducing(w: seq<nat>, i: nat, top: nat, x0: nat, m: nat, n: nat) {
    i <= top <= |w| && m < Weight(i) && Upper(w, i, top) == x0 + m * n
  }

  /** The bounds of the columns from i up to top after i rows. */
  ghost predicate CellsBounded(w: seq<nat>, i: nat, top: nat)
    requires top <= |w|
  {
    forall k | i <= k < top :: w[k] <= CellBound(i) + (if k == i then CARRY_BOUND else 0)
  }

  lemma RowReduces(w: seq<nat>, w': seq<nat>, i: nat, top: nat, x0: nat, m: nat, n: seq<nat>, nu: nat, mu: nat)
    returns (m': nat)
    requires nu <= |n| && mu < BASE && Reducing(w, i, top, x0, m, Val(n, nu)) && |w'| == |w| && i + 1 < top
    requires Upper(w', i, top) == Upper(w, i, top) + RowValue(mu, n, nu, i) && w'[i] % BASE == 0
    ensures Reducing(w'[i + 1 := w'[i + 1] + w'[i] / BASE], i + 1, top, x0, m', Val(n, nu))
  {
    hide Val, Weight;
    m' := m + mu * Weight(i);
    CarryUp(w', i, top);
    MulAssoc(mu, Val(n, nu), Weight(i));
    MulAssoc(mu, Weight(i), Val(n, nu));
    Distribute(m, mu * Weight(i), Val(n, nu));
    WeightStep(i);
    MulLe(mu, BASE - 1, Weight(i));
    Distribute(BASE, 1, Weight(i));
    MulNat(mu, Weight(i));
  }

  /** The row loop: every low column is cleared by a multiple of the modulus. */
  method ReduceRows(w: array<nat>, n: MpInt, rho: nat, top: nat, ghost x0: nat) returns (ghost m: nat)
    requires n.Wf() && n.used > 0 && n.used <= 255 && top == 2 * n.used + 1 <= w.Length
    requires Congruent(rho * n.dp[0], -1, BASE)
    requires Reducing(w[..], 0, top, x0, 0, n.Mag()) && CellsBounded(w[..], 0, top)
    modifies w
    ensures Reducing(w[..], n.used, top, x0, m, n.Mag()) && CellsBounded(w[..], n.used, top)
  {
    hide Val, Weight, Upper, CellBound, RowValue, Reducing, Congruent;
    m := 0;
    var ix := 0;
    while ix < n.used
      invariant 0 <= ix <= n.used
      invariant Reducing(w[..], ix, top, x0, m, n.Mag()) && CellsBounded(w[..], ix, top)
    {
      var mu := w[ix] % BASE * rho % BASE;
      ghost var was := w[..];
      ClearsColumn(w[ix], rho, n.dp[0], mu);
      AddRow(w, n, mu, ix, top);
      ghost var now := w[..];
      m := RowReduces(was, now, ix, top, x0, m, n.dp, n.used, mu);
      CellFits(ix + 1, w[ix]);
      w[ix + 1] := w[ix + 1] + w[ix] / BASE;
      assert w[..] == now[ix + 1 := now[ix + 1] + now[ix] / BASE];
      ix := ix + 1;
    }
  }

  // ----- carrying the remaining columns and copying them out

  /** After the rows, the columns from n.used up are the reduced number before its carries. */
  lemma ColumnsReduced(w: seq<nat>, nu: nat, top: nat, x0: nat, m: nat, n: nat)
    requires top == 2 * nu + 1 && Reducing(w, nu, top, x0, m, n) && x0 < n * Weight(nu)
    ensures var v := Val(w[nu..top], nu + 1);
            v * Weight(nu) == x0 + m * n && v < 2 * n
  {
    hide Val, Weight;
    ValSplit(w, nu, top);
    ValFrame(w[nu..], w[nu..top], nu + 1);
    var v := Val(w[nu..top], nu + 1);
    MulLe(m + 1, Weight(nu), n);
    Distribute(m, 1, n);
    Distribute(n, n, Weight(nu));
    MulLtCancel(v, 2 * n, Weight(nu));
  }

  /** Columns nu..ix carried into digits; cols are the columns as they were before. */
  ghost predicate Carrying(w: seq<nat>, digits: seq<nat>, cols: seq<nat>, nu: nat, ix: nat, carry: nat) {
    && 0 < nu <= 255 && nu + 1 <= ix <= 2 * nu + 1 < |w| && |digits| == |cols| == nu + 1
    && carry == w[ix - 1] / BASE < CARRY_BOUND
    && (forall k | 0 <= k < ix - nu :: digits[k] == w[nu + k] % BASE)
    && (forall k | ix <= k < 2 * nu + 1 :: w[k] == cols[k - nu] <= CellBound(nu))
    && Carried(digits, ix - nu, carry, Val(cols, ix - nu))
  }

  lemma CarryingStart(w: seq<nat>, nu: nat) returns (digits: seq<nat>)
    requires 0 < nu <= 255 && 2 * nu + 1 < |w| && CellsBounded(w, nu, 2 * nu + 1)
    ensures Carrying(w, digits, w[nu..2 * nu + 1], nu, nu + 1, w[nu] / BASE)
  {
    digits := seq(nu + 1, _ => 0)[0 := w[nu] % BASE];
    CellFits(nu, w[nu]);
    FirstCarry(seq(nu + 1, _ => 0), w[nu..2 * nu + 1], w[nu]);
  }

  lemma CarryingStep(w: seq<nat>, digits: seq<nat>, cols: seq<nat>, nu: nat, ix: nat, carry: nat)
    returns (digits': seq<nat>)
    requires Carrying(w, digits, cols, nu, ix, carry) && ix <= 2 * nu
    ensures var v := (w[ix] + w[ix - 1] / BASE) % COLUMN_WORD;
            Carrying(w[ix := v], digits', cols, nu, ix + 1, v / BASE)
  {
    hide Val, Weight, CellBound, Carried;
    assert w[ix] == cols[ix - nu] <= CellBound(nu);
    var v := (w[ix] + w[ix - 1] / BASE) % COLUMN_WORD;
    ColumnCarried(digits, ix - nu, carry, cols, nu);
    assert v == cols[ix - nu] + carry;
    digits' := digits[ix - nu := v % BASE];
    var w' := w[ix := v];
    assert forall k | 0 <= k < ix + 1 - nu :: digits'[k] == w'[nu + k] % BASE;
    assert forall k | ix + 1 <= k < 2 * nu + 1 :: w'[k] == cols[k - nu] <= CellBound(nu);
    assert Carrying(w', digits', cols, nu, ix + 1, v / BASE);
  }

  /** Carries upward through the remaining columns; the cell above them wraps and is never read.
      The ghost result lists the digits the columns come to. */
  method CarryColumns(w: array<nat>, nu: nat) returns (ghost digits: seq<nat>, ghost carry: nat)
    requires 0 < nu <= 255 && 2 * nu + 1 < w.Length && CellsBounded(w[..], nu, 2 * nu + 1)
    modifies w
    ensures |digits| == nu + 1 && forall k | 0 <= k <= nu :: digits[k] == w[nu + k] % BASE
    ensures Carried(digits, nu + 1, carry, Val(old(w[nu..2 * nu + 1]), nu + 1))
  {
    hide Val, Weight, CellBound, Carried;
    ghost var cols := w[..][nu..2 * nu + 1];
    assert cols == w[nu..2 * nu + 1];
    digits := CarryingStart(w[..], nu);
    var ix := nu + 1;
    carry := w[ix - 1] / BASE;
    while ix <= 2 * nu
      invariant nu + 1 <= ix <= 2 * nu + 1 && Carrying(w[..], digits, cols, nu, ix, carry)
    {
      ghost var was := w[..];
      digits := CarryingStep(was, digits, cols, nu, ix, carry);
      w[ix] := (w[ix] + w[ix - 1] / BASE) % COLUMN_WORD;
      carry := w[ix] / BASE;
      assert w[..] == was[ix := w[ix]];
      ix := ix + 1;
    }
    w[ix] := (w[ix] + w[ix - 1] / BASE) % COLUMN_WORD;
  }

  lemma ColumnCarried(digits: seq<nat>, j: nat, carry: nat, cols: seq<nat>, nu: nat)
    requires j < |digits| && j < |cols| && nu <= 255 && cols[j] <= CellBound(nu) && carry < CARRY_BOUND
    requires Carried(digits, j, carry, Val(cols, j))
    ensures var v := cols[j] + carry;
            v < COLUMN_WORD && v / BASE < CARRY_BOUND && Carried(digits[j := v % BASE], j + 1, v / BASE, Val(cols, j + 1))
  {
    hide Val, Weight, CellBound, Carried;
    var v := cols[j] + carry;
    CellFits(nu, v);
    CarryColumn(digits, digits[j := v % BASE], j, carry, v / BASE, cols[j], Val(cols, j));
    ValStep(cols, j);
  }

  lemma FirstCarry(digits: seq<nat>, cols: seq<nat>, c: nat)
    requires |digits| > 0 && |cols| > 0 && cols[0] == c
    ensures Carried(digits[0 := c % BASE], 1, c / BASE, Val(cols, 1))
  {
    assert Weight(0) == 1 && Weight(1) == BASE;
    assert Val(cols, 0) == 0 && Val(digits[0 := c % BASE], 0) == 0;
  }

  /** The columns before any row: the digits of x, then zeros. */
  lemma ColumnsLoaded(w: seq<nat>, x: seq<nat>, used: nat, nu: nat)
    requires used <= |x| && used <= 2 * nu + 1 <= |w| && Digits(x)
    requires (forall k | 0 <= k < used :: w[k] == x[k]) && forall k | used <= k < 2 * nu + 1 :: w[k] == 0
    ensures Reducing(w, 0, 2 * nu + 1, Val(x, used), 0, 0) && CellsBounded(w, 0, 2 * nu + 1)
  {
    ValFrame(w, x, used);
    ValZeros(w, used, 2 * nu + 1);
  }

  /** Whatever the modulus, no multiple of it has been added yet. */
  lemma NoneAdded(w: seq<nat>, top: nat, x0: nat, n: nat)
    requires Reducing(w, 0, top, x0, 0, 0)
    ensures Reducing(w, 0, top, x0, 0, n)
  {}

  /** A number below n * b^nu has at most 2 * nu digits. */
  lemma AtMostDouble(x: MpInt, n: MpInt)
    requires x.Valid() && n.Valid() && x.Mag() < n.Mag() * Weight(n.used)
    ensures x.used <= 2 * n.used
  {
    hide Val, Weight;
    if x.used > 2 * n.used {
      ValLower(x.dp, x.used);
      WeightMono(2 * n.used, x.used - 1);
      WeightAdd(n.used, n.used);
      ValBound(n.dp, n.used);
      MulLe(n.Mag(), Weight(n.used), Weight(n.used));
    }
  }

  /** Copies the digits of x into the columns and zeros the rest. */
  method LoadColumns(x: MpInt, nu: nat) returns (w: array<nat>)
    requires x.Valid() && x.used <= 2 * nu + 1 < MP_WARRAY
    ensures fresh(w) && w.Length == MP_WARRAY
    ensures Reducing(w[..], 0, 2 * nu + 1, x.Mag(), 0, 0) && CellsBounded(w[..], 0, 2 * nu + 1)
  {
    hide Val, Weight, Reducing, CellsBounded;
    w := new nat[MP_WARRAY];
    var ix := 0;
    while ix < x.used
      invariant 0 <= ix <= x.used && forall k | 0 <= k < ix :: w[k] == x.dp[k]
    {
      w[ix] := x.dp[ix];
      ix := ix + 1;
    }
    while ix < 2 * nu + 1
      invariant x.used <= ix <= 2 * nu + 1
      invariant (forall k | 0 <= k < x.used :: w[k] == x.dp[k]) && forall k | x.used <= k < ix :: w[k] == 0
    {
      w[ix] := 0;
      ix := ix + 1;
    }
    ColumnsLoaded(w[..], x.dp, x.used, nu);
  }

  /** The top nu + 1 columns, masked to digits, become x. */
  method StoreColumns(w: array<nat>, x: MpInt, nu: nat, ghost digits: seq<nat>)
    requires x.Valid() && nu < |x.dp| && 2 * nu < w.Length
    requires |digits| == nu + 1 && forall k | 0 <= k <= nu :: digits[k] == w[nu + k] % BASE
    modifies x
    ensures x.Valid() && x.Mag() == Val(digits, nu + 1) && x.sign == if x.used == 0 then ZPos else old(x.sign)
  {
    hide Val;
    var oldUsed := x.used;
    x.used := nu + 1;
    ghost var d := x.dp;
    var ix := 0;
    while ix < nu + 1
      invariant 0 <= ix <= nu + 1 && |x.dp| == |d| && Digits(x.dp) && x.used == nu + 1 && x.sign == old(x.sign)
      invariant forall k | 0 <= k < ix :: x.dp[k] == digits[k]
      invariant forall k | ix <= k < |d| :: x.dp[k] == d[k]
    {
      x.dp := x.dp[ix := w[nu + ix] % BASE];
      ix := ix + 1;
    }
    ValFrame(digits, x.dp, nu + 1);
    x.ClearAbove(oldUsed);
    x.Clamp();
  }

  /** The reduced number before its last subtraction: v * R = x0 + m * n, digit by digit. */
  lemma DigitsReduced(digits: seq<nat>, carry: nat, w: seq<nat>, nu: nat, x0: nat, m: nat, n: nat)
    requires |digits| == nu + 1 && Digits(digits) && 2 * nu + 1 <= |w| && n < Weight(nu)
    requires Reducing(w, nu, 2 * nu + 1, x0, m, n) && x0 < n * Weight(nu)
    requires Carried(digits, nu + 1, carry, Val(w[nu..2 * nu + 1], nu + 1))
    ensures Val(digits, nu + 1) * Weight(nu) == x0 + m * n && Val(digits, nu + 1) < 2 * n
  {
    hide Val, Weight;
    ColumnsReduced(w, nu, 2 * nu + 1, x0, m, n);
    WeightStep(nu);
    CarryGone(digits, nu + 1, carry, Val(w[nu..2 * nu + 1], nu + 1));
  }

  /** Either way the last subtraction leaves a reduced number congruent to x0 / R. */
  lemma ReducedCongruent(v: nat, v': nat, r: nat, x0: nat, m: nat, n: nat)
    requires n > 0 && v * r == x0 + m * n && (v' == v || v' + n == v)
    ensures Congruent(v' * r, x0, n)
  {
    if v' == v {
      CongruentIfDiffer(v' * r, x0, n, m);
    } else {
      Distribute(v, n, r);
      Distribute(m, r, n);
      CongruentIfDiffer(v' * r, x0, n, m - r);
    }
  }

  /** x becomes x / R mod n for R = b^n.used: the result times R is congruent to x, and it is below n. */
  method MontgomeryReduce(x: MpInt, n: MpInt, rho: nat)
    requires x.Valid() && n.Valid() && x != n && 0 < n.used <= 255 && x.sign == ZPos
    requires x.Mag() < n.Mag() * Weight(n.used) && Congruent(rho * n.dp[0], -1, BASE)
    modifies x
    ensures x.Valid() && x.sign == ZPos && x.Mag() < n.Mag()
    ensures Congruent(x.Mag() * Weight(n.used), old(x.Mag()), n.Mag())
  {
    hide Val, Weight, Reducing, Congruent, CellsBounded, Carried;
    ghost var x0, nu := x.Mag(), n.used;
    AtMostDouble(x, n);
    if |x.dp| < n.used + 1 {
      x.Grow(n.used + 1);
    }
    var w := LoadColumns(x, n.used);
    NoneAdded(w[..], 2 * nu + 1, x0, n.Mag());
    ghost var m := ReduceRows(w, n, rho, 2 * n.used + 1, x0);
    ghost var cols := w[..];
    assert cols[nu..2 * nu + 1] == w[nu..2 * nu + 1];
    ghost var digits, carry := CarryColumns(w, n.used);
    ValBound(n.dp, n.used);
    DigitsReduced(digits, carry, cols, nu, x0, m, n.Mag());
    StoreColumns(w, x, n.used, digits);
    var order := CmpMag(x, n);
    if order != Lt {
      NoLonger(x, n);
      SubMag(x, n, x);
    }
    ReducedCongruent(Val(digits, nu + 1), x.Mag(), Weight(nu), x0, m, n.Mag());
  }
}
