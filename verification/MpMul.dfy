/** Column-wise (Comba) multiplication and squaring, and multiplication modulo a number. */
module MpMul {
  import opened Numbers
  import opened MpCore
  import opened MpCompare
  import opened MpDiv

  const MP_WARRAY: nat := 512

  // ----- the columns of a product

  /** Column k of the product of the low na digits of a and the low nb digits of b. */
  function Column(a: seq<nat>, na: nat, b: seq<nat>, nb: nat, k: nat): nat
    requires na <= |a| && nb <= |b|
  {
    if na == 0 then 0 else Column(a, na - 1, b, nb, k) + Term(a, na - 1, b, nb, k)
  }

  function Term(a: seq<nat>, i: nat, b: seq<nat>, nb: nat, k: nat): nat
    requires i < |a| && nb <= |b|
  {
    if i <= k < i + nb then MulNat(a[i], b[k - i]); a[i] * b[k - i] else 0
  }

  /** The first n columns at their weights. */
  function Columns(a: seq<nat>, na: nat, b: seq<nat>, nb: nat, n: nat): nat
    requires na <= |a| && nb <= |b|
  {
    if n == 0 then 0
    else
      MulNat(Column(a, na, b, nb, n - 1), Weight(n - 1));
      Columns(a, na, b, nb, n - 1) + Column(a, na, b, nb, n - 1) * Weight(n - 1)
  }

  /** What row i of the multiplication adds to the first n columns. */
  lemma {:induction false} OneRow(a: seq<nat>, i: nat, b: seq<nat>, nb: nat, n: nat)
    requires i < |a| && nb <= |b| && n <= i + nb
    ensures Columns(a, i + 1, b, nb, n) == Columns(a, i, b, nb, n) + (if n <= i then 0 else a[i] * Weight(i) * Val(b, n - i))
  {
    if n > 0 {
      OneRow(a, i, b, nb, n - 1);
      var w := Weight(n - 1);
      Distribute(Column(a, i, b, nb, n - 1), Term(a, i, b, nb, n - 1), w);
      if n - 1 >= i {
        WeightAdd(i, n - 1 - i);
        RowTerm(a[i], b[n - 1 - i], Weight(i), Weight(n - 1 - i), Val(b, n - 1 - i));
      }
    }
  }

  lemma RowTerm(x: nat, y: nat, w: nat, v: nat, low: nat)
    ensures x * w * (low + y * v) == x * w * low + x * y * (w * v)
  {
    Distribute(low, y * v, x * w);
    MulExchange(x, w, y, v);
  }

  lemma {:induction false} NoColumn(a: seq<nat>, na: nat, b: seq<nat>, nb: nat, k: nat)
    requires na <= |a| && nb <= |b| && k >= na + nb
    ensures Column(a, na, b, nb, k) == 0
  {
    if na > 0 { NoColumn(a, na - 1, b, nb, k); }
  }

  lemma {:induction false} NoRows(a: seq<nat>, b: seq<nat>, nb: nat, n: nat)
    requires nb <= |b|
    ensures Columns(a, 0, b, nb, n) == 0
  {
    if n > 0 { NoRows(a, b, nb, n - 1); }
  }

  /** All columns together are the product of the values. */
  lemma {:induction false} ColumnsAreProduct(a: seq<nat>, na: nat, b: seq<nat>, nb: nat)
    requires na <= |a| && nb <= |b|
    ensures Columns(a, na, b, nb, na + nb) == Val(a, na) * Val(b, nb)
  {
    if na == 0 {
      NoRows(a, b, nb, nb);
    } else {
      var i := na - 1;
      ColumnsAreProduct(a, i, b, nb);
      OneRow(a, i, b, nb, i + nb);
      Distribute(Val(a, i), a[i] * Weight(i), Val(b, nb));
      NoColumn(a, i, b, nb, i + nb);
    }
  }

  // ----- running through the columns with a carry

  /** The n digits written and the carry hold the first n columns. */
  ghost predicate Carried(w: seq<nat>, n: nat, carry: nat, total: nat) {
    n <= |w| && Val(w, n) + carry * Weight(n) == total
  }

  lemma CarryColumn(was: seq<nat>, now: seq<nat>, n: nat, carry: nat, carry': nat, column: nat, total: nat)
    requires n < |was| == |now| && now[..n] == was[..n]
    requires now[n] + carry' * BASE == carry + column
    requires Carried(was, n, carry, total)
    ensures total + column * Weight(n) >= 0 && Carried(now, n + 1, carry', total + column * Weight(n))
  {
    hide Val, Weight;
    ValFrame(was, now, n);
    ValStep(now, n);
    WeightStep(n);
    MulNat(column, Weight(n));
    MulAssoc(carry', BASE, Weight(n));
    Distribute(now[n], carry' * BASE, Weight(n));
    Distribute(carry, column, Weight(n));
  }

  /** A carry below 2^36 and at most 256 digit products never reach the 64-bit word. */
  const CARRY_BOUND := 0x10_0000_0000
  const PRODUCT_MAX := (BASE - 1) * (BASE - 1)

  lemma AccumulatorFits(carry: nat, terms: nat, acc: nat)
    requires carry < CARRY_BOUND && terms <= 256 && Bounded(carry, terms, acc)
    ensures acc < COLUMN_WORD && acc / BASE < CARRY_BOUND
  {
    MulLe(terms, 256, PRODUCT_MAX);
  }

  lemma DigitProduct(x: nat, y: nat)
    requires x < BASE && y < BASE
    ensures 0 <= x * y <= PRODUCT_MAX
  {
    MulLe(x, BASE - 1, y);
    MulLe(y, BASE - 1, BASE - 1);
    MulNat(x, y);
  }

  /** Rows below the first overlapping digit and above the last one do not touch a column. */
  lemma {:induction false} ColumnStarts(a: seq<nat>, i: nat, b: seq<nat>, nb: nat, k: nat)
    requires i <= |a| && nb <= |b| && (i == 0 || i + nb <= k + 1)
    ensures Column(a, i, b, nb, k) == 0
  {
    if i > 0 { ColumnStarts(a, i - 1, b, nb, k); }
  }

  lemma {:induction false} ColumnEnds(a: seq<nat>, i: nat, na: nat, b: seq<nat>, nb: nat, k: nat)
    requires i <= na <= |a| && nb <= |b| && (i > k || i == na)
    ensures Column(a, na, b, nb, k) == Column(a, i, b, nb, k)
  {
    if i < na { ColumnEnds(a, i, na - 1, b, nb, k); }
  }

  /** The inner loop of the multiplier: one column added to the carry in the 64-bit accumulator. */
  method AddColumn(a: MpInt, b: MpInt, ix: nat, carry: nat) returns (acc: nat)
    requires a.Wf() && b.Wf() && ix < a.used + b.used && carry < CARRY_BOUND
    requires Min(a.used, b.used) <= 256
    ensures acc == carry + Column(a.dp, a.used, b.dp, b.used, ix) < COLUMN_WORD && acc / BASE < CARRY_BOUND
  {
    hide Column, Bounded;
    var ty := Min(b.used - 1, ix);
    var tx := ix - ty;
    var iy := Min(a.used - tx, ty + 1);
    acc := carry;
    var iz := 0;
    ColumnStarts(a.dp, tx, b.dp, b.used, ix);
    BoundedStart(carry);
    while iz < iy
      invariant 0 <= iz <= iy
      invariant acc == carry + Column(a.dp, tx + iz, b.dp, b.used, ix) && Bounded(carry, iz, acc)
    {
      ColumnGrows(a.dp, tx + iz, b.dp, b.used, ix, carry, iz, acc);
      acc := acc + a.dp[tx + iz] * b.dp[ty - iz];
      assert acc < COLUMN_WORD;
      iz := iz + 1;
    }
    ColumnEnds(a.dp, tx + iz, a.used, b.dp, b.used, ix);
    AccumulatorFits(carry, iz, acc);
  }

  ghost predicate Bounded(carry: nat, terms: nat, acc: nat) {
    acc <= carry + terms * PRODUCT_MAX
  }

  lemma BoundedStart(carry: nat)
    ensures Bounded(carry, 0, carry)
  {}

  lemma ColumnGrows(a: seq<nat>, i: nat, b: seq<nat>, nb: nat, k: nat, carry: nat, terms: nat, acc: nat)
    requires i < |a| && nb <= |b| && i <= k < i + nb && Digits(a) && Digits(b)
    requires carry < CARRY_BOUND && terms < 256 && Bounded(carry, terms, acc)
    requires acc == carry + Column(a, i, b, nb, k)
    ensures var p := a[i] * b[k - i];
            && p >= 0
            && acc + p == carry + Column(a, i + 1, b, nb, k) < COLUMN_WORD
            && Bounded(carry, terms + 1, acc + p)
  {
    DigitProduct(a[i], b[k - i]);
    Distribute(terms, 1, PRODUCT_MAX);
    AccumulatorFits(carry, terms + 1, acc + a[i] * b[k - i]);
  }

  /** The outer loop of the multiplier: every column reduced to a digit. */
  method MulColumns(a: MpInt, b: MpInt, w: array<nat>, pa: nat) returns (carry: nat)
    requires a.Wf() && b.Wf() && pa == a.used + b.used < w.Length && Min(a.used, b.used) <= 256
    modifies w
    ensures carry < CARRY_BOUND && forall k | 0 <= k < pa :: w[k] < BASE
    ensures Carried(w[..], pa, carry, Columns(a.dp, a.used, b.dp, b.used, pa))
  {
    hide Val, Weight, Columns, Column, Carried;
    carry := 0;
    var ix := 0;
    CarryStart(w[..], a.dp, a.used, b.dp, b.used);
    while ix < pa
      invariant 0 <= ix <= pa && carry < CARRY_BOUND
      invariant forall k | 0 <= k < ix :: w[k] < BASE
      invariant Carried(w[..], ix, carry, Columns(a.dp, a.used, b.dp, b.used, ix))
    {
      ghost var was, carry0 := w[..], carry;
      var acc := AddColumn(a, b, ix, carry);
      w[ix] := acc % BASE;
      carry := acc / BASE;
      ColumnsStep(a.dp, a.used, b.dp, b.used, ix);
      CarryColumn(was, w[..], ix, carry0, carry, Column(a.dp, a.used, b.dp, b.used, ix),
                  Columns(a.dp, a.used, b.dp, b.used, ix));
      ix := ix + 1;
    }
  }

  /** c = a * b into a fresh column buffer and from there into c, which may be a or b. */
  method MulDigs(a: MpInt, b: MpInt, c: MpInt)
    requires a.Valid() && b.Valid() && c.Valid()
    requires a.used + b.used + 1 < MP_WARRAY && Min(a.used, b.used) <= 256
    modifies c
    ensures c.Valid() && c.Int() == old(a.Int()) * old(b.Int())
  {
    hide Val, Weight;
    var neg := if a.sign == b.sign then ZPos else Neg;
    ghost var product := a.Mag() * b.Mag();
    SignedProduct(a, b);
    if |c.dp| < a.used + b.used + 1 {
      c.Grow(a.used + b.used + 1);
    }
    var pa := a.used + b.used;
    var w := Product(a, b, pa, product);
    CopyOut(w, c, pa, pa + 1, product);
    ZeroIsUnused(c);
    c.sign := if c.used > 0 then neg else ZPos;
  }

  method Product(a: MpInt, b: MpInt, pa: nat, ghost product: nat) returns (w: array<nat>)
    requires a.Wf() && b.Wf() && pa == a.used + b.used < MP_WARRAY - 1 && Min(a.used, b.used) <= 256
    requires product == a.Mag() * b.Mag()
    ensures fresh(w) && w.Length == MP_WARRAY && w[pa] == 0 && forall k | 0 <= k < pa :: w[k] < BASE
    ensures Val(w[..], pa) == product
  {
    hide Val, Weight, Columns, Column, Carried;
    w := new nat[MP_WARRAY];
    var carry := MulColumns(a, b, w, pa);
    ghost var was := w[..];
    NoCarryLeft(a, b, was, carry);
    w[pa] := carry % BASE;
    ValFrame(was, w[..], pa);
  }

  lemma SignedProduct(a: MpInt, b: MpInt)
    requires a.Wf() && b.Wf()
    ensures a.Mag() * b.Mag() >= 0
    ensures a.Int() * b.Int() == var m := a.Mag() * b.Mag(); if a.sign == b.sign then m else -m
  {
    MulNat(a.Mag(), b.Mag());
  }

  lemma NoCarryLeft(a: MpInt, b: MpInt, w: seq<nat>, carry: nat)
    requires a.Wf() && b.Wf() && a.used + b.used <= |w|
    requires Carried(w, a.used + b.used, carry, Columns(a.dp, a.used, b.dp, b.used, a.used + b.used))
    ensures a.Mag() * b.Mag() >= 0 && carry == 0 && Val(w, a.used + b.used) == a.Mag() * b.Mag()
  {
    ColumnsAreProduct(a.dp, a.used, b.dp, b.used);
    ProductLength(a, b);
    CarryGone(w, a.used + b.used, carry, a.Mag() * b.Mag());
  }

  /** The first cells of the column buffer become the digits of c, n of them used. */
  method CopyOut(w: array<nat>, c: MpInt, n: nat, cells: nat, ghost value: nat)
    requires c.Valid() && n <= cells <= n + 1 && cells <= w.Length && cells <= |c.dp|
    requires (forall k | 0 <= k < n :: w[k] < BASE) && (forall k | n <= k < cells :: w[k] == 0)
    requires value == Val(w[..], n)
    modifies c
    ensures c.Valid() && c.Mag() == value && c.used <= n && |c.dp| == old(|c.dp|)
    ensures c.sign == if c.used == 0 then ZPos else old(c.sign)
  {
    hide Val;
    var oldUsed := c.used;
    c.used := n;
    ghost var d := c.dp;
    var ix := 0;
    while ix < cells
      invariant 0 <= ix <= cells && |c.dp| == |d| && Digits(c.dp) && c.used == n && c.sign == old(c.sign)
      invariant forall k | 0 <= k < ix :: c.dp[k] == w[k]
      invariant forall k | ix <= k < |d| :: c.dp[k] == d[k]
    {
      c.dp := c.dp[ix := w[ix]];
      ix := ix + 1;
    }
    ValFrame(w[..], c.dp, n);
    c.ClearAbove(oldUsed);
    c.Clamp();
  }

  /** c = a * b. */
  method Mul(a: MpInt, b: MpInt, c: MpInt)
    requires a.Valid() && b.Valid() && c.Valid()
    requires a.used + b.used + 1 < MP_WARRAY && Min(a.used, b.used) <= 256
    modifies c
    ensures c.Valid() && c.Int() == old(a.Int()) * old(b.Int())
  {
    var neg := if a.sign == b.sign then ZPos else Neg;
    ghost var product := a.Int() * b.Int();
    SignedProduct(a, b);
    MulDigs(a, b, c);
    ZeroIsUnused(c);
    c.sign := if c.used > 0 then neg else ZPos;
  }

  lemma CarryStart(w: seq<nat>, a: seq<nat>, na: nat, b: seq<nat>, nb: nat)
    requires na <= |a| && nb <= |b|
    ensures Carried(w, 0, 0, Columns(a, na, b, nb, 0))
  {}

  lemma ColumnsStep(a: seq<nat>, na: nat, b: seq<nat>, nb: nat, n: nat)
    requires na <= |a| && nb <= |b|
    ensures Columns(a, na, b, nb, n + 1) == Columns(a, na, b, nb, n) + Column(a, na, b, nb, n) * Weight(n)
  {}

  /** A product has no more digits than its factors together. */
  lemma ProductLength(a: MpInt, b: MpInt)
    requires a.Wf() && b.Wf()
    ensures 0 <= a.Mag() * b.Mag() < Weight(a.used + b.used)
  {
    hide Val, Weight;
    ValBound(a.dp, a.used);
    ValBound(b.dp, b.used);
    WeightAdd(a.used, b.used);
    MulNat(a.Mag(), b.Mag());
    MulLe(a.Mag(), Weight(a.used), b.Mag());
    MulLt(b.Mag(), Weight(b.used), Weight(a.used));
  }

  lemma CarryGone(w: seq<nat>, n: nat, carry: nat, total: nat)
    requires Carried(w, n, carry, total) && total < Weight(n)
    ensures carry == 0 && Val(w, n) == total
  {
    hide Val, Weight;
    if carry >= 1 {
      MulLe(1, carry, Weight(n));
    }
  }

  // ----- squaring

  /** The terms of a square's column pair up: the last j of them are the first j reversed. */
  lemma {:induction false} ColumnReflects(a: seq<nat>, n: nat, k: nat, j: nat)
    requires n <= |a| && j <= (k + 1) / 2
    ensures Column(a, Min(k + 1, n), a, n, k) == Column(a, Min(k + 1 - j, n), a, n, k) + Column(a, Min(j, n), a, n, k)
  {
    if j > 0 {
      ColumnReflects(a, n, k, j - 1);
      if j - 1 < n && k - (j - 1) < n {
        assert a[j - 1] * a[k - (j - 1)] == a[k - (j - 1)] * a[j - 1];
      }
    }
  }

  /** A column of a square is twice the sum of its lower half, and the square of the middle digit. */
  lemma ColumnOfSquare(a: seq<nat>, n: nat, k: nat)
    requires n <= |a| && k < 2 * n
    ensures var half := Column(a, (k + 1) / 2, a, n, k);
            Column(a, n, a, n, k) == 2 * half + (if k % 2 == 0 then a[k / 2] * a[k / 2] else 0)
  {
    ColumnReflects(a, n, k, (k + 1) / 2);
    ColumnEnds(a, Min(k + 1, n), n, a, n, k);
  }

  /** The inner loop of the squarer: half the products, doubled, with the carry and the middle square. */
  method AddSquareColumn(a: MpInt, ix: nat, carry: nat) returns (acc: nat)
    requires a.Wf() && ix < 2 * a.used && carry < CARRY_BOUND && a.used <= 256
    ensures acc == carry + Column(a.dp, a.used, a.dp, a.used, ix) < COLUMN_WORD && acc / BASE < CARRY_BOUND
  {
    hide Column, Bounded;
    var ty := Min(a.used - 1, ix);
    var tx := ix - ty;
    var iy := Min(a.used - tx, ty + 1);
    iy := Min(iy, (ty - tx + 1) / 2);
    acc := 0;
    var iz := 0;
    ColumnStarts(a.dp, tx, a.dp, a.used, ix);
    BoundedStart(0);
    while iz < iy
      invariant 0 <= iz <= iy
      invariant acc == Column(a.dp, tx + iz, a.dp, a.used, ix) && Bounded(0, iz, acc)
    {
      ColumnGrows(a.dp, tx + iz, a.dp, a.used, ix, 0, iz, acc);
      acc := acc + a.dp[tx + iz] * a.dp[ty - iz];
      iz := iz + 1;
    }
    assert tx + iz == (ix + 1) / 2;
    ColumnOfSquare(a.dp, a.used, ix);
    DoubledFits(carry, iy, acc, if ix % 2 == 0 then a.dp[ix / 2] else 0, a.used, ix % 2 == 0);
    acc := acc + acc + carry;
    if ix % 2 == 0 {
      acc := acc + a.dp[ix / 2] * a.dp[ix / 2];
    }
  }

  lemma DoubledFits(carry: nat, terms: nat, acc: nat, x: nat, used: nat, even: bool)
    requires carry < CARRY_BOUND && Bounded(0, terms, acc) && x < BASE && used <= 256
    requires if even then 2 * terms + 1 <= used else 2 * terms <= used && x == 0
    ensures 0 <= acc + acc + carry <= acc + acc + carry + x * x < COLUMN_WORD
    ensures (acc + acc + carry + x * x) / BASE < CARRY_BOUND
  {
    DigitProduct(x, x);
    Distribute(terms, terms, PRODUCT_MAX);
    Distribute(2 * terms, 1, PRODUCT_MAX);
    AccumulatorFits(carry, if even then 2 * terms + 1 else 2 * terms, acc + acc + carry + x * x);
  }

  method SquareColumns(a: MpInt, w: array<nat>, pa: nat) returns (carry: nat)
    requires a.Wf() && pa == a.used + a.used <= w.Length && a.used <= 256
    modifies w
    ensures carry < CARRY_BOUND && forall k | 0 <= k < pa :: w[k] < BASE
    ensures Carried(w[..], pa, carry, Columns(a.dp, a.used, a.dp, a.used, pa))
  {
    hide Val, Weight, Columns, Column, Carried;
    carry := 0;
    var ix := 0;
    CarryStart(w[..], a.dp, a.used, a.dp, a.used);
    while ix < pa
      invariant 0 <= ix <= pa && carry < CARRY_BOUND
      invariant forall k | 0 <= k < ix :: w[k] < BASE
      invariant Carried(w[..], ix, carry, Columns(a.dp, a.used, a.dp, a.used, ix))
    {
      ghost var was, carry0 := w[..], carry;
      var acc := AddSquareColumn(a, ix, carry);
      w[ix] := acc % BASE;
      carry := acc / BASE;
      ColumnsStep(a.dp, a.used, a.dp, a.used, ix);
      CarryColumn(was, w[..], ix, carry0, carry, Column(a.dp, a.used, a.dp, a.used, ix),
                  Columns(a.dp, a.used, a.dp, a.used, ix));
      ix := ix + 1;
    }
  }

  method Square(a: MpInt, pa: nat, ghost product: nat) returns (w: array<nat>)
    requires a.Wf() && pa == a.used + a.used <= MP_WARRAY && product == a.Mag() * a.Mag()
    ensures fresh(w) && w.Length == MP_WARRAY && forall k | 0 <= k < pa :: w[k] < BASE
    ensures Val(w[..], pa) == product
  {
    hide Val, Weight, Columns, Column, Carried;
    w := new nat[MP_WARRAY];
    var carry := SquareColumns(a, w, pa);
    NoCarryLeft(a, a, w[..], carry);
  }

  /** |b| = a * a; the sign of b is left as it was. */
  method Sqr(a: MpInt, b: MpInt)
    requires a.Valid() && b.Valid() && 2 * a.used <= MP_WARRAY
    modifies b
    ensures b.Valid() && b.Mag() == old(a.Mag()) * old(a.Mag())
    ensures b.sign == if b.used == 0 then ZPos else old(b.sign)
  {
    hide Val, Weight;
    ghost var product := a.Mag() * a.Mag();
    SignedProduct(a, a);
    if |b.dp| < a.used + a.used {
      b.Grow(a.used + a.used);
    }
    var pa := a.used + a.used;
    var w := Square(a, pa, product);
    CopyOut(w, b, pa, pa, product);
  }

  /** d = a * b mod c. */
  method MulMod(a: MpInt, b: MpInt, c: MpInt, d: MpInt) returns (res: Status)
    requires a.Valid() && b.Valid() && c.Valid() && d.Valid()
    requires a.used + b.used + 1 < MP_WARRAY && Min(a.used, b.used) <= 256
    modifies d
    ensures d.Valid() && res == if old(c.Int()) == 0 then BadValue else Okay
    ensures res == Okay ==> d.Int() == ModResult(old(a.Int()) * old(b.Int()), old(c.Int()))
  {
    var t := new MpInt.Init();
    Mul(a, b, t);
    res := Mod(t, c, d);
  }
}
