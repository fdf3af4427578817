/** The multiple-precision integer and the operations that do no arithmetic:
    growing, clamping, copying, setting, exchanging and comparing. */
module MpCore {
  import opened Numbers

  datatype Sign = ZPos | Neg

  datatype Status = Okay | BadValue

  datatype Order = Lt | Eq | Gt

  const MP_PREC: nat := 64

  /** dp is the allocated buffer: its length is the alloc count, its first used digits are the number. */
  class MpInt {
    var used: nat
    var sign: Sign
    var dp: seq<nat>

    /** Digits in range, zeros above the used ones; the top digit may be zero. */
    ghost predicate Wf()
      reads this
    {
      && used <= |dp|
      && Digits(dp)
      && forall k | used <= k < |dp| :: dp[k] == 0
    }

    /** Wf, clamped, and a zero is positive. */
    ghost predicate Valid()
      reads this
    {
      && Wf()
      && (used > 0 ==> dp[used - 1] != 0)
      && (used == 0 ==> sign == ZPos)
    }

    ghost function Mag(): nat
      requires Wf()
      reads this
    {
      Val(dp, used)
    }

    ghost function Int(): int
      requires Wf()
      reads this
    {
      var m: int := Mag(); if sign == Neg then -m else m
    }

    constructor Init()
      ensures Valid() && used == 0 && Int() == 0 && |dp| == MP_PREC
    {
      used := 0;
      sign := ZPos;
      dp := seq(MP_PREC, _ => 0);
    }

    constructor InitSize(size: nat)
      ensures Valid() && used == 0 && Int() == 0 && |dp| > size
    {
      used := 0;
      sign := ZPos;
      dp := seq(size + (MP_PREC * 2 - size % MP_PREC), _ => 0);
    }

    constructor InitCopy(b: MpInt)
      requires b.Valid()
      ensures Valid() && used == b.used && Mag() == b.Mag() && Int() == b.Int() && sign == b.sign && |dp| >= MP_PREC
    {
      used := 0;
      sign := ZPos;
      dp := seq(MP_PREC, _ => 0);
      new;
      Copy(b, this);
    }

    /** Reallocation keeps the digits and zeros the new room. */
    method Grow(size: nat)
      requires Wf()
      modifies `dp
      ensures Wf() && (old(Valid()) ==> Valid()) && |dp| >= size && |dp| >= old(|dp|)
      ensures dp[..old(|dp|)] == old(dp)
      ensures forall k | old(|dp|) <= k < |dp| :: dp[k] == 0
      ensures Mag() == old(Mag()) && Int() == old(Int())
    {
      if |dp| < size {
        var newSize := size + (MP_PREC * 2 - size % MP_PREC);
        ghost var was := dp;
        dp := dp + seq(newSize - |dp|, _ => 0);
        ValFrame(was, dp, used);
      }
    }

    /** Trims leading zero digits. */
    method Clamp()
      requires Wf()
      modifies `used, `sign
      ensures Valid() && used <= old(used)
      ensures Mag() == old(Mag()) && Int() == old(Int())
      ensures sign == if used == 0 then ZPos else old(sign)
    {
      while used > 0 && dp[used - 1] == 0
        invariant used <= old(used) && Wf() && Mag() == old(Mag()) && sign == old(sign)
      {
        used := used - 1;
      }
      if used == 0 {
        sign := ZPos;
      }
    }

    /** Clears what an earlier, longer number left above the used digits. */
    method ClearAbove(oldUsed: nat)
      requires used <= |dp| && oldUsed <= |dp| && Digits(dp)
      requires forall k | used <= k < |dp| && oldUsed <= k :: dp[k] == 0
      modifies `dp
      ensures Wf() && |dp| == old(|dp|)
      ensures forall k | 0 <= k < used :: dp[k] == old(dp[k])
      ensures Mag() == old(Val(dp, used))
    {
      hide Val;
      ghost var was := dp;
      var i := used;
      while i < oldUsed
        invariant used <= i && |dp| == |was|
        invariant forall k | 0 <= k < used :: dp[k] == was[k]
        invariant forall k | used <= k < |dp| && (k < i || oldUsed <= k) :: dp[k] == 0
        invariant forall k | i <= k < |dp| :: dp[k] == was[k]
      {
        dp := dp[i := 0];
        i := i + 1;
      }
      ValFrame(was, dp, used);
    }

    /** Makes the first n digits the used ones, clearing what a longer number left above them. */
    method MoveEnd(n: nat)
      requires used <= |dp| && n <= |dp| && Digits(dp)
      requires forall k | used <= k < |dp| && n <= k :: dp[k] == 0
      modifies `dp, `used
      ensures Wf() && used == n && |dp| == old(|dp|)
      ensures forall k | 0 <= k < n :: dp[k] == old(dp[k])
    {
      var oldUsed := used;
      used := n;
      ClearAbove(oldUsed);
    }

    method Zero()
      modifies this
      ensures Valid() && used == 0 && Int() == 0 && |dp| == old(|dp|)
    {
      sign := ZPos;
      used := 0;
      dp := seq(|dp|, _ => 0);
    }

    /** Sets a number with room for one digit to a digit. */
    method Set(b: nat)
      requires |dp| > 0
      modifies this
      ensures Valid() && Int() == b % BASE && |dp| == old(|dp|)
    {
      Zero();
      dp := dp[0 := b % BASE];
      used := if dp[0] != 0 then 1 else 0;
      assert Weight(0) == 1 && Val(dp, 0) == 0;
    }

    /** The mp_isodd and mp_iseven macros: zero is neither. */
    method IsOdd() returns (r: bool)
      requires Valid()
      ensures r == (Mag() % 2 == 1)
    {
      r := used > 0 && dp[0] % 2 == 1;
      if used > 0 {
        LowBit(dp, used);
      }
    }

    method IsEven() returns (r: bool)
      requires Valid()
      ensures r == (Mag() > 0 && Mag() % 2 == 0)
    {
      r := used > 0 && dp[0] % 2 == 0;
      if used > 0 {
        LowBit(dp, used);
        ValLower(dp, used);
      }
    }
  }

  lemma {:induction false} LowDigit(s: seq<nat>, n: nat)
    requires 0 < n <= |s|
    ensures Val(s, n) % BASE == s[0] % BASE
  {
    if n == 1 {
      assert Weight(0) == 1;
    } else {
      LowDigit(s, n - 1);
      MulAssoc(s[n - 1], BASE, Weight(n - 2));
    }
  }

  lemma LowBit(s: seq<nat>, n: nat)
    requires 0 < n <= |s|
    ensures Val(s, n) % 2 == s[0] % 2
  {
    hide Val;
    LowDigit(s, n);
    DigitParity(Val(s, n));
    DigitParity(s[0]);
  }

  lemma DigitParity(x: nat)
    ensures x % 2 == (x % BASE) % 2
  {
    assert x == 2 * (0x800_0000 * (x / BASE)) + x % BASE;
  }

  /** b = a. */
  method Copy(a: MpInt, b: MpInt)
    requires a.Wf() && b.Wf()
    modifies b
    ensures b.Wf() && b.used == a.used && b.sign == a.sign && (old(a.Valid()) ==> b.Valid())
    ensures b.Mag() == old(a.Mag()) && b.Int() == old(a.Int()) && |b.dp| >= old(|b.dp|)
    ensures a.Wf() && a.used == old(a.used) && a.sign == old(a.sign) && a.dp == old(a.dp)
  {
    if a == b {
      return;
    }
    if |b.dp| < a.used {
      b.Grow(a.used);
    }
    hide Val;
    CopyDigits(a, b);
    b.MoveEnd(a.used);
    b.sign := a.sign;
    ValFrame(a.dp, b.dp, a.used);
  }

  /** The digit loop of a copy. */
  method CopyDigits(a: MpInt, b: MpInt)
    requires a != b && a.used <= |a.dp| && a.used <= |b.dp| && Digits(a.dp) && Digits(b.dp)
    modifies b`dp
    ensures |b.dp| == old(|b.dp|) && Digits(b.dp)
    ensures forall k | 0 <= k < a.used :: b.dp[k] == a.dp[k]
    ensures forall k | a.used <= k < |b.dp| :: b.dp[k] == old(b.dp[k])
  {
    ghost var b0 := b.dp;
    var n := 0;
    while n < a.used
      invariant n <= a.used && |b.dp| == |b0| && Digits(b.dp)
      invariant forall k | 0 <= k < n :: b.dp[k] == a.dp[k]
      invariant forall k | n <= k < |b0| :: b.dp[k] == b0[k]
    {
      b.dp := b.dp[n := a.dp[n]];
      n := n + 1;
    }
  }

  /** Swaps two numbers. */
  method Exch(a: MpInt, b: MpInt)
    modifies a, b
    ensures a.used == old(b.used) && a.sign == old(b.sign) && a.dp == old(b.dp)
    ensures b.used == old(a.used) && b.sign == old(a.sign) && b.dp == old(a.dp)
  {
    a.used, b.used := b.used, a.used;
    a.sign, b.sign := b.sign, a.sign;
    a.dp, b.dp := b.dp, a.dp;
  }
}
