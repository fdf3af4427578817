/** Comparison of magnitudes and of signed values. */
module MpCompare {
  import opened Numbers
  import opened MpCore

  function Compare(x: int, y: int): Order {
    if x < y then Lt else if x > y then Gt else Eq
  }

  /** What the magnitude comparison answers, clamped operands or not: the longer number wins. */
  ghost function CompareWithLengths(a: MpInt, b: MpInt): Order
    requires a.Wf() && b.Wf()
    reads a, b
  {
    if a.used != b.used then Compare(a.used, b.used) else Compare(a.Mag(), b.Mag())
  }

  /** For clamped numbers the length decides only when the value would decide alike. */
  lemma ClampedCompare(a: MpInt, b: MpInt)
    requires a.Valid() && b.Valid()
    ensures CompareWithLengths(a, b) == Compare(a.Mag(), b.Mag())
  {
    hide Val, Weight;
    if a.used > b.used {
      LongerIsLarger(a.dp, a.used, b.dp, b.used);
    } else if a.used < b.used {
      LongerIsLarger(b.dp, b.used, a.dp, a.used);
    }
  }

  lemma LongerIsLarger(s: seq<nat>, m: nat, t: seq<nat>, n: nat)
    requires n < m <= |s| && n <= |t| && s[m - 1] > 0 && Digits(t)
    ensures Val(s, m) > Val(t, n)
  {
    ValLower(s, m);
    ValBound(t, n);
    WeightMono(n, m - 1);
  }

  method CmpMag(a: MpInt, b: MpInt) returns (r: Order)
    requires a.Wf() && b.Wf()
    ensures r == CompareWithLengths(a, b)
    ensures a.Valid() && b.Valid() ==> r == Compare(a.Mag(), b.Mag())
  {
    hide Val;
    if a.Valid() && b.Valid() {
      ClampedCompare(a, b);
    }
    if a.used > b.used {
      return Gt;
    }
    if a.used < b.used {
      return Lt;
    }
    var n := a.used;
    while n > 0
      invariant 0 <= n <= a.used
      invariant forall k | n <= k < a.used :: a.dp[k] == b.dp[k]
    {
      if a.dp[n - 1] > b.dp[n - 1] {
        ValGreater(a.dp, b.dp, n - 1, a.used);
        return Gt;
      }
      if a.dp[n - 1] < b.dp[n - 1] {
        ValGreater(b.dp, a.dp, n - 1, a.used);
        return Lt;
      }
      n := n - 1;
    }
    ValFrame(a.dp, b.dp, a.used);
    return Eq;
  }

  /** Signed comparison. */
  method Cmp(a: MpInt, b: MpInt) returns (r: Order)
    requires a.Valid() && b.Valid()
    ensures r == Compare(a.Int(), b.Int())
  {
    ZeroIsUnused(a);
    ZeroIsUnused(b);
    if a.sign != b.sign {
      return if a.sign == Neg then Lt else Gt;
    }
    if a.sign == Neg {
      r := CmpMag(b, a);
    } else {
      r := CmpMag(a, b);
    }
  }

  /** Comparison with one digit; a negative number is below every digit. */
  method CmpD(a: MpInt, b: nat) returns (r: Order)
    requires a.Valid() && |a.dp| > 0 && b < BASE
    ensures r == Compare(a.Int(), b)
  {
    ZeroIsUnused(a);
    if a.sign == Neg {
      return Lt;
    }
    assert Weight(0) == 1 && Weight(1) == BASE;
    if a.used > 1 {
      ValLower(a.dp, a.used);
      WeightMono(1, a.used - 1);
      return Gt;
    }
    assert Val(a.dp, 0) == 0 && Val(a.dp, 1) == a.dp[0];
    return Compare(a.dp[0], b);
  }

  /** The mp_iszero macro: a clamped number is zero exactly when it uses no digit. */
  lemma ZeroIsUnused(a: MpInt)
    requires a.Valid()
    ensures a.used == 0 <==> a.Mag() == 0
    ensures a.Int() == 0 <==> a.Mag() == 0
  {
    if a.used > 0 {
      ValLower(a.dp, a.used);
    }
  }
}
