/** Conversion between numbers and big-endian byte strings. */
module MpBytes {
  import opened Numbers
  import opened MpCore
  import opened MpCompare
  import opened MpScale

  type byte = x: int | 0 <= x < 256

  /** The range of a 32-bit count of bytes. */
  const COUNT_WORD: nat := 0x1_0000_0000

  // ----- the value of a byte string

  /** The value of a big-endian byte string. */
  function BytesVal(s: seq<byte>): nat {
    if s == [] then 0 else BytesVal(s[..|s| - 1]) * 256 + s[|s| - 1]
  }

  /** The shortest byte string of a value; zero has none. */
  function BytesOf(x: nat): seq<byte> {
    if x == 0 then [] else BytesOf(x / 256) + [x % 256]
  }

  /** Without its leading zero bytes. */
  function Strip(s: seq<byte>): seq<byte> {
    if s != [] && s[0] == 0 then Strip(s[1..]) else s
  }

  lemma {:induction false} ReadWhatWasWritten(x: nat)
    ensures BytesVal(BytesOf(x)) == x
  {
    if x > 0 {
      ReadWhatWasWritten(x / 256);
      assert (BytesOf(x / 256) + [x % 256])[..|BytesOf(x / 256)|] == BytesOf(x / 256);
    }
  }

  /** Writing the value of a string gives the string back up to leading zeros. */
  lemma {:induction false} WriteWhatWasRead(s: seq<byte>)
    ensures BytesOf(BytesVal(s)) == Strip(s)
  {
    if s != [] {
      var n := |s| - 1;
      WriteWhatWasRead(s[..n]);
      DivModUnique(BytesVal(s), 256, BytesVal(s[..n]), s[n]);
      StripSplit(s[..n], s[n]);
      assert s[..n] + [s[n]] == s;
    }
  }

  lemma {:induction false} StripSplit(s: seq<byte>, b: byte)
    ensures Strip(s + [b]) == if Strip(s) == [] then Strip([b]) else Strip(s) + [b]
  {
    if s == [] {
      assert s + [b] == [b];
    } else {
      assert (s + [b])[1..] == s[1..] + [b];
      if s[0] == 0 {
        StripSplit(s[1..], b);
      }
    }
  }

  /** Leading zeros do not change the value. */
  lemma {:induction false} LeadingZeros(z: seq<byte>, s: seq<byte>)
    requires forall k | 0 <= k < |z| :: z[k] == 0
    ensures BytesVal(z + s) == BytesVal(s)
  {
    if s != [] {
      LeadingZeros(z, s[..|s| - 1]);
      assert (z + s)[..|z + s| - 1] == z + s[..|s| - 1];
    } else if z != [] {
      LeadingZeros(z[..|z| - 1], s);
      assert z + s == z && z[..|z| - 1] + s == z[..|z| - 1];
    } else {
      assert z + s == s;
    }
  }

  lemma {:induction false} BytesBound(s: seq<byte>)
    ensures BytesVal(s) < Pow(256, |s|)
  {
    if s != [] {
      BytesBound(s[..|s| - 1]);
      assert Pow(256, |s|) == 256 * Pow(256, |s| - 1);
    }
  }

  /** A value of k bytes and more than k - 1. */
  lemma {:induction false} BytesOfBound(x: nat)
    ensures x < Pow(256, |BytesOf(x)|)
    ensures x > 0 ==> |BytesOf(x)| > 0 && Pow(256, |BytesOf(x)| - 1) <= x
  {
    if x > 0 {
      BytesOfBound(x / 256);
      var k := |BytesOf(x / 256)|;
      assert Pow(256, k + 1) == 256 * Pow(256, k);
      if k > 0 {
        assert Pow(256, k) == 256 * Pow(256, k - 1);
      }
    }
  }

  /** A value below 256^n needs at most n bytes. */
  lemma AtMostBytes(x: nat, n: nat)
    requires x < Pow(256, n)
    ensures |BytesOf(x)| <= n
  {
    hide Pow;
    BytesOfBound(x);
    var k := |BytesOf(x)|;
    if k > 0 {
      var j: nat := k - 1;
      if n <= j {
        PowMono(256, n, j);
      }
    }
  }

  lemma Pow256(k: nat)
    ensures Pow(256, k) == Pow(2, 8 * k)
  {
    assert Pow(2, 8) == 256 by { PowAdd(2, 4, 4); PowAdd(2, 2, 2); assert Pow(2, 2) == 4; }
    PowMul(2, 8, k);
  }

  /** The byte length from the bit length. */
  lemma ByteLength(x: nat, n: nat)
    requires BitLength(x, n)
    ensures |BytesOf(x)| == n / 8 + (if n % 8 != 0 then 1 else 0)
  {
    hide Pow;
    BytesOfBound(x);
    var k := |BytesOf(x)|;
    if x > 0 {
      Pow256(k);
      Pow256(k - 1);
      if n > 8 * k {
        PowMono(2, 8 * k, n - 1);
      }
      if n <= 8 * (k - 1) {
        PowMono(2, n, 8 * (k - 1));
      }
    }
  }

  method UnsignedBinSize(a: MpInt) returns (size: nat)
    requires a.Valid()
    ensures size == |BytesOf(a.Mag())|
  {
    hide Val;
    var bits := CountBits(a);
    ByteLength(a.Mag(), bits);
    size := bits / 8 + (if bits % 8 != 0 then 1 else 0);
  }

  // ----- reading

  /** The number read so far uses one digit more than its value needs, or is a single byte. */
  ghost predicate Roomy(used: nat, m: nat) {
    if used == 0 then m == 0 else m < 256 * Weight(used - 1)
  }

  /** Shifting in the next byte needs no more than the digits already in use. */
  lemma ShiftStaysRoomy(used: nat, m: nat, s: seq<nat>, used': nat, b: byte)
    requires Roomy(used, m) && used' <= |s| && Digits(s) && (used' > 0 ==> s[used' - 1] > 0)
    requires Val(s, used') == m * 256
    ensures used' <= used && Roomy(used' + 1, m * 256 + b)
    ensures used' > 0 ==> s[0] % 256 == 0
  {
    hide Val;
    if used' > 0 {
      ValLower(s, used');
      LowDigit(s, used');
      if used' > used {
        WeightMono(used, used' - 1);
      }
      assert s[0] % BASE == s[0];
      assert (m * 256) % BASE % 256 == 0;
    }
    ValBound(s, used');
  }

  /** Adding to the lowest digit. */
  lemma AddLow(s: seq<nat>, used: nat, b: nat)
    requires used < |s| && s[used] == 0
    ensures Val(s[0 := s[0] + b], used + 1) == Val(s, used) + b
  {
    hide Val;
    ValZeros(s, used, used + 1);
    ValSet(s, 0, s[0] + b, used + 1);
    SmallWeights();
  }

  /** a becomes the value of the first c bytes of b, without ever outgrowing its digits. */
  method ReadUnsignedBin(a: MpInt, b: array<byte>, c: nat)
    requires a.Valid() && c <= b.Length
    modifies a
    ensures a.Valid() && a.sign == ZPos && a.Mag() == BytesVal(b[..c])
  {
    hide Val, BytesVal, Roomy;
    if |a.dp| < 2 {
      a.Grow(2);
    }
    a.Zero();
    var k := 0;
    RoomyStart();
    while k < c
      invariant 0 <= k <= c && a.Wf() && a.sign == ZPos && |a.dp| >= 2
      invariant a.Mag() == BytesVal(b[..k]) && Roomy(a.used, a.Mag())
    {
      ShiftIn(a, b[k]);
      BytesStep(b[..], k);
      assert b[..][..k] == b[..k] && b[..][..k + 1] == b[..k + 1];
      k := k + 1;
    }
    a.Clamp();
  }

  lemma RoomyStart()
    ensures Roomy(0, 0) && BytesVal([]) == 0
  {}

  lemma BytesStep(s: seq<byte>, k: nat)
    requires k < |s|
    ensures BytesVal(s[..k + 1]) == BytesVal(s[..k]) * 256 + s[k]
  {
    assert s[..k + 1][..k] == s[..k];
  }

  /** One byte: shift by eight bits, put the byte into the free low bits, count one more digit. */
  method ShiftIn(a: MpInt, byt: byte)
    requires a.Wf() && a.sign == ZPos && |a.dp| >= 2 && Roomy(a.used, a.Mag())
    modifies a
    ensures a.Wf() && a.sign == ZPos && |a.dp| >= 2
    ensures a.Mag() == old(a.Mag()) * 256 + byt && Roomy(a.used, a.Mag())
  {
    hide Val, Roomy, Pow;
    ghost var m, used0 := a.Mag(), a.used;
    Pow256(1);
    assert Pow(2, 8) == 256 by { PowZero(256); }
    Mul2d(a, 8, a);
    ShiftStaysRoomy(used0, m, a.dp, a.used, byt);
    AddLow(a.dp, a.used, byt);
    a.dp := a.dp[0 := a.dp[0] + byt];
    a.used := a.used + 1;
  }

  // ----- writing

  /** Swaps the bytes of s[at..at+n] end for end. */
  method BnReverse(s: array<byte>, at: nat, n: nat)
    requires at + n <= s.Length
    modifies s
    ensures forall k | at <= k < at + n :: s[k] == old(s[2 * at + n - 1 - k])
    ensures forall k | 0 <= k < s.Length && !(at <= k < at + n) :: s[k] == old(s[k])
  {
    var ix := at;
    var iy: int := at + n - 1;
    while ix < iy
      invariant at <= ix && ix + iy == 2 * at + n - 1 && at - 1 <= iy < at + n
      invariant forall k | at <= k < ix || iy < k < at + n :: s[k] == old(s[2 * at + n - 1 - k])
      invariant forall k | ix <= k <= iy :: s[k] == old(s[k])
      invariant forall k | 0 <= k < s.Length && !(at <= k < at + n) :: s[k] == old(s[k])
    {
      s[ix], s[iy] := s[iy], s[ix];
      ix := ix + 1;
      iy := iy - 1;
    }
  }

  /** The low bytes already written and the value still to write. */
  ghost predicate Unloading(m: nat, t: nat, low: seq<byte>, x: nat) {
    x <= |low| && |BytesOf(m)| == |BytesOf(t)| + x
    && BytesOf(m)[..|BytesOf(t)|] == BytesOf(t)
    && forall k | 0 <= k < x :: low[k] == BytesOf(m)[|BytesOf(m)| - 1 - k]
  }

  lemma UnloadStep(m: nat, t: nat, low: seq<byte>, x: nat)
    requires Unloading(m, t, low, x) && t > 0 && x < |low|
    ensures Unloading(m, t / 256, low[x := t % 256], x + 1)
  {
    var r := BytesOf(m);
    var n := |BytesOf(t / 256)|;
    assert BytesOf(t) == BytesOf(t / 256) + [t % 256];
    assert r[..n] == r[..n + 1][..n] == BytesOf(t / 256);
    assert r[n] == r[..n + 1][n] == t % 256;
  }

  /** Writes the shortest byte string of a at position `at` of b. */
  method ToUnsignedBin(a: MpInt, b: array<byte>, at: nat)
    requires a.Valid() && at + |BytesOf(a.Mag())| <= b.Length
    modifies b
    ensures b[at..at + |BytesOf(a.Mag())|] == BytesOf(a.Mag())
    ensures forall k | 0 <= k < b.Length && !(at <= k < at + |BytesOf(a.Mag())|) :: b[k] == old(b[k])
  {
    hide Val, BytesOf, Unloading;
    ghost var m := BytesOf(a.Mag());
    var x := Unload(a, b, at);
    BnReverse(b, at, x);
    assert forall k | at <= k < at + x :: b[k] == m[k - at];
    assert b[at..at + x] == m;
  }

  method Unload(a: MpInt, b: array<byte>, at: nat) returns (x: nat)
    requires a.Valid() && at + |BytesOf(a.Mag())| <= b.Length
    modifies b
    ensures x == |BytesOf(a.Mag())|
    ensures forall k | at <= k < at + x :: b[k] == BytesOf(a.Mag())[at + x - 1 - k]
    ensures forall k | 0 <= k < b.Length && !(at <= k < at + x) :: b[k] == old(b[k])
  {
    hide Val, BytesOf, Unloading, Pow;
    ghost var m := a.Mag();
    var t := new MpInt.InitCopy(a);
    x := 0;
    UnloadStart(m, b[at..]);
    ZeroIsUnused(t);
    Pow256(1);
    assert Pow(2, 8) == 256 by { PowZero(256); }
    while t.used != 0
      invariant t.Valid() && (t.used == 0 <==> t.Mag() == 0)
      invariant at + x <= b.Length && Unloading(m, t.Mag(), b[at..], x)
      invariant forall k | 0 <= k < b.Length && !(at <= k < at + x) :: b[k] == old(b[k])
      decreases t.Mag()
    {
      ghost var was, v := b[at..], t.Mag();
      UnloadRoom(m, v, was, x);
      LowByte(t.dp, t.used);
      b[at + x] := t.dp[0] % 256;
      assert b[at..] == was[x := v % 256];
      UnloadStep(m, v, was, x);
      x := x + 1;
      Div2d(t, 8, t);
      ZeroIsUnused(t);
    }
    UnloadEnd(m, b[at..], x);
    assert forall k | at <= k < at + x :: b[k] == b[at..][k - at];
  }

  lemma LowByte(s: seq<nat>, n: nat)
    requires 0 < n <= |s|
    ensures Val(s, n) % 256 == s[0] % 256
  {
    hide Val;
    LowDigit(s, n);
    DigitByte(Val(s, n));
    DigitByte(s[0]);
  }

  lemma DigitByte(x: nat)
    ensures x % 256 == (x % BASE) % 256
  {
    assert x == 256 * (0x10_0000 * (x / BASE)) + x % BASE;
  }

  lemma UnloadStart(m: nat, low: seq<byte>)
    ensures Unloading(m, m, low, 0)
  {}

  lemma UnloadRoom(m: nat, t: nat, low: seq<byte>, x: nat)
    requires Unloading(m, t, low, x) && t > 0
    ensures x < |BytesOf(m)|
  {}

  lemma UnloadEnd(m: nat, low: seq<byte>, x: nat)
    requires Unloading(m, 0, low, x)
    ensures x == |BytesOf(m)| && forall k | 0 <= k < x :: low[k] == BytesOf(m)[x - 1 - k]
  {}
}
