/** RSA with PKCS #1 version 1.5 block formatting, RFC 2313 section 8.1. */
module Rsa {
  import opened Numbers
  import opened Congruence
  import opened NumberTheory
  import opened MpCore
  import opened MpCompare
  import opened MpAddSub
  import opened MpDiv
  import opened MpMul
  import opened MpPower
  import opened MpBytes

  // ----- the key

  datatype Operation = Public | Private

  class RsaKey {
    var e: MpInt
    var d: MpInt
    var N: MpInt
    var qP: MpInt
    var dP: MpInt
    var dQ: MpInt
    var p: MpInt
    var q: MpInt
    var size: nat
    var optimized: bool

    /** Nonnegative exponents, numbers the arithmetic has room for, and the size of the modulus in bytes. */
    ghost predicate Valid()
      reads this, e, d, N, qP, dP, dQ, p, q
    {
      && e.Valid() && d.Valid() && N.Valid() && qP.Valid() && dP.Valid() && dQ.Valid() && p.Valid() && q.Valid()
      && e.sign == d.sign == dP.sign == dQ.sign == ZPos
      && N.used <= 255 && p.used <= 255 && q.used <= 255 && qP.used <= 255
      && size == |BytesOf(N.Mag())|
    }

    /** A key as the key reader leaves it, its size taken from its modulus. */
    constructor (e: MpInt, d: MpInt, N: MpInt, qP: MpInt, dP: MpInt, dQ: MpInt, p: MpInt, q: MpInt, optimized: bool)
      requires e.Valid() && d.Valid() && N.Valid() && qP.Valid() && dP.Valid() && dQ.Valid() && p.Valid() && q.Valid()
      requires e.sign == d.sign == dP.sign == dQ.sign == ZPos
      requires N.used <= 255 && p.used <= 255 && q.used <= 255 && qP.used <= 255
      ensures Valid() && this.N == N && this.e == e && this.d == d && this.optimized == optimized
      ensures this.p == p && this.q == q && this.dP == dP && this.dQ == dQ && this.qP == qP
    {
      this.e, this.d, this.N, this.qP := e, d, N, qP;
      this.dP, this.dQ, this.p, this.q := dP, dQ, p, q;
      this.optimized := optimized;
      new;
      var n := UnsignedBinSize(N);
      size := n;
    }

    /** The primes and the derived exponents belong to the modulus. */
    ghost predicate Consistent()
      requires Valid()
      reads this, e, d, N, qP, dP, dQ, p, q
    {
      KeyNumbers(p.Int(), q.Int(), N.Int(), d.Int(), dP.Int(), dQ.Int(), qP.Int())
    }
  }

  ghost predicate KeyNumbers(p: int, q: int, n: int, d: int, dP: int, dQ: int, qP: int) {
    && Prime(p) && Prime(q) && p != q && p % 2 == 1 && q % 2 == 1 && n == p * q
    && d > 0 && dP > 0 && dQ > 0 && Congruent(dP, d, p - 1) && Congruent(dQ, d, q - 1)
    && Congruent(q * qP, 1, p)
  }

  lemma ModulusIsOdd(p: int, q: int, n: int, d: int, dP: int, dQ: int, qP: int)
    requires KeyNumbers(p, q, n, d, dP, dQ, qP)
    ensures n > 0 && n % 2 == 1
  {
    MulLt(0, p, q);
    OddProduct(p, q);
  }

  lemma OddProduct(p: int, q: int)
    requires p % 2 == 1 && q % 2 == 1
    ensures (p * q) % 2 == 1
  {
    var k, l := p / 2, q / 2;
    OddForm(k, q, l);
    DivModUnique(p * q, 2, k * q + l, 1);
  }

  lemma OddForm(k: int, q: int, l: int)
    requires q == 2 * l + 1
    ensures (2 * k + 1) * q == (k * q + l) * 2 + 1
  {}

  // ----- what the operations compute

  lemma PowNonneg(x: nat, e: nat)
    ensures Pow(x, e) >= 0
  {
    if e > 0 {
      PowNonneg(x, e - 1);
      MulNat(x, Pow(x, e - 1));
    }
  }

  /** Recombining the two half-size powers gives the full power. */
  lemma CrtAgrees(x: nat, p: int, q: int, n: int, d: int, dP: int, dQ: int, qP: int, m1: int, m2: int, h: int)
    requires KeyNumbers(p, q, n, d, dP, dQ, qP)
    requires m1 == Pow(x, dP) % p && m2 == Pow(x, dQ) % q && h == ((m1 - m2) * qP) % p
    ensures n > 0 && h * q + m2 == Pow(x, d) % n
  {
    hide Pow, Congruent;
    CongruentMod(Pow(x, dP), p);
    CongruentMod(Pow(x, dQ), q);
    Garner(m1, m2, p, q, qP, h);
    SamePower(x, p, dP, d);
    SamePower(x, q, dQ, d);
    var y := h * q + m2;
    ChainCongruent(y, m1, Pow(x, dP), p);
    ChainCongruent(y, Pow(x, dP), Pow(x, d), p);
    ChainCongruent(y, m2, Pow(x, dQ), q);
    ChainCongruent(y, Pow(x, dQ), Pow(x, d), q);
    AgreeModProduct(y, Pow(x, d), p, q);
    CongruentSmall(y, Pow(x, d), n);
  }

  /** Raising to e and then to d returns every residue when e * d = 1 modulo p - 1 and q - 1. */
  lemma PrivateUndoesPublic(x: nat, p: int, q: int, n: int, e: nat, d: nat)
    requires Prime(p) && Prime(q) && p != q && n == p * q && x < n && e * d > 0
    requires Congruent(e * d, 1, p - 1) && Congruent(e * d, 1, q - 1)
    ensures Pow(Pow(x, e) % n, d) % n == x
  {
    hide Pow, Congruent;
    MulLt(0, p, q);
    var y := Pow(x, e) % n;
    CongruentMod(Pow(x, e), n);
    CongruentPow(y, Pow(x, e), d, n);
    PowMul(x, e, d);
    SamePower(x, p, e * d, 1);
    SamePower(x, q, e * d, 1);
    assert Pow(x, 1) == x by { PowFirst(x); }
    AgreeModProduct(Pow(x, e * d), x, p, q);
    ChainCongruent(Pow(y, d), Pow(x, e * d), x, n);
    SmallResidue(Pow(y, d), x, n);
  }

  lemma PowFirst(x: int)
    ensures Pow(x, 1) == x
  {
    assert Pow(x, 0) == 1;
  }

  lemma SmallResidue(y: int, x: nat, n: int)
    requires x < n && Congruent(y, x, n)
    ensures y % n == x
  {
    DivModUnique(x, n, 0, x);
  }

  // ----- fixed-width byte strings

  /** The n-byte big-endian string of a value that fits it. */
  function Wide(x: nat, n: nat): (s: seq<byte>)
    ensures |BytesOf(x)| <= n ==> |s| == n
  {
    if |BytesOf(x)| <= n then seq(n - |BytesOf(x)|, _ => 0) + BytesOf(x) else BytesOf(x)
  }

  lemma WideVal(x: nat, n: nat)
    ensures BytesVal(Wide(x, n)) == x
  {
    ReadWhatWasWritten(x);
    if |BytesOf(x)| <= n {
      LeadingZeros(seq(n - |BytesOf(x)|, _ => 0), BytesOf(x));
    }
  }

  /** Reading and rewriting a string at its own width is the identity. */
  lemma WideOfVal(s: seq<byte>)
    ensures Wide(BytesVal(s), |s|) == s
  {
    WriteWhatWasRead(s);
    StripLength(s);
  }

  lemma {:induction false} StripLength(s: seq<byte>)
    ensures |Strip(s)| <= |s| && s == seq(|s| - |Strip(s)|, _ => 0) + Strip(s)
  {
    if s != [] && s[0] == 0 {
      StripLength(s[1..]);
      assert s == [0] + s[1..];
    }
  }

  // ----- the primitive

  /** The exponentiation by the two primes: tmp becomes tmp^d mod N. */
  method CrtPower(tmp: MpInt, key: RsaKey)
    requires key.Valid() && key.Consistent() && tmp.Valid() && tmp.sign == ZPos && tmp.used <= key.N.used
    requires tmp !in {key.e, key.d, key.N, key.qP, key.dP, key.dQ, key.p, key.q}
    modifies tmp
    ensures tmp.Valid() && key.N.Int() > 0 && tmp.Int() == Pow(old(tmp.Mag()), key.d.Int()) % key.N.Int()
  {
    hide Val, Pow, KeyNumbers, ModResult;
    ghost var x := tmp.Mag();
    ConsistentShape(key.p.Int(), key.q.Int(), key.N.Int(), key.d.Int(), key.dP.Int(), key.dQ.Int(), key.qP.Int());
    var tmpa := HalfPower(tmp, key.dP, key.p);
    var tmpb := HalfPower(tmp, key.dQ, key.q);
    Recombine(tmp, tmpa, tmpb, key);
    CrtAgrees(x, key.p.Int(), key.q.Int(), key.N.Int(), key.d.Int(), key.dP.Int(), key.dQ.Int(), key.qP.Int(),
              tmpa.Int(), tmpb.Int(), ((tmpa.Int() - tmpb.Int()) * key.qP.Int()) % key.p.Int());
  }

  method HalfPower(x: MpInt, e: MpInt, p: MpInt) returns (r: MpInt)
    requires x.Valid() && e.Valid() && p.Valid() && e.sign == ZPos && p.Int() > 0 && p.Int() % 2 == 1
    requires p.used <= 255 && x.used <= 255
    ensures fresh(r) && r.Valid() && r.Int() == Pow(x.Int(), e.Int()) % p.Int()
  {
    r := new MpInt.Init();
    var status := Exptmod(x, e, p, r);
  }

  lemma ConsistentShape(p: int, q: int, n: int, d: int, dP: int, dQ: int, qP: int)
    requires KeyNumbers(p, q, n, d, dP, dQ, qP)
    ensures p > 1 && q > 1 && p % 2 == 1 && q % 2 == 1 && n > 0 && n % 2 == 1
  {
    ModulusIsOdd(p, q, n, d, dP, dQ, qP);
  }

  /** tmp = ((tmpa - tmpb) * qP mod p) * q + tmpb. */
  method Recombine(tmp: MpInt, tmpa: MpInt, tmpb: MpInt, key: RsaKey)
    requires key.Valid() && tmp.Valid() && tmpa.Valid() && tmpb.Valid() && tmp !in {tmpa, tmpb, key.qP, key.p, key.q}
    requires key.p.Int() > 1 && key.q.Int() > 1 && 0 <= tmpa.Int() < key.p.Int() && 0 <= tmpb.Int() < key.q.Int()
    modifies tmp
    ensures tmp.Valid()
    ensures tmp.Int() == ((tmpa.Int() - tmpb.Int()) * key.qP.Int()) % key.p.Int() * key.q.Int() + tmpb.Int()
  {
    hide Val, ModResult;
    Sub(tmpa, tmpb, tmp);
    SmallDifference(tmp, key.p, key.q);
    ghost var t := tmp.Int();
    var status := MulMod(tmp, key.qP, key.p, tmp);
    ModForPositive(t * key.qP.Int(), key.p.Int());
    NoLonger(key.p, tmp);
    Mul(tmp, key.q, tmp);
    Add(tmp, tmpb, tmp);
  }

  /** A number smaller than one of two primes is no longer than the longer one. */
  lemma SmallDifference(t: MpInt, p: MpInt, q: MpInt)
    requires t.Valid() && p.Valid() && q.Valid() && p.Int() > 0 && q.Int() > 0
    requires -q.Int() < t.Int() < p.Int()
    ensures t.used <= p.used || t.used <= q.used
  {
    hide Val;
    if t.Mag() <= p.Mag() {
      NoLonger(p, t);
    } else {
      NoLonger(q, t);
    }
  }

  /** Whether the exponentiation is defined for an input. */
  ghost predicate Accepts(key: RsaKey, x: nat, outlen: nat)
    requires key.Valid()
    reads key, key.e, key.d, key.N, key.qP, key.dP, key.dQ, key.p, key.q
  {
    x <= key.N.Int() && key.N.Int() % 2 == 1 && key.size <= outlen
  }

  /** The value an operation gives for an input it accepts. */
  ghost function Result(key: RsaKey, x: nat, op: Operation): nat
    requires key.Valid() && key.N.Int() > 0
    reads key, key.e, key.d, key.N, key.qP, key.dP, key.dQ, key.p, key.q
  {
    Pow(x, if op == Public then key.e.Int() else key.d.Int()) % key.N.Int()
  }

  /** The branches of the primitive: tmp becomes its power, or a modulus that is not odd is refused. */
  method PowerOf(tmp: MpInt, key: RsaKey, op: Operation) returns (status: Status)
    requires key.Valid() && (op == Private && key.optimized ==> key.Consistent())
    requires tmp.Valid() && tmp.sign == ZPos && tmp.used <= key.N.used && key.N.Int() >= 0
    requires tmp !in {key.e, key.d, key.N, key.qP, key.dP, key.dQ, key.p, key.q}
    modifies tmp
    ensures status == if key.N.Int() % 2 == 1 then Okay else BadValue
    ensures status == Okay ==> tmp.Valid() && tmp.Int() == Result(key, old(tmp.Mag()), op)
  {
    hide Val, Pow, KeyNumbers;
    if op == Private && key.optimized {
      ConsistentShape(key.p.Int(), key.q.Int(), key.N.Int(), key.d.Int(), key.dP.Int(), key.dQ.Int(), key.qP.Int());
      CrtPower(tmp, key);
      status := Okay;
    } else if op == Private {
      status := Exptmod(tmp, key.d, key.N, tmp);
    } else {
      status := Exptmod(tmp, key.e, key.N, tmp);
    }
  }

  /** Zeros the first x bytes of out and writes tmp at their end. */
  method StoreResult(tmp: MpInt, out: array<byte>, x: nat)
    requires tmp.Valid() && x <= out.Length && |BytesOf(tmp.Mag())| <= x
    modifies out
    ensures out[..x] == Wide(tmp.Mag(), x) && out[x..] == old(out[x..])
  {
    hide Val, BytesOf;
    var i := 0;
    while i < x
      invariant 0 <= i <= x && forall k | 0 <= k < i :: out[k] == 0
      invariant forall k | x <= k < out.Length :: out[k] == old(out[k])
    {
      out[i] := 0;
      i := i + 1;
    }
    var n := UnsignedBinSize(tmp);
    ToUnsignedBin(tmp, out, x - n);
    assert out[..x] == out[..x - n] + out[x - n..x];
    assert out[..x - n] == seq(x - n, _ => 0);
  }

  /** A residue fits the bytes of the modulus. */
  lemma ResidueFits(x: nat, n: nat)
    requires x < n
    ensures |BytesOf(x)| <= |BytesOf(n)|
  {
    BytesOfBound(n);
    AtMostBytes(x, |BytesOf(n)|);
  }

  /** The input as a number, and whether it is not above the modulus. */
  method ReadInput(inp: array<byte>, inlen: nat, key: RsaKey) returns (tmp: MpInt, fits: bool)
    requires inlen <= inp.Length && key.Valid()
    ensures fresh(tmp) && tmp.Valid() && tmp.sign == ZPos && tmp.Mag() == BytesVal(inp[..inlen])
    ensures fits <==> tmp.Mag() <= key.N.Int()
    ensures fits ==> tmp.used <= key.N.used && key.N.Int() >= 0
  {
    hide Val, BytesVal;
    tmp := new MpInt.Init();
    ReadUnsignedBin(tmp, inp, inlen);
    var order := Cmp(key.N, tmp);
    fits := order != Lt;
    ZeroIsUnused(key.N);
    if fits {
      NoLonger(key.N, tmp);
    }
  }

  /** One RSA operation: res is 0 or -1, and the output of a success always has the size of the key.
      The buffers may be the same one. */
  method RsaCrypt(inp: array<byte>, inlen: nat, out: array<byte>, outlen: nat, key: RsaKey, op: Operation)
    returns (res: int, len: nat)
    requires inlen <= inp.Length && outlen <= out.Length
    requires key.Valid() && (op == Private && key.optimized ==> key.Consistent())
    modifies out
    ensures res == 0 || res == -1
    ensures res == 0 <==> Accepts(key, BytesVal(old(inp[..inlen])), outlen)
    ensures res == 0 ==> len == key.size && out[..len] == Wide(Result(key, BytesVal(old(inp[..inlen])), op), len)
    ensures res == 0 ==> out[len..] == old(out[len..])
    ensures res != 0 ==> out[..] == old(out[..])
  {
    hide Val, Pow, BytesOf, BytesVal, KeyNumbers, Wide;
    len := outlen;
    var tmp, fits := ReadInput(inp, inlen, key);
    if !fits {
      return -1, len;
    }
    var status := PowerOf(tmp, key, op);
    if status != Okay {
      return -1, len;
    }
    res, len := WriteBack(tmp, out, outlen, key);
  }

  /** The output is as long as the modulus, if there is room for it. */
  method WriteBack(tmp: MpInt, out: array<byte>, outlen: nat, key: RsaKey) returns (res: int, len: nat)
    requires key.Valid() && tmp.Valid() && 0 <= tmp.Int() < key.N.Int() && outlen <= out.Length
    modifies out
    ensures (res == 0 || res == -1) && (res == 0 <==> key.size <= outlen)
    ensures res == 0 ==> len == key.size && out[..len] == Wide(tmp.Int(), len) && out[len..] == old(out[len..])
    ensures res != 0 ==> out[..] == old(out[..])
  {
    hide Val, BytesOf, Wide;
    len := outlen;
    var x := UnsignedBinSize(key.N);
    if x > outlen {
      return -1, len;
    }
    len := x;
    ZeroIsUnused(tmp);
    ResidueFits(tmp.Mag(), key.N.Mag());
    StoreResult(tmp, out, x);
    res := 0;
  }

  // ----- block formatting

  const RSA_PUBLIC: byte := 1
  const RSA_PRIVATE: byte := 2

  ghost predicate NonZero(f: seq<byte>) {
    forall k | 0 <= k < |f| :: f[k] != 0
  }

  /** An encryption block: 00, the block type, nonzero padding, 00, the data. */
  ghost function Block(blockType: byte, padding: seq<byte>, data: seq<byte>): seq<byte> {
    [0, blockType] + padding + [0] + data
  }

  /** The padding of a formatted block: FF bytes for type 1, the random bytes with zeros made ones for type 2. */
  function Padding(blockType: byte, n: nat, random: seq<byte>): (f: seq<byte>)
    requires blockType != RSA_PUBLIC ==> n <= |random|
    ensures |f| == n
  {
    seq(n, i requires 0 <= i < n => if blockType == RSA_PUBLIC then 0xFF else if random[i] == 0 then 1 else random[i])
  }

  /** Formats inp into the first outlen bytes of out; -1 if fewer than 8 bytes are left for padding
      or the random source falls short. */
  method PadRsa(inp: array<byte>, inlen: nat, out: array<byte>, outlen: nat, cryptType: byte, random: seq<byte>)
    returns (res: int)
    requires inlen <= inp.Length && outlen <= out.Length && inp != out
    modifies out
    ensures res == outlen || res == -1
    ensures res != -1 <==> inlen + 11 <= outlen && (cryptType != RSA_PUBLIC ==> outlen - 3 - inlen <= |random|)
    ensures res != -1 ==> out[..outlen] == Block(cryptType, Padding(cryptType, outlen - 3 - inlen, random), inp[..inlen])
    ensures out[outlen..] == old(out[outlen..])
  {
    hide Padding;
    var randomLen := outlen - 3 - inlen;
    if randomLen < 8 {
      return -1;
    }
    out[0] := 0;
    out[1] := cryptType;
    if cryptType != RSA_PUBLIC && |random| < randomLen {
      return -1;
    }
    FillPadding(out, randomLen, cryptType, random);
    var c := 2 + randomLen;
    out[c] := 0;
    c := c + 1;
    var i := 0;
    while i < inlen
      invariant 0 <= i <= inlen
      invariant out[..c] == [0, cryptType] + Padding(cryptType, randomLen, random) + [0]
      invariant forall k | 0 <= k < i :: out[c + k] == inp[k]
      invariant forall k | outlen <= k < out.Length :: out[k] == old(out[k])
    {
      out[c + i] := inp[i];
      i := i + 1;
    }
    assert out[..outlen] == out[..c] + inp[..inlen];
    res := outlen;
  }

  /** Bytes 2 and up: FF, or the random bytes with every zero replaced. */
  method FillPadding(out: array<byte>, n: nat, cryptType: byte, random: seq<byte>)
    requires n + 2 < out.Length && (cryptType != RSA_PUBLIC ==> n <= |random|)
    modifies out
    ensures out[2..n + 2] == Padding(cryptType, n, random)
    ensures forall k | 0 <= k < out.Length && !(2 <= k < n + 2) :: out[k] == old(out[k])
  {
    var i := 0;
    while i < n
      invariant 0 <= i <= n
      invariant forall k | 2 <= k < i + 2 :: out[k] == Padding(cryptType, n, random)[k - 2]
      invariant forall k | 0 <= k < out.Length && !(2 <= k < i + 2) :: out[k] == old(out[k])
    {
      if cryptType == RSA_PUBLIC {
        out[i + 2] := 0xFF;
      } else {
        out[i + 2] := random[i];
        if out[i + 2] == 0 {
          out[i + 2] := 1;
        }
      }
      i := i + 1;
    }
  }

  /** What unpadding accepts with n bytes of data: at least 7 bytes of padding, all FF for type 1. */
  ghost predicate Unpads(s: seq<byte>, blockType: byte, n: nat) {
    && |s| >= n + 10 && s[0] == 0 && s[1] == blockType && s[|s| - n - 1] == 0
    && NonZero(s[2..|s| - n - 1])
    && (blockType == RSA_PUBLIC ==> forall k | 2 <= k < |s| - n - 1 :: s[k] == 0xFF)
  }

  /** Copies out the data of a well-formed block; everything else is refused. */
  method UnpadRsa(inp: array<byte>, inlen: nat, out: array<byte>, outlen: nat, decryptType: byte) returns (res: int)
    requires inlen <= inp.Length && outlen <= out.Length && inp != out
    modifies out
    ensures res == outlen || res == -1
    ensures res == outlen <==> Unpads(inp[..inlen], decryptType, outlen)
    ensures res == outlen ==> out[..outlen] == inp[inlen - outlen..inlen] && out[outlen..] == old(out[outlen..])
    ensures res == -1 ==> out[..] == old(out[..])
  {
    if inlen < outlen + 10 {
      return -1;
    }
    if inp[0] != 0 || inp[1] != decryptType {
      return -1;
    }
    var c := 2;
    while c < inlen && inp[c] != 0
      invariant 2 <= c <= inlen && forall k | 2 <= k < c :: inp[k] != 0
      invariant decryptType == RSA_PUBLIC ==> forall k | 2 <= k < c :: inp[k] == 0xFF
    {
      if decryptType == RSA_PUBLIC && inp[c] != 0xFF {
        PaddingByte(inp[..inlen], decryptType, outlen, c);
        return -1;
      }
      c := c + 1;
    }
    PaddingEnd(inp[..inlen], decryptType, outlen, c);
    c := c + 1;
    if inlen - c != outlen {
      return -1;
    }
    CopyTail(inp, inlen, out, outlen);
    res := outlen;
  }

  method CopyTail(inp: array<byte>, inlen: nat, out: array<byte>, n: nat)
    requires n <= inlen <= inp.Length && n <= out.Length && inp != out
    modifies out
    ensures out[..n] == inp[inlen - n..inlen] && out[n..] == old(out[n..])
  {
    var i := 0;
    while i < n
      invariant 0 <= i <= n && forall k | 0 <= k < i :: out[k] == inp[inlen - n + k]
      invariant forall k | n <= k < out.Length :: out[k] == old(out[k])
    {
      out[i] := inp[inlen - n + i];
      i := i + 1;
    }
  }

  /** A byte before the first zero that is not FF spoils a block of type 1. */
  lemma PaddingByte(s: seq<byte>, t: byte, n: nat, c: nat)
    requires 2 <= c < |s| && t == RSA_PUBLIC && s[c] != 0xFF && forall k | 2 <= k <= c :: s[k] != 0
    ensures !Unpads(s, t, n)
  {
  }

  /** The first zero byte decides how much data there is. */
  lemma PaddingEnd(s: seq<byte>, t: byte, n: nat, c: nat)
    requires |s| >= n + 10 && s[0] == 0 && s[1] == t
    requires 2 <= c <= |s| && (forall k | 2 <= k < c :: s[k] != 0) && (c < |s| ==> s[c] == 0)
    requires t == RSA_PUBLIC ==> forall k | 2 <= k < c :: s[k] == 0xFF
    ensures Unpads(s, t, n) <==> |s| - c - 1 == n
  {
    var z := |s| - n - 1;
    if c < z {
      assert s[2..z][c - 2] == s[c];
    }
    if c == z {
      assert forall k | 0 <= k < z - 2 :: s[2..z][k] == s[k + 2];
    }
  }

  /** Unpadding accepts exactly the blocks with nonzero padding of seven bytes or more. */
  lemma UnpadsBlocks(s: seq<byte>, t: byte, n: nat)
    ensures Unpads(s, t, n) <==>
            exists f, m :: |m| == n && |f| >= 7 && NonZero(f) && s == Block(t, f, m)
                           && (t == RSA_PUBLIC ==> forall k | 0 <= k < |f| :: f[k] == 0xFF)
  {
    if Unpads(s, t, n) {
      var z := |s| - n - 1;
      var f, m := s[2..z], s[z + 1..];
      assert s == Block(t, f, m);
    }
    forall f, m | |m| == n && |f| >= 7 && NonZero(f) && s == Block(t, f, m)
                  && (t == RSA_PUBLIC ==> forall k | 0 <= k < |f| :: f[k] == 0xFF)
      ensures Unpads(s, t, n)
    {
      BlockUnpads(t, f, m);
    }
  }

  lemma BlockUnpads(t: byte, f: seq<byte>, m: seq<byte>)
    requires |f| >= 7 && NonZero(f) && (t == RSA_PUBLIC ==> forall k | 0 <= k < |f| :: f[k] == 0xFF)
    ensures Unpads(Block(t, f, m), t, |m|)
  {
    var s := Block(t, f, m);
    assert s[2..|s| - |m| - 1] == f;
    assert forall k | 2 <= k < |s| - |m| - 1 :: s[k] == f[k - 2];
  }

  // ----- public encryption and private decryption

  /** A block starts with a zero byte and is therefore below a modulus of its own length. */
  lemma BlockBelow(t: byte, f: seq<byte>, m: seq<byte>, n: nat)
    requires |Block(t, f, m)| == |BytesOf(n)|
    ensures BytesVal(Block(t, f, m)) < n
  {
    hide Pow, BytesVal;
    var s := Block(t, f, m);
    assert s == [0] + s[1..];
    LeadingZeros([0], s[1..]);
    BytesBound(s[1..]);
    BytesOfBound(n);
  }

  /** Formats and encrypts; the result is the key size, or -1. */
  method EncryptPub(key: RsaKey, inp: array<byte>, inlen: nat, out: array<byte>, outlen: nat, random: seq<byte>) returns (res: int)
    requires key.Valid() && inlen <= inp.Length && outlen <= out.Length && inp != out
    modifies out
    ensures res == key.size || res == -1
    ensures res != -1 <==> inlen + 11 <= key.size <= outlen && key.size - 3 - inlen <= |random| && key.N.Int() > 0 && key.N.Int() % 2 == 1
    ensures res != -1 ==>
              var block := Block(RSA_PRIVATE, Padding(RSA_PRIVATE, key.size - 3 - inlen, random), inp[..inlen]);
              out[..key.size] == Wide(Result(key, BytesVal(block), Public), key.size)
  {
    hide Pow, BytesVal, BytesOf, Block, Padding, Wide;
    var size := key.size;
    if outlen < size {
      return -1;
    }
    var padded := PadRsa(inp, inlen, out, size, RSA_PRIVATE, random);
    if padded < 0 {
      return -1;
    }
    ghost var f := Padding(RSA_PRIVATE, size - 3 - inlen, random);
    BlockLength(RSA_PRIVATE, f, inp[..inlen]);
    BlockBelow(RSA_PRIVATE, f, inp[..inlen], key.N.Mag());
    var code, len := RsaCrypt(out, size, out, outlen, key, Public);
    if code < 0 || len != size {
      return -1;
    }
    res := size;
  }

  lemma BlockLength(t: byte, f: seq<byte>, m: seq<byte>)
    ensures |Block(t, f, m)| == |f| + |m| + 3
  {}

  /** Decrypts in place, unpads outlen bytes into out and wipes the input; the result is outlen, or -1. */
  method DecryptPriv(key: RsaKey, inp: array<byte>, inlen: nat, out: array<byte>, outlen: nat) returns (res: int)
    requires key.Valid() && (key.optimized ==> key.Consistent())
    requires inlen <= inp.Length && outlen <= out.Length && inp != out
    modifies inp, out
    ensures res == outlen || res == -1
    ensures res == outlen <==>
              && inlen == key.size && Accepts(key, BytesVal(old(inp[..inlen])), inlen)
              && Unpads(Wide(Result(key, BytesVal(old(inp[..inlen])), Private), inlen), RSA_PRIVATE, outlen)
    ensures res == outlen ==> inlen - outlen >= 0 && out[outlen..] == old(out[outlen..])
    ensures res == outlen ==>
              out[..outlen] == Wide(Result(key, BytesVal(old(inp[..inlen])), Private), inlen)[inlen - outlen..]
    ensures res == outlen ==> forall k | 0 <= k < inlen :: inp[k] == 0
  {
    hide Pow, BytesVal, BytesOf, Unpads, Wide;
    if inlen != key.size {
      return -1;
    }
    var code, len := RsaCrypt(inp, inlen, inp, inlen, key, Private);
    if code < 0 || len != inlen {
      return -1;
    }
    ghost var block := inp[..inlen];
    res := UnpadRsa(inp, inlen, out, outlen, RSA_PRIVATE);
    UnpadsLength(block, RSA_PRIVATE, outlen);
    assert outlen <= inlen ==> inp[inlen - outlen..inlen] == block[inlen - outlen..];
    label wipe:
    var i := 0;
    while i < inlen
      invariant 0 <= i <= inlen && forall k | 0 <= k < i :: inp[k] == 0
      invariant out[..] == old@wipe(out[..])
    {
      inp[i] := 0;
      i := i + 1;
    }
  }

  lemma UnpadsLength(s: seq<byte>, t: byte, n: nat)
    ensures Unpads(s, t, n) ==> n <= |s|
  {}

  /** The exponents of a key pair undo each other modulo p - 1 and q - 1. */
  ghost predicate Inverses(e: int, d: int, p: int, q: int) {
    e > 0 && d > 0 && p > 1 && q > 1 && e * d > 0 && Congruent(e * d, 1, p - 1) && Congruent(e * d, 1, q - 1)
  }

  /** Whatever nonzero padding was drawn, decrypting the encryption of a block gives the block,
      and unpadding it gives the message. */
  lemma RoundTrip(pub: RsaKey, priv: RsaKey, f: seq<byte>, m: seq<byte>)
    requires pub.Valid() && priv.Valid() && priv.Consistent() && pub.N.Int() == priv.N.Int()
    requires Inverses(pub.e.Int(), priv.d.Int(), priv.p.Int(), priv.q.Int())
    requires NonZero(f) && |f| >= 8 && |f| + |m| + 3 == priv.size
    ensures pub.N.Int() > 0
    ensures var block := Block(RSA_PRIVATE, f, m);
            var cipher := Wide(Result(pub, BytesVal(block), Public), priv.size);
            && Accepts(priv, BytesVal(cipher), priv.size)
            && Wide(Result(priv, BytesVal(cipher), Private), priv.size) == block
            && Unpads(block, RSA_PRIVATE, |m|) && block[priv.size - |m|..] == m
  {
    hide Pow, BytesVal, BytesOf, Wide, Congruent;
    ConsistentShape(priv.p.Int(), priv.q.Int(), priv.N.Int(), priv.d.Int(), priv.dP.Int(), priv.dQ.Int(), priv.qP.Int());
    var block := Block(RSA_PRIVATE, f, m);
    var x := BytesVal(block);
    BlockBelow(RSA_PRIVATE, f, m, priv.N.Mag());
    BlockUnpads(RSA_PRIVATE, f, m);
    WideVal(Result(pub, x, Public), priv.size);
    PrivateUndoesPublic(x, priv.p.Int(), priv.q.Int(), priv.N.Int(), pub.e.Int(), priv.d.Int());
    WideOfVal(block);
  }

  lemma DrawIsPadding(n: nat, r: seq<byte>)
    requires |r| == n && NonZero(r)
    ensures Padding(RSA_PRIVATE, n, r) == r
  {}

  /** The random bytes matter: two different draws without zeros encrypt the same message differently. */
  lemma DrawsDiffer(pub: RsaKey, priv: RsaKey, r: seq<byte>, r': seq<byte>, m: seq<byte>)
    requires pub.Valid() && priv.Valid() && priv.Consistent() && pub.N.Int() == priv.N.Int()
    requires Inverses(pub.e.Int(), priv.d.Int(), priv.p.Int(), priv.q.Int())
    requires NonZero(r) && NonZero(r') && r != r' && |r| == |r'| >= 8 && |r| + |m| + 3 == priv.size
    ensures pub.N.Int() > 0
    ensures var block, block' := Block(RSA_PRIVATE, Padding(RSA_PRIVATE, |r|, r), m), Block(RSA_PRIVATE, Padding(RSA_PRIVATE, |r|, r'), m);
            Wide(Result(pub, BytesVal(block), Public), priv.size) != Wide(Result(pub, BytesVal(block'), Public), priv.size)
  {
    hide Padding, Wide, Result, BytesVal, Unpads, Block, Inverses;
    DrawIsPadding(|r|, r);
    DrawIsPadding(|r|, r');
    RoundTrip(pub, priv, r, m);
    RoundTrip(pub, priv, r', m);
    BlocksDiffer(r, r', m);
  }

  lemma BlocksDiffer(f: seq<byte>, f': seq<byte>, m: seq<byte>)
    requires |f| == |f'| && f != f'
    ensures Block(RSA_PRIVATE, f, m) != Block(RSA_PRIVATE, f', m)
  {
    assert Block(RSA_PRIVATE, f, m)[2..2 + |f|] == f && Block(RSA_PRIVATE, f', m)[2..2 + |f|] == f';
  }
}
