/** SHA-1 and MD5 as streams: buffering, length counting and padding over any compression function. */
module Hash {
  import opened Numbers
  import opened MpBytes

  type word = x: int | 0 <= x < 0x1_0000_0000

  const LENGTH_WORD := 0x1_0000_0000_0000_0000

  /** The two algorithms differ in their state, their compression and the order of bytes in a word. */
  datatype Algorithm = Algorithm(initial: seq<word>, compress: (seq<word>, seq<byte>) -> seq<word>, bigEndian: bool)

  const SHA1_INITIAL: seq<word> := [0x67452301, 0xefcdab89, 0x98badcfe, 0x10325476, 0xc3d2e1f0]
  const MD5_INITIAL: seq<word> := [0x67452301, 0xefcdab89, 0x98badcfe, 0x10325476]

  function Sha1(compress: (seq<word>, seq<byte>) -> seq<word>): Algorithm {
    Algorithm(SHA1_INITIAL, compress, true)
  }

  function Md5(compress: (seq<word>, seq<byte>) -> seq<word>): Algorithm {
    Algorithm(MD5_INITIAL, compress, false)
  }

  // ----- one-shot definition

  /** The k low bytes of a number, most significant first. */
  function BigEndian(n: nat, k: nat): (s: seq<byte>)
    ensures |s| == k
  {
    if k == 0 then [] else BigEndian(n / 256, k - 1) + [n % 256]
  }

  /** The k low bytes of a number, least significant first. */
  function LittleEndian(n: nat, k: nat): (s: seq<byte>)
    ensures |s| == k
  {
    if k == 0 then [] else [n % 256] + LittleEndian(n / 256, k - 1)
  }

  function Store(alg: Algorithm, n: nat, k: nat): (s: seq<byte>)
    ensures |s| == k
  {
    if alg.bigEndian then BigEndian(n, k) else LittleEndian(n, k)
  }

  /** Bytes written most significant first read back as the number they keep. */
  lemma {:induction false} BigEndianVal(n: nat, k: nat)
    ensures Pow(256, k) > 0 && BytesVal(BigEndian(n, k)) == n % Pow(256, k)
  {
    PowPos(256, k);
    if k > 0 {
      BigEndianVal(n / 256, k - 1);
      var s := BigEndian(n, k);
      assert s[..k - 1] == BigEndian(n / 256, k - 1);
      PowPos(256, k - 1);
      ModParts(n, 256, Pow(256, k - 1));
    } else {
      assert Pow(256, 0) == 1;
    }
  }

  lemma ModParts(n: nat, a: nat, b: nat)
    requires a > 0 && b > 0
    ensures a * b > 0 && n % (a * b) == (n / a % b) * a + n % a
  {
    DivMod(n, a);
    DivMod(n / a, b);
    var q, r := n / a / b, n / a % b;
    MulLt(0, a, b);
    Distribute(b * q, r, a);
    MulAssoc(b, q, a);
    MulAssoc(a, b, q);
    MulLe(r, b - 1, a);
    Distribute(b, 1, a);
    MulNat(r, a);
    DivModUnique(n, a * b, q, r * a + n % a);
  }

  lemma {:induction false} LittleIsReverse(n: nat, k: nat, i: nat)
    requires i < k
    ensures LittleEndian(n, k)[i] == BigEndian(n, k)[k - 1 - i]
  {
    if i > 0 {
      LittleIsReverse(n / 256, k - 1, i - 1);
    }
  }

  function Zeros(n: nat): (s: seq<byte>)
    ensures |s| == n && forall k | 0 <= k < n :: s[k] == 0
  {
    seq(n, _ => 0)
  }

  /** A one bit, zeros up to eight bytes short of a block, and the length in bits modulo 2^64. */
  function Padding(alg: Algorithm, n: nat): (p: seq<byte>)
    ensures (n + |p|) % 64 == 0 && 9 <= |p| <= 72
  {
    PaddingLength(n);
    [0x80] + Zeros((119 - n % 64) % 64) + Store(alg, 8 * n % LENGTH_WORD, 8)
  }

  lemma PaddingLength(n: nat)
    ensures (n + 9 + (119 - n % 64) % 64) % 64 == 0
  {
    var q, r := n / 64, n % 64;
    assert n == 64 * q + r;
    if r <= 55 {
      assert (119 - r) % 64 == 55 - r;
      assert n + 9 + (55 - r) == 64 * (q + 1);
    } else {
      assert n + 9 + (119 - r) == 64 * (q + 2);
    }
  }

  /** The compression of whole blocks, one after the other. */
  function Fold(alg: Algorithm, m: seq<byte>): seq<word>
    requires |m| % 64 == 0
  {
    if m == [] then alg.initial else alg.compress(Fold(alg, m[..|m| - 64]), m[|m| - 64..])
  }

  function Output(alg: Algorithm, state: seq<word>): seq<byte> {
    if state == [] then [] else Store(alg, state[0], 4) + Output(alg, state[1..])
  }

  /** The hash of a whole message. */
  function Digest(alg: Algorithm, m: seq<byte>): seq<byte> {
    Output(alg, Fold(alg, m + Padding(alg, |m|)))
  }

  lemma FoldNext(alg: Algorithm, m: seq<byte>, b: seq<byte>)
    requires |m| % 64 == 0 && |b| == 64
    ensures |m + b| % 64 == 0 && Fold(alg, m + b) == alg.compress(Fold(alg, m), b)
  {
    assert (m + b)[..|m|] == m && (m + b)[|m|..] == b;
  }

  // ----- the stream

  class HashState {
    var alg: Algorithm
    var state: seq<word>
    var length: nat
    var curlen: nat
    var buf: array<byte>
    ghost var msg: seq<byte>

    /** Everything but the last curlen bytes of the message is compressed; those are in the buffer. */
    ghost predicate Valid()
      reads this, buf
    {
      && buf.Length == 64 && curlen < 64 && curlen <= |msg| && (|msg| - curlen) % 64 == 0
      && state == Fold(alg, msg[..|msg| - curlen])
      && buf[..curlen] == msg[|msg| - curlen..]
      && length == 8 * (|msg| - curlen) % LENGTH_WORD
    }

    constructor Init(alg: Algorithm)
      ensures Valid() && this.alg == alg && msg == [] && fresh(buf)
    {
      this.alg := alg;
      state := alg.initial;
      length := 0;
      curlen := 0;
      buf := new byte[64];
      msg := [];
    }

    /** The buffer, full, is compressed and counted. */
    method Compress(ghost done: seq<byte>)
      requires buf.Length == 64 && |done| % 64 == 0 && state == Fold(alg, done)
      modifies `state
      ensures |done + buf[..]| % 64 == 0 && state == Fold(alg, done + buf[..])
    {
      FoldNext(alg, done, buf[..]);
      state := alg.compress(state, buf[..]);
    }

    /** Appends len bytes to the message. */
    method Update(inp: array<byte>, inlen: nat)
      requires Valid() && inlen <= inp.Length && inp != buf
      modifies this, buf
      ensures Valid() && alg == old(alg) && buf == old(buf) && msg == old(msg) + inp[..inlen]
    {
      hide Valid;
      ghost var m0 := msg;
      var pos := 0;
      while pos < inlen
        invariant 0 <= pos <= inlen && Valid() && alg == old(alg) && buf == old(buf)
        invariant msg == m0 + inp[..pos]
      {
        var n := AbsorbSome(inp, pos, inlen);
        assert inp[..pos] + inp[pos..pos + n] == inp[..pos + n];
        pos := pos + n;
      }
    }

    /** As much as there is, or as fills the buffer. */
    method AbsorbSome(inp: array<byte>, pos: nat, inlen: nat) returns (n: nat)
      requires Valid() && inp != buf && pos < inlen <= inp.Length
      modifies this, buf
      ensures Valid() && alg == old(alg) && buf == old(buf) && 0 < n <= inlen - pos && msg == old(msg) + inp[pos..pos + n]
    {
      hide Fold;
      n := if inlen - pos < 64 - curlen then inlen - pos else 64 - curlen;
      Absorb(inp, pos, n);
    }

    /** Copies n bytes into the free part of the buffer, compressing it when that fills it. */
    method Absorb(inp: array<byte>, pos: nat, n: nat)
      requires Valid() && inp != buf && pos + n <= inp.Length && curlen + n <= 64
      modifies this, buf
      ensures Valid() && alg == old(alg) && buf == old(buf) && msg == old(msg) + inp[pos..pos + n]
    {
      ghost var done, rest, piece := msg[..|msg| - curlen], msg[|msg| - curlen..], inp[pos..pos + n];
      assert msg == done + rest;
      CopyIn(inp, pos, n);
      curlen := curlen + n;
      msg := msg + piece;
      assert buf[..curlen] == rest + piece;
      assert msg == done + (rest + piece);
      if curlen == 64 {
        assert buf[..] == rest + piece;
        Compress(done);
        CountBlock(|done|);
        length := (length + 512) % LENGTH_WORD;
        curlen := 0;
        assert msg[..|msg|] == done + buf[..];
      } else {
        assert msg[..|msg| - curlen] == done && msg[|msg| - curlen..] == rest + piece;
      }
    }

    /** Pads, compresses what is left and writes the hash; the result is its length. */
    method Final(hash: array<byte>) returns (res: int)
      requires Valid() && WellFormed(alg) && hash != buf && 4 * |alg.initial| <= hash.Length
      modifies `state, `length, `curlen, buf, hash
      ensures res == 4 * |alg.initial| && hash[..4 * |alg.initial|] == Digest(alg, msg)
    {
      hide Fold, Padding, Output;
      PadAndCompress();
      FoldWords(alg, msg + Padding(alg, |msg|));
      res := WriteWords(hash);
    }

    /** The state becomes that of the padded message. */
    method PadAndCompress()
      requires Valid()
      modifies `state, `length, `curlen, buf
      ensures |msg + Padding(alg, |msg|)| % 64 == 0 && state == Fold(alg, msg + Padding(alg, |msg|))
    {
      hide Fold, Padding, Store, Zeros;
      ghost var done, rest := msg[..|msg| - curlen], msg[|msg| - curlen..];
      AppendBit(|done|, rest);
      ghost var spilled, tail := SpillBlock(done, rest + [0x80]);
      ghost var block := FillZeros(56, tail);
      StoreLength(length, block);
      Compress(spilled);
      PaddedBlocks(alg, msg, rest, spilled, block + Store(alg, length, 8));
    }

    /** Counts the bytes in the buffer and appends the one bit. */
    method AppendBit(ghost n: nat, ghost rest: seq<byte>)
      requires buf.Length == 64 && curlen < 64 && buf[..curlen] == rest && length == 8 * n % LENGTH_WORD
      modifies `length, `curlen, buf
      ensures length == 8 * (n + |rest|) % LENGTH_WORD && curlen == |rest| + 1 && buf[..curlen] == rest + [0x80]
    {
      length := (length + curlen * 8) % LENGTH_WORD;
      CountRest(n, curlen);
      buf[curlen] := 0x80;
      curlen := curlen + 1;
    }

    /** When no room is left for the length, the block is filled with zeros and compressed. */
    method SpillBlock(ghost done: seq<byte>, ghost tail: seq<byte>) returns (ghost done': seq<byte>, ghost tail': seq<byte>)
      requires buf.Length == 64 && curlen <= 64 && buf[..curlen] == tail && |done| % 64 == 0 && state == Fold(alg, done)
      modifies `state, `curlen, buf
      ensures curlen <= 56 && buf[..curlen] == tail' && |done'| % 64 == 0 && state == Fold(alg, done')
      ensures |tail| > 56 ==> done' == done + (tail + Zeros(64 - |tail|)) && tail' == []
      ensures |tail| <= 56 ==> done' == done && tail' == tail
    {
      hide Fold;
      done', tail' := done, tail;
      if curlen > 56 {
        ghost var block := FillZeros(64, tail);
        assert buf[..] == block;
        Compress(done);
        done' := done + block;
        curlen := 0;
        tail' := [];
      }
    }

    /** Zeros from curlen up to n; the ghost result is what the first n bytes then hold. */
    method FillZeros(n: nat, ghost tail: seq<byte>) returns (ghost block: seq<byte>)
      requires buf.Length == 64 && curlen <= n <= 64 && buf[..curlen] == tail
      modifies buf, `curlen
      ensures curlen == n && block == tail + Zeros(n - |tail|) && buf[..n] == block
    {
      while curlen < n
        invariant |tail| <= curlen <= n && buf[..curlen] == tail + Zeros(curlen - |tail|)
      {
        buf[curlen] := 0;
        curlen := curlen + 1;
      }
      block := tail + Zeros(n - |tail|);
    }

    /** The length in the last eight bytes of the buffer. */
    method StoreLength(n: nat, ghost block: seq<byte>)
      requires buf.Length == 64 && |block| == 56 && buf[..56] == block
      modifies buf
      ensures buf[..] == block + Store(alg, n, 8)
    {
      var bytes := Store(alg, n, 8);
      var i := 0;
      while i < 8
        invariant 0 <= i <= 8 && buf[..56] == block && buf[56..56 + i] == bytes[..i]
      {
        buf[56 + i] := bytes[i];
        i := i + 1;
      }
      assert buf[..] == buf[..56] + buf[56..64];
    }

    /** The state as bytes. */
    method WriteWords(hash: array<byte>) returns (res: int)
      requires hash != buf && 4 * |state| <= hash.Length
      modifies hash
      ensures res == 4 * |state| && hash[..res] == Output(alg, state)
    {
      OutputStart(alg, state);
      var i := 0;
      while i < |state|
        invariant 0 <= i <= |state| && hash[..4 * i] == Output(alg, state[..i])
      {
        var bytes := Store(alg, state[i], 4);
        hash[4 * i], hash[4 * i + 1], hash[4 * i + 2], hash[4 * i + 3] := bytes[0], bytes[1], bytes[2], bytes[3];
        OutputNext(alg, state, i);
        assert hash[..4 * (i + 1)] == hash[..4 * i] + bytes;
        i := i + 1;
      }
      assert state[..i] == state;
      res := 4 * |state|;
    }

    method CopyIn(inp: array<byte>, pos: nat, n: nat)
      requires buf.Length == 64 && inp != buf && pos + n <= inp.Length && curlen + n <= 64
      modifies buf
      ensures buf[..curlen] == old(buf[..curlen]) && buf[curlen..curlen + n] == inp[pos..pos + n]
    {
      var i := 0;
      while i < n
        invariant 0 <= i <= n && buf[..curlen] == old(buf[..curlen])
        invariant forall k | curlen <= k < curlen + i :: buf[k] == inp[pos + (k - curlen)]
      {
        buf[curlen + i] := inp[pos + i];
        i := i + 1;
      }
    }
  }

  /** The compression keeps the number of state words. */
  ghost predicate WellFormed(alg: Algorithm) {
    forall s, b :: |s| == |alg.initial| ==> |alg.compress(s, b)| == |alg.initial|
  }

  lemma {:induction false} FoldWords(alg: Algorithm, m: seq<byte>)
    requires WellFormed(alg) && |m| % 64 == 0
    ensures |Fold(alg, m)| == |alg.initial|
  {
    if m != [] { FoldWords(alg, m[..|m| - 64]); }
  }

  lemma CountBlock(n: nat)
    ensures (8 * n % LENGTH_WORD + 512) % LENGTH_WORD == 8 * (n + 64) % LENGTH_WORD
  {}

  lemma CountRest(n: nat, k: nat)
    ensures (8 * n % LENGTH_WORD + k * 8) % LENGTH_WORD == 8 * (n + k) % LENGTH_WORD
  {}

  lemma OutputStart(alg: Algorithm, state: seq<word>)
    ensures Output(alg, state[..0]) == []
  {}

  lemma {:induction false} OutputNext(alg: Algorithm, state: seq<word>, i: nat)
    requires i < |state|
    ensures Output(alg, state[..i + 1]) == Output(alg, state[..i]) + Store(alg, state[i], 4)
  {
    OutputSnoc(alg, state[..i], state[i]);
    assert state[..i] + [state[i]] == state[..i + 1];
  }

  lemma {:induction false} OutputSnoc(alg: Algorithm, s: seq<word>, w: word)
    ensures Output(alg, s + [w]) == Output(alg, s) + Store(alg, w, 4)
  {
    if s == [] {
      assert s + [w] == [w];
      assert Output(alg, [w]) == Store(alg, w, 4) + Output(alg, []);
    } else {
      OutputSnoc(alg, s[1..], w);
      assert (s + [w])[1..] == s[1..] + [w];
    }
  }

  lemma {:induction false} OutputLength(alg: Algorithm, s: seq<word>)
    ensures |Output(alg, s)| == 4 * |s|
  {
    if s != [] { OutputLength(alg, s[1..]); }
  }

  /** In both branches the blocks compressed are the padded message. */
  lemma PaddedBlocks(alg: Algorithm, m: seq<byte>, rest: seq<byte>, done: seq<byte>, last: seq<byte>)
    requires |rest| < 64 && |rest| <= |m| && (|m| - |rest|) % 64 == 0 && m[|m| - |rest|..] == rest
    requires var tail := rest + [0x80]; var before := m[..|m| - |rest|]; var size := Store(alg, 8 * |m| % LENGTH_WORD, 8);
             if |tail| > 56 then done == before + (tail + Zeros(64 - |tail|)) && last == Zeros(56) + size
             else done == before && last == tail + Zeros(56 - |tail|) + size
    ensures done + last == m + Padding(alg, |m|)
  {
    hide Store;
    var r := |rest|;
    var before, size := m[..|m| - r], Store(alg, 8 * |m| % LENGTH_WORD, 8);
    RestLength(|m|, r);
    assert m == before + rest;
    if r + 1 > 56 {
      SpilledBlocks(before, rest, size, r);
    } else {
      assert done + last == before + rest + ([0x80] + Zeros(55 - r) + size);
    }
  }

  lemma RestLength(n: nat, r: nat)
    requires r < 64 && r <= n && (n - r) % 64 == 0
    ensures n % 64 == r && (119 - n % 64) % 64 == if r <= 55 then 55 - r else 119 - r
  {}

  lemma SpilledBlocks(before: seq<byte>, rest: seq<byte>, size: seq<byte>, r: nat)
    requires |rest| == r && 56 <= r < 64
    ensures before + (rest + [0x80] + Zeros(63 - r)) + (Zeros(56) + size) == before + rest + ([0x80] + Zeros(119 - r) + size)
  {
    assert Zeros(63 - r) + Zeros(56) == Zeros(119 - r);
  }

  /** Written at full width, a number below 256^k is determined by its bytes. */
  lemma StoreInjective(alg: Algorithm, x: nat, y: nat, k: nat)
    requires x < Pow(256, k) && y < Pow(256, k) && Store(alg, x, k) == Store(alg, y, k)
    ensures x == y
  {
    if !alg.bigEndian {
      forall i | 0 <= i < k
        ensures BigEndian(x, k)[i] == BigEndian(y, k)[i]
      {
        LittleIsReverse(x, k, k - 1 - i);
        LittleIsReverse(y, k, k - 1 - i);
      }
      assert BigEndian(x, k) == BigEndian(y, k);
    }
    BigEndianVal(x, k);
    BigEndianVal(y, k);
    DivModUnique(x, Pow(256, k), 0, x);
    DivModUnique(y, Pow(256, k), 0, y);
  }

  /** Different messages of fewer than 2^61 bytes are padded differently: the counted length tells them apart. */
  lemma PaddingUnambiguous(alg: Algorithm, m: seq<byte>, m': seq<byte>)
    requires 8 * |m| < LENGTH_WORD && 8 * |m'| < LENGTH_WORD
    requires m + Padding(alg, |m|) == m' + Padding(alg, |m'|)
    ensures m == m'
  {
    hide Store;
    var p, p' := m + Padding(alg, |m|), m' + Padding(alg, |m'|);
    assert p[|p| - 8..] == Store(alg, 8 * |m|, 8) && p'[|p'| - 8..] == Store(alg, 8 * |m'|, 8);
    LengthRange();
    StoreInjective(alg, 8 * |m|, 8 * |m'|, 8);
    assert p[..|m|] == m && p'[..|m'|] == m';
  }

  lemma LengthRange()
    ensures Pow(256, 8) == LENGTH_WORD
  {
    assert Pow(256, 1) == 256 by { assert Pow(256, 0) == 1; }
    PowAdd(256, 1, 1);
    PowAdd(256, 2, 2);
    PowAdd(256, 4, 4);
  }

  // ----- the byte order of each algorithm

  function Reversed(s: seq<byte>): (r: seq<byte>)
    ensures |r| == |s|
  {
    seq(|s|, i requires 0 <= i < |s| => s[|s| - 1 - i])
  }

  lemma LittleReversed(n: nat, k: nat)
    ensures Reversed(LittleEndian(n, k)) == BigEndian(n, k)
  {
    forall i | 0 <= i < k
      ensures Reversed(LittleEndian(n, k))[i] == BigEndian(n, k)[i]
    {
      LittleIsReverse(n, k, k - 1 - i);
    }
  }

  /** SHA-1 stores numbers most significant byte first. */
  lemma Sha1Stores(compress: (seq<word>, seq<byte>) -> seq<word>, n: nat, k: nat)
    requires n < Pow(256, k)
    ensures BytesVal(Store(Sha1(compress), n, k)) == n
  {
    hide BytesVal;
    BigEndianVal(n, k);
    DivModUnique(n, Pow(256, k), 0, n);
  }

  /** MD5 stores them least significant byte first. */
  lemma Md5Stores(compress: (seq<word>, seq<byte>) -> seq<word>, n: nat, k: nat)
    requires n < Pow(256, k)
    ensures BytesVal(Reversed(Store(Md5(compress), n, k))) == n
  {
    hide BytesVal;
    LittleReversed(n, k);
    BigEndianVal(n, k);
    DivModUnique(n, Pow(256, k), 0, n);
  }

  /** A one bit and zeros, and in the last eight bytes the number of bits. */
  ghost predicate Padded(p: seq<byte>, n: nat) {
    && (n + |p|) % 64 == 0 && 9 <= |p| <= 72 && p[0] == 0x80
    && (forall k | 1 <= k < |p| - 8 :: p[k] == 0)
  }

  lemma PaddingParts(alg: Algorithm, n: nat)
    ensures var p := Padding(alg, n); Padded(p, n) && p[|p| - 8..] == Store(alg, 8 * n % LENGTH_WORD, 8)
  {
    hide Store;
    PaddingLength(n);
  }

  /** The padding of SHA-1 ends with the length in bits modulo 2^64, most significant byte first. */
  lemma Sha1Padding(compress: (seq<word>, seq<byte>) -> seq<word>, n: nat)
    ensures var p := Padding(Sha1(compress), n); Padded(p, n) && BytesVal(p[|p| - 8..]) == 8 * n % LENGTH_WORD
  {
    hide Store, BytesVal, Padding;
    PaddingParts(Sha1(compress), n);
    LengthRange();
    Sha1Stores(compress, 8 * n % LENGTH_WORD, 8);
  }

  /** That of MD5, least significant byte first. */
  lemma Md5Padding(compress: (seq<word>, seq<byte>) -> seq<word>, n: nat)
    ensures var p := Padding(Md5(compress), n); Padded(p, n) && BytesVal(Reversed(p[|p| - 8..])) == 8 * n % LENGTH_WORD
  {
    hide Store, BytesVal, Padding, Reversed;
    PaddingParts(Md5(compress), n);
    LengthRange();
    Md5Stores(compress, 8 * n % LENGTH_WORD, 8);
  }

  lemma WordRange()
    ensures Pow(256, 4) == 0x1_0000_0000
  {
    assert Pow(256, 1) == 256 by { assert Pow(256, 0) == 1; }
    PowAdd(256, 1, 1);
    PowAdd(256, 2, 2);
  }

  lemma {:induction false} OutputAt(alg: Algorithm, state: seq<word>, i: nat)
    requires i < |state|
    ensures |Output(alg, state)| == 4 * |state| && Output(alg, state)[4 * i..4 * i + 4] == Store(alg, state[i], 4)
  {
    hide Store;
    OutputLength(alg, state);
    if i > 0 {
      OutputAt(alg, state[1..], i - 1);
      var more := Output(alg, state[1..]);
      assert (Store(alg, state[0], 4) + more)[4 * i..4 * i + 4] == more[4 * (i - 1)..4 * (i - 1) + 4];
    }
  }

  /** Bytes 4i to 4i + 3 of a SHA-1 hash are word i of the state, most significant byte first. */
  lemma Sha1Output(compress: (seq<word>, seq<byte>) -> seq<word>, state: seq<word>, i: nat)
    requires i < |state|
    ensures var out := Output(Sha1(compress), state); |out| == 4 * |state| && BytesVal(out[4 * i..4 * i + 4]) == state[i]
  {
    hide Store, BytesVal, Output;
    OutputAt(Sha1(compress), state, i);
    WordRange();
    Sha1Stores(compress, state[i], 4);
  }

  /** Those of an MD5 hash, least significant byte first. */
  lemma Md5Output(compress: (seq<word>, seq<byte>) -> seq<word>, state: seq<word>, i: nat)
    requires i < |state|
    ensures var out := Output(Md5(compress), state); |out| == 4 * |state| && BytesVal(Reversed(out[4 * i..4 * i + 4])) == state[i]
  {
    hide Store, BytesVal, Output, Reversed;
    OutputAt(Md5(compress), state, i);
    WordRange();
    Md5Stores(compress, state[i], 4);
  }
}
