/** Key derivation and the Finished hash of SSL 3.0 (RFC 6101, sections 5.6.9, 6.1 and 6.2.2). */
module Keys {
  import opened MpBytes
  import opened Record

  /** The two hash functions, 16 and 20 bytes long. */
  datatype Hashes = Hashes(md5: seq<byte> -> seq<byte>, sha1: seq<byte> -> seq<byte>)

  ghost predicate HashLengths(h: Hashes) {
    (forall x :: |h.md5(x)| == 16) && forall x :: |h.sha1(x)| == 20
  }

  const MD5_SIZE: nat := 16
  const SALTS: nat := 10

  /** "A", "BB", "CCC" and so on. */
  function Salt(i: nat): seq<byte>
    requires i < SALTS
  {
    Repeat(65 + i, i + 1)
  }

  /** The letters A to J, each as often as its place among them says. */
  lemma SaltsSpelled()
    ensures Salt(0) == [65] && Salt(1) == [66, 66] && Salt(2) == [67, 67, 67]
    ensures forall i | 0 <= i < SALTS :: |Salt(i)| == i + 1 && forall k | 0 <= k <= i :: Salt(i)[k] as char == "ABCDEFGHIJ"[i]
  {}

  /** What the two hashes of a chunk are taken over. */
  function ChunkInner(i: nat, secret: seq<byte>, seed: seq<byte>): seq<byte>
    requires i < SALTS
  {
    Salt(i) + secret + seed
  }

  /** One 16-byte chunk of derived material. */
  function Chunk(h: Hashes, i: nat, secret: seq<byte>, seed: seq<byte>): seq<byte>
    requires i < SALTS
  {
    h.md5(secret + h.sha1(ChunkInner(i, secret, seed)))
  }

  /** One of the hashes of chunk i collides on what it is taken over. */
  ghost predicate ChunksCollide(h: Hashes, i: nat, secret: seq<byte>, seed: seq<byte>, secret': seq<byte>, seed': seq<byte>)
    requires i < SALTS
  {
    var x, x' := ChunkInner(i, secret, seed), ChunkInner(i, secret', seed');
    Collide(h.sha1, x, x') || Collide(h.md5, secret + h.sha1(x), secret' + h.sha1(x'))
  }

  /** A chunk depends on all of the secret and the seed. */
  lemma ChunkBinds(h: Hashes, i: nat, secret: seq<byte>, seed: seq<byte>, secret': seq<byte>, seed': seq<byte>)
    requires i < SALTS && |secret| == |secret'| && Chunk(h, i, secret, seed) == Chunk(h, i, secret', seed')
    ensures (secret == secret' && seed == seed') || ChunksCollide(h, i, secret, seed, secret', seed')
  {
    hide Salt;
    var x, x' := ChunkInner(i, secret, seed), ChunkInner(i, secret', seed');
    var o, o' := secret + h.sha1(x), secret' + h.sha1(x');
    var n := |Salt(i)| + |secret|;
    assert o[..|secret|] == secret && o'[..|secret|] == secret' && o[|secret|..] == h.sha1(x) && o'[|secret|..] == h.sha1(x');
    assert x[n..] == seed && x'[n..] == seed';
  }

  /** The first n chunks. */
  function Chunks(h: Hashes, n: nat, secret: seq<byte>, seed: seq<byte>): seq<byte>
    requires n <= SALTS
  {
    if n == 0 then [] else Chunks(h, n - 1, secret, seed) + Chunk(h, n - 1, secret, seed)
  }

  lemma {:induction false} ChunksLength(h: Hashes, n: nat, secret: seq<byte>, seed: seq<byte>)
    requires HashLengths(h) && n <= SALTS
    ensures |Chunks(h, n, secret, seed)| == MD5_SIZE * n
  {
    if n > 0 { ChunksLength(h, n - 1, secret, seed); }
  }

  function MasterSecret(h: Hashes, premaster: seq<byte>, clientRandom: seq<byte>, serverRandom: seq<byte>): seq<byte> {
    Chunks(h, 3, premaster, clientRandom + serverRandom)
  }

  /** Section 6.1 of RFC 6101, written out. */
  lemma MasterSecretSpelled(h: Hashes, p: seq<byte>, c: seq<byte>, s: seq<byte>)
    ensures MasterSecret(h, p, c, s)
         == h.md5(p + h.sha1([65] + p + c + s)) + h.md5(p + h.sha1([66, 66] + p + c + s)) + h.md5(p + h.sha1([67, 67, 67] + p + c + s))
  {
    hide Salt;
    SaltsSpelled();
    forall i | 0 <= i < 3
      ensures ChunkInner(i, p, c + s) == Salt(i) + p + c + s
    {
      assert Salt(i) + p + (c + s) == Salt(i) + p + c + s;
    }
    assert Chunks(h, 0, p, c + s) == [];
    assert Chunks(h, 1, p, c + s) == Chunk(h, 0, p, c + s);
    assert Chunks(h, 2, p, c + s) == Chunk(h, 0, p, c + s) + Chunk(h, 1, p, c + s);
  }

  lemma {:induction false} ChunkAt(h: Hashes, n: nat, secret: seq<byte>, seed: seq<byte>, i: nat)
    requires HashLengths(h) && i < n <= SALTS
    ensures |Chunks(h, n, secret, seed)| == MD5_SIZE * n
    ensures Chunks(h, n, secret, seed)[MD5_SIZE * i..MD5_SIZE * (i + 1)] == Chunk(h, i, secret, seed)
  {
    ChunksLength(h, n, secret, seed);
    ChunksLength(h, n - 1, secret, seed);
    if i < n - 1 {
      ChunkAt(h, n - 1, secret, seed, i);
      var c := Chunks(h, n - 1, secret, seed);
      assert (c + Chunk(h, n - 1, secret, seed))[MD5_SIZE * i..MD5_SIZE * (i + 1)] == c[MD5_SIZE * i..MD5_SIZE * (i + 1)];
    }
  }

  /** Derived material depends on all of the secret and the seed: with others it is the same only if in each of its
      chunks a hash collides. */
  lemma MaterialBinds(h: Hashes, n: nat, secret: seq<byte>, seed: seq<byte>, secret': seq<byte>, seed': seq<byte>)
    requires HashLengths(h) && n <= SALTS && |secret| == |secret'| && Chunks(h, n, secret, seed) == Chunks(h, n, secret', seed')
    ensures n == 0 || (secret == secret' && seed == seed')
            || forall i | 0 <= i < n :: ChunksCollide(h, i, secret, seed, secret', seed')
  {
    hide Salt, Chunk, ChunksCollide;
    if !(secret == secret' && seed == seed') {
      forall i | 0 <= i < n
        ensures ChunksCollide(h, i, secret, seed, secret', seed')
      {
        ChunkAt(h, n, secret, seed, i);
        ChunkAt(h, n, secret', seed', i);
        ChunkBinds(h, i, secret, seed, secret', seed');
      }
    }
  }

  /** The master secret depends on the premaster secret and on both random numbers. */
  lemma MasterSecretBinds(h: Hashes, p: seq<byte>, c: seq<byte>, s: seq<byte>, p': seq<byte>, c': seq<byte>, s': seq<byte>)
    requires HashLengths(h) && |p| == |p'| && |c| == |c'| && MasterSecret(h, p, c, s) == MasterSecret(h, p', c', s')
    ensures (p == p' && c == c' && s == s') || forall i | 0 <= i < 3 :: ChunksCollide(h, i, p, c + s, p', c' + s')
  {
    hide Chunks, ChunksCollide;
    MaterialBinds(h, 3, p, c + s, p', c' + s');
    assert (c + s)[..|c|] == c && (c' + s')[..|c|] == c' && (c + s)[|c|..] == s && (c' + s')[|c|..] == s';
  }

  /** The bytes of key material a suite needs. */
  function KeyLength(s: Suite): nat {
    2 * s.macSize + 2 * s.keySize + 2 * s.ivSize
  }

  /** The fewest chunks, and at least one, that cover a length. */
  function KeyIter(n: nat): (k: nat)
    ensures k >= 1 && MD5_SIZE * k >= n && (k > 1 ==> MD5_SIZE * (k - 1) < n)
  {
    if n <= MD5_SIZE then 1 else (n + MD5_SIZE - 1) / MD5_SIZE
  }

  /** The key block of a connection; the server's random number comes first. */
  function KeyBlock(h: Hashes, s: Suite, master: seq<byte>, clientRandom: seq<byte>, serverRandom: seq<byte>): seq<byte>
    requires KeyIter(KeyLength(s)) <= SALTS
  {
    Chunks(h, KeyIter(KeyLength(s)), master, serverRandom + clientRandom)
  }

  /** Section 6.2.2 of RFC 6101: the chunks are made as those of a master secret, but with the random numbers the other
      way round. */
  lemma KeyBlockStart(h: Hashes, s: Suite, master: seq<byte>, clientRandom: seq<byte>, serverRandom: seq<byte>)
    requires HashLengths(h) && 3 <= KeyIter(KeyLength(s)) <= SALTS
    ensures |KeyBlock(h, s, master, clientRandom, serverRandom)| >= 48
    ensures KeyBlock(h, s, master, clientRandom, serverRandom)[..48] == MasterSecret(h, master, serverRandom, clientRandom)
  {
    ChunksStart(h, KeyIter(KeyLength(s)), master, serverRandom + clientRandom, 3);
  }

  lemma {:induction false} ChunksStart(h: Hashes, n: nat, secret: seq<byte>, seed: seq<byte>, k: nat)
    requires HashLengths(h) && k <= n <= SALTS
    ensures |Chunks(h, n, secret, seed)| == MD5_SIZE * n && Chunks(h, n, secret, seed)[..MD5_SIZE * k] == Chunks(h, k, secret, seed)
  {
    ChunksLength(h, n, secret, seed);
    ChunksLength(h, k, secret, seed);
    if k < n {
      ChunksStart(h, n - 1, secret, seed, k);
    }
  }

  /** The key block depends on the master secret and on both random numbers. */
  lemma KeyBlockBinds(h: Hashes, s: Suite, m: seq<byte>, c: seq<byte>, r: seq<byte>, m': seq<byte>, c': seq<byte>, r': seq<byte>)
    requires HashLengths(h) && KeyIter(KeyLength(s)) <= SALTS && |m| == |m'| && |r| == |r'|
    requires KeyBlock(h, s, m, c, r) == KeyBlock(h, s, m', c', r')
    ensures (m == m' && c == c' && r == r')
            || forall i | 0 <= i < KeyIter(KeyLength(s)) :: ChunksCollide(h, i, m, r + c, m', r' + c')
  {
    hide Chunks, ChunksCollide;
    MaterialBinds(h, KeyIter(KeyLength(s)), m, r + c, m', r' + c');
    assert (r + c)[..|r|] == r && (r' + c')[..|r|] == r' && (r + c)[|r|..] == c && (r' + c')[|r|..] == c';
  }

  /** The bytes the original keeps for the key block. */
  const KEY_BLOCK_SIZE: nat := 2 * 20 + 2 * 24 + 2 * 8

  /** Only whole chunks are written, so the key block stays inside those bytes exactly when the suite needs six chunks
      at most. */
  lemma KeyBlockFits(h: Hashes, s: Suite, master: seq<byte>, clientRandom: seq<byte>, serverRandom: seq<byte>)
    requires HashLengths(h) && KeyIter(KeyLength(s)) <= SALTS
    ensures |KeyBlock(h, s, master, clientRandom, serverRandom)| == MD5_SIZE * KeyIter(KeyLength(s))
    ensures |KeyBlock(h, s, master, clientRandom, serverRandom)| <= KEY_BLOCK_SIZE <==> KeyLength(s) <= 6 * MD5_SIZE
  {
    ChunksLength(h, KeyIter(KeyLength(s)), master, serverRandom + clientRandom);
  }

  /** The six pieces of the key block as one side uses them. */
  datatype Slices = Slices(wMac: seq<byte>, rMac: seq<byte>, wKey: seq<byte>, rKey: seq<byte>, wIv: seq<byte>, rIv: seq<byte>) {
    /** The same pieces seen from the other side. */
    function Mirror(): Slices {
      Slices(rMac, wMac, rKey, wKey, rIv, wIv)
    }
  }

  /** The client's writing pieces come first in each pair. */
  function Slice(block: seq<byte>, s: Suite, server: bool): Slices
    requires KeyLength(s) <= |block|
  {
    var m, k, v := s.macSize, s.keySize, s.ivSize;
    var first, second := block[..m], block[m..2 * m];
    var key1, key2 := block[2 * m..2 * m + k], block[2 * m + k..2 * m + 2 * k];
    var iv1, iv2 := block[2 * m + 2 * k..2 * m + 2 * k + v], block[2 * m + 2 * k + v..2 * m + 2 * k + 2 * v];
    if server then Slices(second, first, key2, key1, iv2, iv1) else Slices(first, second, key1, key2, iv1, iv2)
  }

  /** Each side writes with what the other reads with, and the pieces lie end to end in the block. */
  lemma SlicesMirrored(block: seq<byte>, s: Suite)
    requires KeyLength(s) <= |block|
    ensures Slice(block, s, true) == Slice(block, s, false).Mirror()
    ensures var c := Slice(block, s, false);
            && |c.wMac| == |c.rMac| == s.macSize && |c.wKey| == |c.rKey| == s.keySize && |c.wIv| == |c.rIv| == s.ivSize
            && c.wMac + c.rMac + c.wKey + c.rKey + c.wIv + c.rIv == block[..KeyLength(s)]
  {
    var m, k, v := s.macSize, s.keySize, s.ivSize;
    SixPieces(block, m, 2 * m, 2 * m + k, 2 * m + 2 * k, 2 * m + 2 * k + v, KeyLength(s));
  }

  lemma SixPieces(s: seq<byte>, a: nat, b: nat, c: nat, d: nat, e: nat, f: nat)
    requires a <= b <= c <= d <= e <= f <= |s|
    ensures s[..a] + s[a..b] + s[b..c] + s[c..d] + s[d..e] + s[e..f] == s[..f]
  {
    PiecesJoin(s, a, b);
    PiecesJoin(s, b, c);
    PiecesJoin(s, c, d);
    PiecesJoin(s, d, e);
    PiecesJoin(s, e, f);
  }

  lemma PiecesJoin(s: seq<byte>, a: nat, b: nat)
    requires a <= b <= |s|
    ensures s[..a] + s[a..b] == s[..b]
  {}

  /** What the inner and the outer hashes of a finished message are taken over, with pads of n bytes. */
  function FinishedInner(n: nat, master: seq<byte>, transcript: seq<byte>, sender: seq<byte>): seq<byte> {
    transcript + sender + master + Repeat(0x36, n)
  }

  function FinishedOuter(n: nat, master: seq<byte>, inner: seq<byte>): seq<byte> {
    master + Repeat(0x5c, n) + inner
  }

  function FinishedHalf(hash: seq<byte> -> seq<byte>, n: nat, master: seq<byte>, transcript: seq<byte>, sender: seq<byte>): seq<byte> {
    hash(FinishedOuter(n, master, hash(FinishedInner(n, master, transcript, sender))))
  }

  /** The hash of a finished message over the handshake so far, the sender's label and the master secret. */
  function FinishedHash(h: Hashes, master: seq<byte>, transcript: seq<byte>, sender: seq<byte>): seq<byte> {
    FinishedHalf(h.md5, 48, master, transcript, sender) + FinishedHalf(h.sha1, 40, master, transcript, sender)
  }

  /** A hash collides on what two finished messages take it over. */
  ghost predicate HalvesCollide(hash: seq<byte> -> seq<byte>, n: nat, master: seq<byte>, transcript: seq<byte>, sender: seq<byte>,
                                master': seq<byte>, transcript': seq<byte>, sender': seq<byte>) {
    var x, x' := FinishedInner(n, master, transcript, sender), FinishedInner(n, master', transcript', sender');
    Collide(hash, x, x') || Collide(hash, FinishedOuter(n, master, hash(x)), FinishedOuter(n, master', hash(x')))
  }

  /** Both hashes collide. */
  ghost predicate FinishedCollide(h: Hashes, master: seq<byte>, transcript: seq<byte>, sender: seq<byte>,
                                  master': seq<byte>, transcript': seq<byte>, sender': seq<byte>) {
    && HalvesCollide(h.md5, 48, master, transcript, sender, master', transcript', sender')
    && HalvesCollide(h.sha1, 40, master, transcript, sender, master', transcript', sender')
  }

  lemma HalfBinds(hash: seq<byte> -> seq<byte>, n: nat, master: seq<byte>, transcript: seq<byte>, sender: seq<byte>,
                  master': seq<byte>, transcript': seq<byte>, sender': seq<byte>)
    requires |master| == |master'| && |sender| == |sender'|
    requires FinishedHalf(hash, n, master, transcript, sender) == FinishedHalf(hash, n, master', transcript', sender')
    ensures (master == master' && transcript == transcript' && sender == sender')
            || HalvesCollide(hash, n, master, transcript, sender, master', transcript', sender')
  {
    var x, x' := FinishedInner(n, master, transcript, sender), FinishedInner(n, master', transcript', sender');
    var o, o' := FinishedOuter(n, master, hash(x)), FinishedOuter(n, master', hash(x'));
    assert o[..|master|] == master && o'[..|master|] == master';
    assert o[|master| + n..] == hash(x) && o'[|master| + n..] == hash(x');
    if x == x' {
      InnerFinished(n, master, transcript, sender);
      InnerFinished(n, master', transcript', sender');
    }
  }

  lemma InnerFinished(n: nat, master: seq<byte>, transcript: seq<byte>, sender: seq<byte>)
    ensures var x := FinishedInner(n, master, transcript, sender); var t := |x| - n - |master| - |sender|;
            && t == |transcript| && x[..t] == transcript && x[t..t + |sender|] == sender
            && x[t + |sender|..|x| - n] == master
  {}

  /** A finished message binds all that has been heard, who sends it and the master secret: unless MD5 and SHA-1 both
      collide, two that are equal agree in each of them. */
  lemma FinishedBinds(h: Hashes, master: seq<byte>, transcript: seq<byte>, sender: seq<byte>,
                      master': seq<byte>, transcript': seq<byte>, sender': seq<byte>)
    requires HashLengths(h) && |master| == |master'| && |sender| == |sender'|
    requires FinishedHash(h, master, transcript, sender) == FinishedHash(h, master', transcript', sender')
    ensures (master == master' && transcript == transcript' && sender == sender')
            || FinishedCollide(h, master, transcript, sender, master', transcript', sender')
  {
    hide HalvesCollide, FinishedHalf;
    var f, f' := FinishedHash(h, master, transcript, sender), FinishedHash(h, master', transcript', sender');
    FinishedParts(h, master, transcript, sender);
    FinishedParts(h, master', transcript', sender');
    HalfBinds(h.md5, 48, master, transcript, sender, master', transcript', sender');
    HalfBinds(h.sha1, 40, master, transcript, sender, master', transcript', sender');
  }

  lemma FinishedParts(h: Hashes, master: seq<byte>, transcript: seq<byte>, sender: seq<byte>)
    requires HashLengths(h)
    ensures var f := FinishedHash(h, master, transcript, sender);
            && |f| == 36 && f[..16] == FinishedHalf(h.md5, 48, master, transcript, sender)
            && f[16..] == FinishedHalf(h.sha1, 40, master, transcript, sender)
  {}

  /** With hashes that hand through what they are given, which never collide, two equal finished messages have been
      sent by the same side over the same messages under the same master secret. */
  lemma FreeFinishedBinds(master: seq<byte>, transcript: seq<byte>, sender: seq<byte>,
                          master': seq<byte>, transcript': seq<byte>, sender': seq<byte>)
    requires |master| == |master'| && |sender| == |sender'|
    requires var h := Hashes(x => x, x => x);
             FinishedHash(h, master, transcript, sender) == FinishedHash(h, master', transcript', sender')
    ensures master == master' && transcript == transcript' && sender == sender'
  {
    hide HalvesCollide;
    var h := Hashes(x => x, x => x);
    var f, f' := FinishedHash(h, master, transcript, sender), FinishedHash(h, master', transcript', sender');
    var n := 2 * |master| + |sender| + |transcript| + 96;
    var a, b := FinishedHalf(h.md5, 48, master, transcript, sender), FinishedHalf(h.sha1, 40, master, transcript, sender);
    var a', b' := FinishedHalf(h.md5, 48, master', transcript', sender'), FinishedHalf(h.sha1, 40, master', transcript', sender');
    assert |a| == n && |b| == n - 16 && |a'| - |a| == |b'| - |b| == |transcript'| - |transcript|;
    assert f[..n] == a && f'[..n] == a';
    HalfBinds(h.md5, 48, master, transcript, sender, master', transcript', sender');
    assert (master == master' && transcript == transcript' && sender == sender') by {
      IdentityIsFree(48, master, transcript, sender, master', transcript', sender');
    }
  }

  lemma IdentityIsFree(n: nat, master: seq<byte>, transcript: seq<byte>, sender: seq<byte>,
                       master': seq<byte>, transcript': seq<byte>, sender': seq<byte>)
    ensures !HalvesCollide(x => x, n, master, transcript, sender, master', transcript', sender')
  {}

  const SENDER_CLIENT: seq<byte> := [0x43, 0x4C, 0x4E, 0x54]
  const SENDER_SERVER: seq<byte> := [0x53, 0x52, 0x56, 0x52]

  function Sender(server: bool): seq<byte> {
    if server then SENDER_SERVER else SENDER_CLIENT
  }

  lemma SendersSpelled()
    ensures |Sender(false)| == |Sender(true)| == 4
    ensures forall k | 0 <= k < 4 :: Sender(false)[k] as char == "CLNT"[k] && Sender(true)[k] as char == "SRVR"[k]
  {}

  /** Section 5.6.9 of RFC 6101, written out. */
  lemma FinishedSpelled(h: Hashes, master: seq<byte>, heard: seq<byte>, server: bool)
    ensures FinishedHash(h, master, heard, Sender(server))
         == h.md5(master + Repeat(0x5c, 48) + h.md5(heard + Sender(server) + master + Repeat(0x36, 48)))
            + h.sha1(master + Repeat(0x5c, 40) + h.sha1(heard + Sender(server) + master + Repeat(0x36, 40)))
  {}

  /** The key material of one connection, filled in place. */
  class KeyMaterial {
    var masterSecret: seq<byte>
    var premaster: seq<byte>
    var keyBlock: seq<byte>
    var slices: Slices

    constructor ()
      ensures masterSecret == [] && premaster == [] && keyBlock == [] && slices == Slices([], [], [], [], [], [])
    {
      masterSecret, premaster, keyBlock := [], [], [];
      slices := Slices([], [], [], [], [], []);
    }

    /** Derives the master secret, unless a session is resumed, and then the key block and its slices. */
    method DeriveKeys(h: Hashes, s: Suite, clientRandom: seq<byte>, serverRandom: seq<byte>, server: bool, resumed: bool)
      returns (res: int)
      requires HashLengths(h)
      modifies this
      ensures res == if KeyIter(KeyLength(s)) <= SALTS then 48 else -1
      ensures masterSecret == if resumed then old(masterSecret) else MasterSecret(h, old(premaster), clientRandom, serverRandom)
      ensures premaster == if resumed then old(premaster) else []
      ensures res == 48 ==> keyBlock == KeyBlock(h, s, masterSecret, clientRandom, serverRandom)
      ensures res == 48 ==> |keyBlock| == MD5_SIZE * KeyIter(KeyLength(s)) && slices == Slice(keyBlock, s, server)
    {
      if !resumed {
        ghost var p := premaster;
        masterSecret := [];
        var i := 0;
        while i < 3
          invariant 0 <= i <= 3 && premaster == p && masterSecret == Chunks(h, i, p, clientRandom + serverRandom)
        {
          assert Salt(i) + premaster + clientRandom + serverRandom == Salt(i) + premaster + (clientRandom + serverRandom);
          masterSecret := masterSecret + h.md5(premaster + h.sha1(Salt(i) + premaster + clientRandom + serverRandom));
          i := i + 1;
        }
        premaster := [];
      }
      res := CreateKeyBlock(h, s, clientRandom, serverRandom, server);
      if res >= 0 {
        res := 48;
      }
    }

    method CreateKeyBlock(h: Hashes, s: Suite, clientRandom: seq<byte>, serverRandom: seq<byte>, server: bool) returns (res: int)
      requires HashLengths(h)
      modifies `keyBlock, `slices
      ensures res == if KeyIter(KeyLength(s)) <= SALTS then MD5_SIZE * KeyIter(KeyLength(s)) else -1
      ensures res >= 0 ==> keyBlock == KeyBlock(h, s, masterSecret, clientRandom, serverRandom)
      ensures res >= 0 ==> |keyBlock| == res && slices == Slice(keyBlock, s, server)
    {
      var reqKeyLen := KeyLength(s);
      var keyIter := 1;
      while MD5_SIZE * keyIter < reqKeyLen
        invariant keyIter >= 1 && (keyIter > 1 ==> MD5_SIZE * (keyIter - 1) < reqKeyLen)
        decreases reqKeyLen - MD5_SIZE * keyIter
      {
        keyIter := keyIter + 1;
      }
      assert keyIter == KeyIter(reqKeyLen);
      if keyIter > SALTS {
        return -1;
      }
      keyBlock := [];
      res := 0;
      var i := 0;
      while i < keyIter
        invariant 0 <= i <= keyIter && res == MD5_SIZE * i
        invariant keyBlock == Chunks(h, i, masterSecret, serverRandom + clientRandom)
      {
        assert Salt(i) + masterSecret + serverRandom + clientRandom == Salt(i) + masterSecret + (serverRandom + clientRandom);
        keyBlock := keyBlock + h.md5(masterSecret + h.sha1(Salt(i) + masterSecret + serverRandom + clientRandom));
        res := res + MD5_SIZE;
        i := i + 1;
      }
      ChunksLength(h, keyIter, masterSecret, serverRandom + clientRandom);
      slices := Slice(keyBlock, s, server);
    }
  }
}
