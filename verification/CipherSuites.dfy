/** The cipher table: RC4 and 3DES as the record layer uses them, with SHA-1 and MD5 as its hashes. */
module CipherSuites {
  import opened MpBytes
  import opened Record
  import opened Keys
  import opened Handshake
  import opened Options
  import ByteBits
  import Arc4
  import Des
  import Hash

  const SSL_RSA_WITH_RC4_128_MD5: nat := 4
  const SSL_RSA_WITH_RC4_128_SHA: nat := 5
  const SSL_RSA_WITH_3DES_EDE_CBC_SHA: nat := 10

  // ----- bytes as numbers and as bit vectors

  function Bits(s: seq<byte>): (r: seq<bv8>)
    ensures |r| == |s|
  {
    seq(|s|, i requires 0 <= i < |s| => s[i] as bv8)
  }

  function Bytes(s: seq<bv8>): (r: seq<byte>)
    ensures |r| == |s|
  {
    seq(|s|, i requires 0 <= i < |s| => s[i] as int)
  }

  lemma BitsOfBytes(s: seq<bv8>)
    ensures Bits(Bytes(s)) == s
  {
    forall i | 0 <= i < |s|
      ensures Bits(Bytes(s))[i] == s[i]
    {
      ByteBits.FromBits(s[i]);
    }
  }

  lemma BytesOfBits(s: seq<byte>)
    ensures Bytes(Bits(s)) == s
  {
    forall i | 0 <= i < |s|
      ensures Bytes(Bits(s))[i] == s[i]
    {
      ByteBits.FromNumber(s[i]);
    }
  }

  // ----- RC4

  function CountBytes(n: nat): (s: seq<byte>)
    ensures |s| == 4
  {
    [n / 0x100_0000 % 256, n / 0x1_0000 % 256, n / 256 % 256, n % 256]
  }

  function CountOf(s: seq<byte>): nat
    requires |s| == 4
  {
    var a: int, b: int, c: int, d: int := s[0], s[1], s[2], s[3];
    a * 0x100_0000 + b * 0x1_0000 + c * 256 + d
  }

  lemma CountBack(n: nat)
    requires n < COUNT_WORD
    ensures CountOf(CountBytes(n)) == n
  {
    var q, r := n / 256, n / 0x1_0000;
    assert r == q / 256 && n / 0x100_0000 == r / 256;
  }

  const RC4_CONTEXT: nat := 262

  /** A context holds the byte count, the two indices and the table; anything else reads as one not set up. */
  function Rc4State(c: Context): (s: Arc4.Metered)
    ensures |s.cipher.table| == 256
  {
    if |c| == RC4_CONTEXT then Arc4.Metered(Arc4.Cipher(c[4], c[5], c[6..]), CountOf(c[..4]))
    else Arc4.Metered(Arc4.Cipher(0, 0, Arc4.Identity()), 0)
  }

  function Rc4Context(s: Arc4.Metered): Context {
    CountBytes(s.count) + [s.cipher.x, s.cipher.y] + s.cipher.table
  }

  lemma ContextBack(s: Arc4.Metered)
    requires |s.cipher.table| == 256 && s.count < COUNT_WORD
    ensures Rc4State(Rc4Context(s)) == s
  {
    hide CountBytes, CountOf;
    CountBack(s.count);
    var c := Rc4Context(s);
    assert c[..4] == CountBytes(s.count) && c[6..] == s.cipher.table;
  }

  function Rc4Start(key: seq<byte>): Context {
    if key == [] then [] else Rc4Context(Arc4.Metered(Arc4.Cipher(0, 0, Arc4.SetupTable(key, 256).0), 0))
  }

  function Rc4Count(c: Context): nat {
    Rc4State(c).count
  }

  /** Encryption and decryption alike. */
  function Rc4(c: Context, x: seq<byte>): (Context, Option<seq<byte>>) {
    var (t, r) := Arc4.Call(Rc4State(c), Bits(x));
    (Rc4Context(t), if r.None? then None else Some(Bytes(r.value)))
  }

  lemma Rc4Starts(key: seq<byte>)
    ensures Rc4Count(Rc4Start(key)) == 0
  {
    if key != [] {
      ContextBack(Arc4.Metered(Arc4.Cipher(0, 0, Arc4.SetupTable(key, 256).0), 0));
    }
  }

  lemma Rc4Counts(c: Context, x: seq<byte>)
    ensures Rc4Count(Rc4(c, x).0) == (Rc4Count(c) + |x|) % COUNT_WORD
    ensures Rc4(c, x).1.Some? <==> (Rc4Count(c) + |x|) % COUNT_WORD <= Arc4.ARC4_MAX_BYTES
    ensures Rc4(c, x).1.Some? ==> |Rc4(c, x).1.value| == |x|
  {
    hide Arc4.After, Arc4.Crypt, Rc4State, Rc4Context;
    ContextBack(Arc4.Call(Rc4State(c), Bits(x)).0);
  }

  lemma Rc4Undone(c: Context, x: seq<byte>)
    ensures var (c', y) := Rc4(c, x); y.Some? ==> Rc4(c, y.value) == (c', Some(x))
  {
    hide Arc4.Call, Bits, Bytes, Rc4State, Rc4Context;
    var s := Rc4State(c);
    var r := Arc4.Call(s, Bits(x)).1;
    if r.Some? {
      Arc4.CallUndone(s, Bits(x));
      BitsOfBytes(r.value);
      BytesOfBits(x);
    }
  }

  // ----- 3DES

  /** A context holds the chaining value and the key; anything else reads as zeros. */
  function DesStart(key: seq<byte>, iv: seq<byte>): Context {
    iv + key
  }

  function DesState(c: Context): (r: Context)
    ensures |r| == 32
  {
    if |c| == 32 then c else Repeat(0, 32)
  }

  function Chain(c: Context): Des.block {
    Bits(DesState(c)[..8])
  }

  function Key(c: Context): (k: seq<bv8>)
    ensures |k| == 24
  {
    Bits(DesState(c)[8..])
  }

  ghost function DesEncrypt(sp: Des.Tables, c: Context, x: seq<byte>): (Context, Option<seq<byte>>) {
    if |x| % 8 != 0 then (c, None)
    else
      var ct := Des.CbcEncrypt(sp, Des.KeySchedules(Key(c)), Chain(c), Bits(x));
      (Bytes(Des.LastBlock(Chain(c), ct)) + DesState(c)[8..], Some(Bytes(ct)))
  }

  ghost function DesDecrypt(sp: Des.Tables, c: Context, y: seq<byte>): (Context, Option<seq<byte>>) {
    if |y| % 8 != 0 then (c, None)
    else
      var pt := Des.CbcDecrypt(sp, Des.InverseSchedules(Key(c)), Chain(c), Bits(y));
      (Bytes(Des.LastBlock(Chain(c), Bits(y))) + DesState(c)[8..], Some(Bytes(pt)))
  }

  lemma DesLength(sp: Des.Tables, c: Context, x: seq<byte>)
    ensures DesEncrypt(sp, c, x).1.Some? <==> |x| % 8 == 0
    ensures DesEncrypt(sp, c, x).1.Some? ==> |DesEncrypt(sp, c, x).1.value| == |x|
    ensures DesDecrypt(sp, c, x).1.Some? ==> |DesDecrypt(sp, c, x).1.value| == |x|
  {
    hide Des.CbcEncrypt, Des.CbcDecrypt, Des.KeySchedules, Des.InverseSchedules, Des.LastBlock, Bits, Bytes;
  }

  lemma DesUndone(sp: Des.Tables, c: Context, x: seq<byte>)
    requires |x| % 8 == 0
    ensures DesDecrypt(sp, c, DesEncrypt(sp, c, x).1.value) == (DesEncrypt(sp, c, x).0, Some(x))
  {
    hide Des.CbcEncrypt, Des.CbcDecrypt, Des.KeySchedules, Des.InverseSchedules, Des.LastBlock, Des.Reversed, Bits, Bytes, DesState;
    Des.SchedulesOpposite(Key(c));
    var ct := Des.CbcEncrypt(sp, Des.KeySchedules(Key(c)), Chain(c), Bits(x));
    BitsOfBytes(ct);
    Des.CbcInverse(sp, Des.KeySchedules(Key(c)), Des.InverseSchedules(Key(c)), Chain(c), Bits(x));
    BytesOfBits(x);
  }

  // ----- the table

  lemma DigestLength(alg: Hash.Algorithm, m: seq<byte>)
    requires Hash.WellFormed(alg)
    ensures |Hash.Digest(alg, m)| == 4 * |alg.initial|
  {
    hide Hash.Padding, Hash.Output, Hash.Fold;
    var padded := m + Hash.Padding(alg, |m|);
    Hash.FoldWords(alg, padded);
    Hash.OutputLength(alg, Hash.Fold(alg, padded));
  }

  /** The built-in functions the table is made of, whatever their tables and rounds. */
  datatype Primitives = Primitives(sp: Des.Tables,
                                   sha1: (seq<Hash.word>, seq<byte>) -> seq<Hash.word>,
                                   md5: (seq<Hash.word>, seq<byte>) -> seq<Hash.word>)

  ghost predicate Proper(p: Primitives) {
    Hash.WellFormed(Hash.Sha1(p.sha1)) && Hash.WellFormed(Hash.Md5(p.md5))
  }

  ghost function TripleDesSha(p: Primitives): Suite {
    Suite(SSL_RSA_WITH_3DES_EDE_CBC_SHA, 20, 24, 8, 8, 40, None, m => Hash.Digest(Hash.Sha1(p.sha1), m),
          (key, iv) => DesStart(key, iv), c => 0, (c, x) => DesEncrypt(p.sp, c, x), (c, x) => DesDecrypt(p.sp, c, x))
  }

  function Rc4Sha(p: Primitives): Suite {
    Suite(SSL_RSA_WITH_RC4_128_SHA, 20, 16, 0, 1, 40, Some(Arc4.ARC4_MAX_BYTES), m => Hash.Digest(Hash.Sha1(p.sha1), m),
          (key, iv) => Rc4Start(key), c => Rc4Count(c), (c, x) => Rc4(c, x), (c, x) => Rc4(c, x))
  }

  function Rc4Md5(p: Primitives): Suite {
    Suite(SSL_RSA_WITH_RC4_128_MD5, 16, 16, 0, 1, 48, Some(Arc4.ARC4_MAX_BYTES), m => Hash.Digest(Hash.Md5(p.md5), m),
          (key, iv) => Rc4Start(key), c => Rc4Count(c), (c, x) => Rc4(c, x), (c, x) => Rc4(c, x))
  }

  function NullSuite(): Suite {
    Suite(SSL_NULL_WITH_NULL_NULL, 0, 0, 0, 0, 0, None, m => [], (key, iv) => [], c => 0, (c, x) => (c, Some(x)), (c, x) => (c, Some(x)))
  }

  /** 3DES keeps the two ends of a direction in step for as long as it is used. */
  lemma TripleDesIsSound(p: Primitives)
    requires Proper(p)
    ensures Sound(TripleDesSha(p))
  {
    hide DesEncrypt, DesDecrypt, Hash.Digest;
    forall m ensures |Hash.Digest(Hash.Sha1(p.sha1), m)| == 20 {
      DigestLength(Hash.Sha1(p.sha1), m);
    }
    forall c, x
      ensures Encrypts(TripleDesSha(p), c, x)
      ensures DesDecrypt(p.sp, c, x).1.Some? ==> |DesDecrypt(p.sp, c, x).1.value| == |x|
    {
      DesLength(p.sp, c, x);
      if |x| % 8 == 0 {
        DesUndone(p.sp, c, x);
      }
    }
  }

  /** RC4 keeps them in step up to its byte limit, and refuses exactly what goes beyond. */
  lemma Rc4IsSound(s: Suite)
    requires s.id != SSL_NULL_WITH_NULL_NULL && s.blockSize == 1 && s.macSize <= 20 && (forall m :: |s.hash(m)| == s.macSize)
    requires s.limit == Some(Arc4.ARC4_MAX_BYTES) && (forall key, iv :: s.start(key, iv) == Rc4Start(key))
    requires (forall c :: s.count(c) == Rc4Count(c))
    requires forall c, x :: s.encrypt(c, x) == s.decrypt(c, x) == Rc4(c, x)
    ensures Sound(s)
  {
    hide Rc4, Rc4Count, Rc4Start;
    forall c, x
      ensures Encrypts(s, c, x)
      ensures s.decrypt(c, x).1.Some? ==> |s.decrypt(c, x).1.value| == |x|
      ensures s.count(s.encrypt(c, x).0) == (s.count(c) + |x|) % COUNT_WORD
    {
      Rc4Counts(c, x);
      Rc4Undone(c, x);
    }
    forall key, iv ensures s.count(s.start(key, iv)) == 0 {
      Rc4Starts(key);
    }
  }

  lemma Rc4RowsAreSound(p: Primitives)
    requires Proper(p)
    ensures Sound(Rc4Sha(p)) && Sound(Rc4Md5(p))
  {
    hide Rc4, Rc4Count, Rc4Start, Hash.Digest, Sound;
    forall m ensures |Hash.Digest(Hash.Sha1(p.sha1), m)| == 20 && |Hash.Digest(Hash.Md5(p.md5), m)| == 16 {
      DigestLength(Hash.Sha1(p.sha1), m);
      DigestLength(Hash.Md5(p.md5), m);
    }
    Rc4IsSound(Rc4Sha(p));
    Rc4IsSound(Rc4Md5(p));
  }

  /** Every row of the table is sound, and its keys fit the key block. */
  lemma TableIsSound(p: Primitives)
    requires Proper(p)
    ensures forall s | s in [TripleDesSha(p), Rc4Sha(p), Rc4Md5(p)] :: Sound(s) && KeyIter(KeyLength(s)) <= SALTS
    ensures IsNull(NullSuite()) && KeyIter(KeyLength(NullSuite())) <= SALTS
  {
    hide Sound;
    TripleDesIsSound(p);
    Rc4RowsAreSound(p);
  }

  /** 3DES is the one row whose key block does not fit the bytes the original keeps for it: it is 112 bytes long. */
  lemma KeyBlockOfRow(p: Primitives, s: Suite, h: Hashes, master: seq<byte>, clientRandom: seq<byte>, serverRandom: seq<byte>)
    requires HashLengths(h) && s in [TripleDesSha(p), Rc4Sha(p), Rc4Md5(p), NullSuite()]
    ensures KeyIter(KeyLength(s)) <= SALTS
    ensures |KeyBlock(h, s, master, clientRandom, serverRandom)| <= KEY_BLOCK_SIZE <==> s.id != SSL_RSA_WITH_3DES_EDE_CBC_SHA
    ensures s.id == SSL_RSA_WITH_3DES_EDE_CBC_SHA ==> |KeyBlock(h, s, master, clientRandom, serverRandom)| == KEY_BLOCK_SIZE + 8
  {
    hide Rc4, DesEncrypt, DesDecrypt, Hash.Digest, KeyBlock;
    KeyBlockFits(h, s, master, clientRandom, serverRandom);
  }

  /** The suites built in, the null suite among them. */
  ghost function Lookup(p: Primitives, id: nat): Option<Suite> {
    if id == SSL_RSA_WITH_3DES_EDE_CBC_SHA then Some(TripleDesSha(p))
    else if id == SSL_RSA_WITH_RC4_128_SHA then Some(Rc4Sha(p))
    else if id == SSL_RSA_WITH_RC4_128_MD5 then Some(Rc4Md5(p))
    else if id == SSL_NULL_WITH_NULL_NULL then Some(NullSuite())
    else None
  }

  /** The ends of a connection go by this table and these hashes. */
  ghost predicate BuiltIn(p: Primitives, w: World) {
    && w.plain == NullSuite() && (forall id: nat :: w.lookup(id) == Lookup(p, id))
    && (forall m :: w.hashes.md5(m) == Hash.Digest(Hash.Md5(p.md5), m) && w.hashes.sha1(m) == Hash.Digest(Hash.Sha1(p.sha1), m))
    && (forall sid, maj :: w.resume(sid, maj).Some? ==> w.resume(sid, maj).value.suite in [TripleDesSha(p), Rc4Sha(p), Rc4Md5(p)])
  }

  /** Whatever the boxes and compression functions hold, the built-in table is all the handshake assumes of one. */
  lemma BuiltWorldIsGood(p: Primitives, w: World)
    requires Proper(p) && BuiltIn(p, w)
    ensures GoodWorld(w)
  {
    hide Sound, Hash.Digest, KeyIter, IsNull;
    TableIsSound(p);
    forall m ensures |w.hashes.md5(m)| == 16 && |w.hashes.sha1(m)| == 20 {
      DigestLength(Hash.Sha1(p.sha1), m);
      DigestLength(Hash.Md5(p.md5), m);
    }
    forall id: nat | w.lookup(id).Some?
      ensures Tabled(w.lookup(id).value) && w.lookup(id).value.id == id
    {
      assert w.lookup(id) == Lookup(p, id);
    }
  }
}
