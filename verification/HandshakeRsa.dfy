/** The public-key operations of the handshake with an RSA key pair behind them. */
module HandshakeRsa {
  import opened Numbers
  import opened Congruence
  import opened NumberTheory
  import opened MpBytes
  import opened Record
  import opened Handshake
  import opened HandshakeAgreement
  import opened Options
  import Rsa

  /** The numbers of a public and a private key. */
  datatype KeyPair = KeyPair(n: nat, e: nat, d: nat)

  /** The bytes of the modulus, and of everything encrypted. */
  function Size(k: KeyPair): nat {
    |BytesOf(k.n)|
  }

  /** The exponents undo each other modulo the primes of the modulus, which has room for a premaster secret with its
      padding and fits a record. */
  ghost predicate Matching(k: KeyPair, p: nat, q: nat) {
    && Prime(p) && Prime(q) && p != q && k.n == p * q && k.n > 0 && k.e * k.d > 0
    && Congruent(k.e * k.d, 1, p - 1) && Congruent(k.e * k.d, 1, q - 1)
    && PREMASTER_SIZE + 11 <= Size(k) <= SSL_MAX_PLAINTEXT_LEN - 4
  }

  /** The random bytes drawn, of which there are always enough. */
  function Drawn(r: seq<byte>, n: nat): (s: seq<byte>)
    ensures |s| >= n
  {
    r + Repeat(1, n)
  }

  ghost function PaddedSecret(k: KeyPair, m: seq<byte>, r: seq<byte>): seq<byte>
    requires |m| + 11 <= Size(k)
  {
    var n := Size(k) - 3 - |m|;
    Rsa.Block(Rsa.RSA_PRIVATE, Rsa.Padding(Rsa.RSA_PRIVATE, n, Drawn(r, n)), m)
  }

  /** What the client sends of a secret. */
  ghost function Encrypted(k: KeyPair, m: seq<byte>, r: seq<byte>): seq<byte>
    requires k.n > 0 && |m| + 11 <= Size(k)
  {
    Rsa.Wide(Pow(BytesVal(PaddedSecret(k, m, r)), k.e) % k.n, Size(k))
  }

  /** What the server makes of it. */
  ghost function Decrypted(k: KeyPair, c: seq<byte>): Option<seq<byte>>
    requires k.n > 0
  {
    var s := Rsa.Wide(Pow(BytesVal(c), k.d) % k.n, Size(k));
    if |c| == Size(k) && BytesVal(c) <= k.n && Rsa.Unpads(s, Rsa.RSA_PRIVATE, PREMASTER_SIZE) then Some(s[|s| - PREMASTER_SIZE..])
    else None
  }

  /** The server recovers every secret of the length of a premaster secret, whatever padding was drawn. */
  lemma SecretRecovered(k: KeyPair, p: nat, q: nat, m: seq<byte>, r: seq<byte>)
    requires Matching(k, p, q) && |m| == PREMASTER_SIZE
    ensures |Encrypted(k, m, r)| == Size(k) && Decrypted(k, Encrypted(k, m, r)) == Some(m)
  {
    hide Pow, BytesVal, BytesOf, Rsa.Wide, Congruent, Prime, Rsa.Unpads;
    var n := Size(k) - 3 - |m|;
    var f := Rsa.Padding(Rsa.RSA_PRIVATE, n, Drawn(r, n));
    var block := PaddedSecret(k, m, r);
    var x := BytesVal(block);
    assert Rsa.NonZero(f) && |block| == Size(k);
    Rsa.BlockBelow(Rsa.RSA_PRIVATE, f, m, k.n);
    Rsa.BlockUnpads(Rsa.RSA_PRIVATE, f, m);
    var y := Pow(x, k.e) % k.n;
    Rsa.ResidueFits(y, k.n);
    Rsa.WideVal(y, Size(k));
    Rsa.PrivateUndoesPublic(x, p, q, k.n, k.e, k.d);
    Rsa.WideOfVal(block);
    assert block[|block| - PREMASTER_SIZE..] == m;
  }

  /** With such a key pair behind its operations, the world is as honest ends assume. */
  lemma KeyPairIsHonest(w: World, k: KeyPair, p: nat, q: nat)
    requires GoodWorld(w) && Matching(k, p, q)
    requires 3 <= |w.chain| <= SSL_MAX_PLAINTEXT_LEN - 4 && w.checkChain(w.chain) == Good(|w.chain|) && w.keySize(w.chain) == Size(k)
    requires forall m, r | |m| == PREMASTER_SIZE :: w.encryptPub(w.chain, m, r) == Encrypted(k, m, r)
    requires forall c :: w.decryptPriv(c) == Decrypted(k, c)
    ensures Honest(w)
  {
    hide Matching, Encrypted, Decrypted, GoodWorld;
    MatchingSize(k, p, q);
    forall m, r | |m| == PREMASTER_SIZE
      ensures |w.encryptPub(w.chain, m, r)| == w.keySize(w.chain) && w.decryptPriv(w.encryptPub(w.chain, m, r)) == Some(m)
    {
      SecretRecovered(k, p, q, m, r);
    }
  }

  lemma MatchingSize(k: KeyPair, p: nat, q: nat)
    requires Matching(k, p, q)
    ensures k.n > 0 && PREMASTER_SIZE + 11 <= Size(k) <= SSL_MAX_PLAINTEXT_LEN - 4
  {}
}
