/** How much the two ends of a connection can say under the suites of the built-in table. */
module TalkLimits {
  import opened MpBytes
  import opened Record
  import opened Handshake
  import opened HandshakeAgreement
  import opened CipherSuites
  import opened Options
  import Arc4
  import Hash

  /** The bytes one side says in a talk, and the records they go in. */
  function DataOf(talk: seq<Saying>, bySpeaker: bool): nat
    decreases talk
  {
    if talk == [] then 0 else (if talk[0].bySpeaker == bySpeaker then |talk[0].data| else 0) + DataOf(talk[1..], bySpeaker)
  }

  function RecordsOf(talk: seq<Saying>, bySpeaker: bool): nat
    decreases talk
  {
    if talk == [] then 0 else (if talk[0].bySpeaker == bySpeaker then 1 else 0) + RecordsOf(talk[1..], bySpeaker)
  }

  /** A stream cipher adds a MAC to each record. */
  lemma {:induction false} SaidInStream(s: Suite, talk: seq<Saying>, bySpeaker: bool)
    requires s.id != SSL_NULL_WITH_NULL_NULL && s.blockSize <= 1
    ensures Said(s, talk, bySpeaker) == DataOf(talk, bySpeaker) + s.macSize * RecordsOf(talk, bySpeaker)
    decreases talk
  {
    if talk != [] {
      SaidInStream(s, talk[1..], bySpeaker);
      assert talk[0].bySpeaker == bySpeaker ==> BodySize(s, |talk[0].data|) == |talk[0].data| + s.macSize;
      assert s.macSize * (1 + RecordsOf(talk[1..], bySpeaker)) == s.macSize + s.macSize * RecordsOf(talk[1..], bySpeaker);
    }
  }

  /** What fits under a suite: any talk under 3DES; under RC4 the data, a MAC for each record and the Finished message
      may come to 1073741824 bytes in each direction. */
  ghost predicate FitsSuite(s: Suite, talk: seq<Saying>) {
    s.id == SSL_RSA_WITH_3DES_EDE_CBC_SHA
    || forall bySpeaker: bool ::
         FINISHED_MESSAGE + s.macSize + DataOf(talk, bySpeaker) + s.macSize * RecordsOf(talk, bySpeaker) <= Arc4.ARC4_MAX_BYTES
  }

  /** The suite of an accepted hello is a row of the table other than the null suite. */
  lemma SettlesOnRow(p: Primitives, w: World, c: Conn, cipherSpec: nat)
    requires Proper(p) && BuiltIn(p, w) && Acceptable(w, c, cipherSpec)
    ensures Settles(w, c, cipherSpec) in [TripleDesSha(p), Rc4Sha(p), Rc4Md5(p)]
  {
    hide TripleDesSha, Rc4Sha, Rc4Md5, Hash.Digest, SuiteIds, Offer, Choose;
    var sid, ids := c.sessionId, SuiteIds(Offer(w, c, cipherSpec));
    BuiltWorldIsGood(p, w);
    ChosenIsTabled(w, sid, ids);
    var s := Chosen(w, sid, ids).value;
    if Found(w, sid).None? {
      assert w.lookup(s.id) == Lookup(p, s.id);
    }
  }

  lemma LimitOfRow(p: Primitives, s: Suite, talk: seq<Saying>)
    requires s in [TripleDesSha(p), Rc4Sha(p), Rc4Md5(p)]
    ensures FitsSuite(s, talk) <==> WithinLimit(s, talk, true) && WithinLimit(s, talk, false)
  {
    hide Rc4, DesEncrypt, DesDecrypt, Hash.Digest, Said, DataOf, RecordsOf;
    if s != TripleDesSha(p) {
      SaidInStream(s, talk, true);
      SaidInStream(s, talk, false);
    }
  }

  /** Under the built-in suites, from the first byte of an honest handshake: all that is said arrives if and only if
      it fits the suite the two ends have settled on. */
  lemma BuiltTalkIsHeard(p: Primitives, w: World, cut: Cut, client: Conn, server: Conn, cipherSpec: nat, hello: Supply, room: nat,
                         f: seq<Supply>, talk: seq<Saying>, g: Supply)
    requires Proper(p) && BuiltIn(p, w)
    requires Honest(w) && Lossless(cut) && Unmet(w, client, server) && Acceptable(w, client, cipherSpec) && room >= AMPLE
    requires Equipped(client, hello, f)
    requires forall k | 0 <= k < |talk| :: 1 <= |talk[k].data| <= SSL_MAX_PLAINTEXT_LEN
    ensures var e := Meet(w, cut, client, server, cipherSpec, hello, room, f);
            AllHeard(w, cut, e.speaker, e.listener, talk, room, g) <==> FitsSuite(Settles(w, client, cipherSpec), talk)
  {
    hide Meet, AllHeard, FitsSuite, WithinLimit, Honest, Lossless, Unmet, Acceptable, BuiltIn, Settles, TripleDesSha, Rc4Sha,
         Rc4Md5;
    SettlesOnRow(p, w, client, cipherSpec);
    LimitOfRow(p, Settles(w, client, cipherSpec), talk);
    ConversationIsHeard(w, cut, client, server, cipherSpec, hello, room, f, talk, g);
  }

  // ----- a talk that does not fit

  /** The same record over and over. */
  function Monologue(data: seq<byte>, n: nat): seq<Saying> {
    if n == 0 then [] else [Saying(true, data)] + Monologue(data, n - 1)
  }

  lemma {:induction false} MonologueSize(data: seq<byte>, n: nat)
    ensures DataOf(Monologue(data, n), true) == |data| * n && RecordsOf(Monologue(data, n), true) == n
    ensures forall k | 0 <= k < |Monologue(data, n)| :: Monologue(data, n)[k] == Saying(true, data)
  {
    if n > 0 {
      MonologueSize(data, n - 1);
      assert Monologue(data, n)[1..] == Monologue(data, n - 1);
      assert |data| * n == |data| + |data| * (n - 1);
    }
  }

  /** Under RC4 one side cannot say a gigabyte: 65536 records of 16384 bytes do not fit. */
  lemma GigabyteDoesNotFit(p: Primitives, s: Suite, data: seq<byte>)
    requires s in [Rc4Sha(p), Rc4Md5(p)] && |data| == SSL_MAX_PLAINTEXT_LEN
    ensures !FitsSuite(s, Monologue(data, 65536))
  {
    hide Rc4, Hash.Digest, Monologue, DataOf, RecordsOf;
    MonologueSize(data, 65536);
  }
}
