/** What the handshake promises only in part, with the exact condition for each. */
module HandshakePromises {
  import opened MpBytes
  import opened Record
  import opened Keys
  import opened Handshake
  import opened HandshakeSafety
  import opened HandshakeAgreement
  import opened Options

  // ----- which suite is chosen

  /** The suite chosen is that of the first id in the list that the table knows, and there is none exactly when it knows
      none of them. */
  lemma {:induction false} FirstKnownIsChosen(w: World, ids: seq<nat>)
    ensures Choose(w, ids).None? <==> forall k | 0 <= k < |ids| :: w.lookup(ids[k]).None?
    ensures Choose(w, ids).Some? ==>
              exists k | 0 <= k < |ids| :: Choose(w, ids) == w.lookup(ids[k]) && forall j | 0 <= j < k :: w.lookup(ids[j]).None?
  {
    if ids != [] && w.lookup(ids[0]).None? {
      FirstKnownIsChosen(w, ids[1..]);
      if Choose(w, ids[1..]).Some? {
        var k :| 0 <= k < |ids[1..]| && Choose(w, ids[1..]) == w.lookup(ids[1..][k])
                 && forall j | 0 <= j < k :: w.lookup(ids[1..][j]).None?;
        forall j | 0 <= j < k + 1
          ensures w.lookup(ids[j]).None?
        {
          if j > 0 { assert ids[j] == ids[1..][j - 1]; }
        }
        assert ids[k + 1] == ids[1..][k];
      } else {
        forall k | 0 <= k < |ids|
          ensures w.lookup(ids[k]).None?
        {
          if k > 0 { assert ids[k] == ids[1..][k - 1]; }
        }
      }
    }
  }

  /** Suite k of a list is its bytes 2k and 2k + 1, most significant first. */
  lemma {:induction false} SuiteIdsAt(list: seq<byte>, k: nat)
    requires 2 * k + 2 <= |list|
    ensures |SuiteIds(list)| == |list| / 2 && SuiteIds(list)[k] == BytesVal(list[2 * k..2 * k + 2])
    decreases list
  {
    hide BytesVal, IdOf;
    SuiteIdsLength(list);
    if k == 0 {
      FirstTwo(list);
    } else {
      SuiteIdsAt(list[2..], k - 1);
      assert list[2..][2 * (k - 1)..2 * (k - 1) + 2] == list[2 * k..2 * k + 2];
    }
  }

  lemma FirstTwo(list: seq<byte>)
    requires |list| >= 2
    ensures IdOf(list) == BytesVal(list[0..2])
  {
    hide BytesVal;
    TwoBytes(list[0], list[1]);
    assert list[0..2] == [list[0], list[1]];
  }

  lemma {:induction false} SuiteIdsLength(list: seq<byte>)
    ensures |SuiteIds(list)| == |list| / 2
    decreases list
  {
    if |list| >= 2 { SuiteIdsLength(list[2..]); }
  }

  /** Suite k of a version 2 list is its bytes 3k to 3k + 2. */
  lemma {:induction false} LongIdsAt(list: seq<byte>, k: nat)
    requires 3 * k + 3 <= |list|
    ensures k < |LongIds(list)| && LongIds(list)[k] == BytesVal(list[3 * k..3 * k + 3])
    decreases list
  {
    hide BytesVal;
    ThreeBytes(list[0], list[1], list[2]);
    assert list[..3] == [list[0], list[1], list[2]];
    if k > 0 {
      LongIdsAt(list[3..], k - 1);
      assert list[3..][3 * (k - 1)..3 * (k - 1) + 3] == list[3 * k..3 * k + 3];
    }
  }

  // ----- the messages as they stand on the wire

  /** Kind, length of the body, most significant byte first, and body. */
  lemma MessageLayout(kind: byte, body: seq<byte>)
    requires |body| < 0x100_0000
    ensures var m := Message(kind, body); |m| == 4 + |body| && m[0] == kind && BytesVal(m[1..4]) == |body| && m[4..] == body
  {
    hide BytesVal, Len3, Value3;
    MessageFields(kind, body);
    var m := Message(kind, body);
    assert m[1..4] == [m[1], m[2], m[3]];
    ThreeBytes(m[1], m[2], m[3]);
    ValueOfThree(m[1], m[2], m[3]);
  }

  lemma ValueOfThree(a: byte, b: byte, c: byte)
    ensures Value3(a, b, c) == a * 0x1_0000 + b * 256 + c
  {}

  /** Version, random number, session id with its length, suites with theirs, and one compression method. */
  lemma ClientHelloLayout(maj: byte, min: byte, random: seq<byte>, sid: seq<byte>, suites: seq<byte>)
    requires |random| == RANDOM_SIZE && |sid| <= SESSION_ID_SIZE && |suites| < 0x1_0000
    ensures var c := ClientHelloBody(maj, min, random, sid, suites); var n := 35 + |sid|; var e := n + 2 + |suites|;
            && |c| == e + 2 && c[0] == maj && c[1] == min && c[2..34] == random && c[34] == |sid| && c[35..n] == sid
            && BytesVal(c[n..n + 2]) == |suites| && c[n + 2..e] == suites && c[e] == 1 && c[e + 1] == 0
  {
    hide BytesVal, Len2;
    var c := ClientHelloBody(maj, min, random, sid, suites);
    var n := 35 + |sid|;
    LengthOfTwo(|suites|);
    assert c[n..n + 2] == Len2(|suites|);
    Len2Value(|suites|);
  }

  lemma LengthOfTwo(n: nat)
    ensures |Len2(n)| == 2
  {}

  /** Version, random number, session id with its length, the suite and no compression. */
  lemma ServerHelloLayout(maj: byte, min: byte, random: seq<byte>, sid: seq<byte>, id: nat)
    requires |random| == RANDOM_SIZE && |sid| <= SESSION_ID_SIZE && id < 0x1_0000
    ensures var c := ServerHelloBody(maj, min, random, sid, id); var n := 35 + |sid|;
            && |c| == n + 3 && c[0] == maj && c[1] == min && c[2..34] == random && c[34] == |sid| && c[35..n] == sid
            && BytesVal(c[n..n + 2]) == id && c[n + 2] == 0
  {
    hide BytesVal, Len2;
    var c := ServerHelloBody(maj, min, random, sid, id);
    var n := 35 + |sid|;
    LengthOfTwo(id);
    assert c[n..n + 2] == Len2(id);
    Len2Value(id);
  }

  /** A hello in the form of version 2: the lengths of the suites, of no session id and of the challenge, then suites and
      challenge. A server new to the connection settles on the first suite it knows, and the challenge fills the end of
      the random number. */
  lemma Hello2Accepted(w: World, s: Conn, maj: byte, min: byte, suites: seq<byte>, challenge: seq<byte>)
    requires maj >= 3 && !s.flags.resumed && 0 < |suites| < 0x1_0000 && |suites| % 3 == 0 && 16 <= |challenge| <= 32
    requires Usable(Choose(w, LongIds(suites)))
    ensures var p := ReadClientHello(w, s, 2, [maj, min] + Len2(|suites|) + [0, 0] + Len2(|challenge|) + suites + challenge);
            && p.Go? && p.respond && p.next.hsState == CLIENT_KEY_EXCHANGE && p.next.sessionId == []
            && p.next.cipher == Choose(w, LongIds(suites)).value && p.next.ver == Versions(maj, 0, maj, min)
            && |p.next.sec.clientRandom| == RANDOM_SIZE
            && p.next.sec.clientRandom[RANDOM_SIZE - |challenge|..] == challenge
            && forall k | 0 <= k < RANDOM_SIZE - |challenge| :: p.next.sec.clientRandom[k] == 0
  {
    hide LongIds, Choose, Len2, IdOf, Usable;
    var n, k := |suites|, |challenge|;
    var c := [maj, min] + Len2(n) + [0, 0] + Len2(k) + suites + challenge;
    LengthOfTwo(n);
    LengthOfTwo(k);
    IdOfLen2(n, [0, 0] + Len2(k) + suites + challenge);
    assert c[2..] == Len2(n) + ([0, 0] + Len2(k) + suites + challenge);
    ZeroId(c[4..]);
    IdOfLen2(k, suites + challenge);
    assert c[6..] == Len2(k) + (suites + challenge);
    assert c[8..8 + n] == suites && c[8 + n..] == challenge;
  }

  lemma ZeroId(c: seq<byte>)
    requires |c| >= 2 && c[0] == 0 && c[1] == 0
    ensures IdOf(c) == 0
  {}

  // ----- which session is resumed

  /** A client takes its session for resumed exactly when the id it gets back is a beginning of its own, of at least
      one byte. */
  lemma ResumedByBeginning(w: World, s: Conn, c: seq<byte>)
    requires !s.flags.resumed && ReadServerHello(w, s, c).Go?
    ensures |c| >= 35 + c[34]
    ensures ReadServerHello(w, s, c).next.flags.resumed <==> 0 < c[34] <= |s.sessionId| && s.sessionId[..c[34]] == c[35..35 + c[34]]
  {
    hide DeriveKeys, IdOf, Repeat;
    var h := HelloStart(c);
    var s2 := s.(ver := s.ver.(reqMaj := c[0], reqMin := c[1]), sec := s.sec.(serverRandom := h.random));
    AgreedFlag(w, s2, h.sid.value);
    ChoiceKeepsFlag(w, AgreeSession(w, s2, h.sid.value), h.rest);
  }

  lemma AgreedFlag(w: World, s: Conn, sid: seq<byte>)
    requires !s.flags.resumed
    ensures AgreeSession(w, s, sid).flags.resumed <==> SameSession(s, sid)
  {
    hide Repeat;
  }

  lemma ChoiceKeepsFlag(w: World, s: Conn, c: seq<byte>)
    ensures ReadChoice(w, s, c).Go? ==> ReadChoice(w, s, c).next.flags.resumed == s.flags.resumed
  {
    hide DeriveKeys, IdOf, ServerChoice;
    DeriveKeepsFlags(w, s);
    forall suite ensures DeriveKeys(w, s.(cipher := suite)).flags == s.flags {
      DeriveKeepsFlags(w, s.(cipher := suite));
    }
  }

  lemma DeriveKeepsFlags(w: World, s: Conn)
    ensures DeriveKeys(w, s).flags == s.flags
  {
    hide CreateKeys, MasterSecret;
  }

  /** So the one byte with which it starts is enough, and the id is that of the session only if it is as long. */
  lemma OneByteResumes(w: World, s: Conn, random: seq<byte>)
    requires !s.flags.resumed && s.sessionId != [] && s.ver.maj == 3 && |random| == RANDOM_SIZE && s.cipher.id < 0x1_0000
    ensures var p := ReadServerHello(w, s, ServerHelloBody(3, 0, random, s.sessionId[..1], s.cipher.id)); p.Go? && p.next.flags.resumed
    ensures |s.sessionId| > 1 ==> s.sessionId[..1] != s.sessionId
  {
    hide DeriveKeys, Repeat, ServerHelloBody, ReadServerHello, AfterServerHello;
    var sid := s.sessionId[..1];
    ServerHelloRead(w, s, random, sid, s.cipher.id);
    var t := HelloNoted(s, random);
    assert t.sessionId[..|sid|] == sid;
    var u := AgreeSession(w, t, sid);
    assert u.flags.resumed && ServerChoice(w, u, s.cipher.id) == Some(s.cipher);
    AfterHelloKeepsFlag(w, u.(cipher := s.cipher));
  }

  lemma AfterHelloKeepsFlag(w: World, s: Conn)
    ensures AfterServerHello(w, s).flags.resumed == s.flags.resumed
  {
    hide DeriveKeys;
    DeriveKeepsFlags(w, s);
  }

  // ----- the null suite

  /** A server never settles on the null suite. */
  lemma ServerRefusesNull(w: World, s: Conn, recMaj: byte, c: seq<byte>)
    ensures var p := ReadClientHello(w, s, recMaj, c); p.Go? ==> p.next.cipher.id != SSL_NULL_WITH_NULL_NULL
  {
    hide HelloTail, SuiteIds, LongIds, Choose, FindSession, Negotiate, HelloStart;
  }

  /** A client accepts it whenever the server names it and the table knows it. */
  lemma ClientTakesNull(w: World, s: Conn, c: seq<byte>)
    requires GoodWorld(w) && !s.flags.resumed && |c| >= 3
    ensures var p := ReadChoice(w, s, c);
            p.Go? && p.next.cipher.id == SSL_NULL_WITH_NULL_NULL <==> c[0] == 0 && c[1] == 0 && c[2] == 0 && w.lookup(SSL_NULL_WITH_NULL_NULL).Some?
  {
    hide DeriveKeys, Tabled;
  }

  /** But no handshake under it is ever done. */
  lemma NullIsNeverDone(w: World, server: bool, session: Option<Session>, calls: seq<Call>)
    requires GoodWorld(w)
    ensures var t := Run(w, NewSession(w, server, session), calls); t.hsState == DONE ==> t.cipher.id != SSL_NULL_WITH_NULL_NULL
  {
    hide Run, Verified, Results, Derived, NewSession;
    EveryRunIsSafe(w, server, session, calls);
  }

  // ----- whole flights

  /** A record that is not encrypted goes out whole or not at all. */
  lemma ClearSent(s: Conn, room: nat, kind: byte, data: seq<byte>)
    requires s.enc.Valid() && Clear(s) && |data| <= SSL_MAX_RECORD_LEN
    ensures var a := Send(s, room, kind, data);
            if SSL3_HEADER_LEN + |data| > room then a == Flight(s, [], Full)
            else a.code.Success? && |a.wire| == SSL3_HEADER_LEN + |data| && a.conn == s.(enc := a.conn.enc) && a.conn.enc.Valid() && Clear(a.conn)
  {
    hide Seal, Takes, Moved;
    ClearFits(s, |data|, SSL3_HEADER_LEN + |data|);
    AllowsLess(s.enc, BodySize(s.enc.suite, |data|));
    SealMoves(s.enc, s.ver.maj, s.ver.min, kind, data);
    SealKeepsSuite(s.enc, s.ver.maj, s.ver.min, kind, data);
  }

  lemma ClearMessageSent(s: Conn, room: nat, kind: byte, body: seq<byte>)
    requires s.enc.Valid() && Clear(s) && 4 + |body| <= SSL_MAX_RECORD_LEN
    ensures var a := SendHandshake(s, room, kind, body);
            if 9 + |body| > room then a == Flight(s, [], Full)
            else a.code.Success? && |a.wire| == 9 + |body| && a.conn == Hear(s, Message(kind, body)).(enc := a.conn.enc) && a.conn.enc.Valid() && Clear(a.conn)
  {
    hide Send, Len3;
    ClearFits(s, 4 + |body|, 9 + |body|);
    ClearSent(Hear(s, Message(kind, body)), room, HANDSHAKE, Message(kind, body));
  }

  /** The bytes of a change of cipher followed by a Finished message. */
  function SwitchSize(s: Conn): nat {
    6 + RecordSize(s.cipher, FINISHED_MESSAGE)
  }

  /** With room for the change of cipher alone, the cipher is changed and the Finished message is not sent. */
  lemma SwitchSent(w: World, s: Conn, room: nat)
    requires GoodWorld(w) && s.enc.Valid() && Clear(s) && Tabled(s.cipher)
    ensures var a := WriteSwitch(w, s, room);
            if room < 6 then a == Flight(s, [], Full)
            else |a.wire| >= 6 && a.conn.enc.suite == s.cipher && (if room < SwitchSize(s) then a.code.Full? && |a.wire| == 6 else a.code.Success? && |a.wire| == SwitchSize(s))
  {
    hide Send, SendHandshake, FinishedHash, Activated, Tabled, RecordSize, GoodWorld;
    ClearSent(s, room, CHANGE_CIPHER_SPEC, [1]);
    var a := WriteChangeCipherSpec(s, room);
    if room >= 6 {
      Switched(s, Send(s, room, CHANGE_CIPHER_SPEC, [1]).conn);
      GoodHashes(w);
      FinishedSent(w, a.conn, room - 6);
    }
  }

  lemma Switched(s: Conn, t: Conn)
    requires t == s.(enc := t.enc) && t.enc.Valid() && Tabled(s.cipher)
    ensures var u := ActivateWrite(t); u.enc.Valid() && u.enc.suite == s.cipher && Used(u.enc, 0)
  {
    hide KeyIter;
    ActivatedValid(t.enc, s.cipher, s.sec.keys.wMac, s.sec.keys.wKey, s.sec.keys.wIv);
    FreshCount(s.cipher, s.sec.keys.wKey, s.sec.keys.wIv);
  }

  lemma FinishedSent(w: World, s: Conn, room: nat)
    requires HashLengths(w.hashes) && s.enc.Valid() && Used(s.enc, 0)
    ensures var a := WriteFinished(w, s, room); var n := RecordSize(s.enc.suite, FINISHED_MESSAGE);
            if n > room then a == Flight(s, [], Full) else a.code.Success? && |a.wire| == n && a.conn.enc.suite == s.enc.suite
  {
    hide FinishedHash, Seal, Takes, Allows, Moved, BodySize, Len3, Used;
    var hash := FinishedHash(w.hashes, s.sec.master, s.sec.transcript, Sender(s.flags.server));
    FinishedIs36(w.hashes, s.sec.master, s.sec.transcript, Sender(s.flags.server));
    var m := Message(FINISHED, hash);
    FinishedFits(s, 80);
    AllowsLess(s.enc, BodySize(s.enc.suite, FINISHED_MESSAGE));
    SealMoves(s.enc, s.ver.maj, s.ver.min, HANDSHAKE, m);
    SealKeepsSuite(s.enc, s.ver.maj, s.ver.min, HANDSHAKE, m);
  }

  lemma SealKeepsSuite(d: Direction, maj: byte, min: byte, kind: byte, data: seq<byte>)
    ensures Seal(d, maj, min, kind, data).0.suite == d.suite
  {}

  /** What a flight comes to is all of it, or nothing with the connection as it was. */
  ghost predicate AllOrNothing(s: Conn, a: Flight) {
    a.code.Success? || a == Flight(s, [], Full)
  }

  /** The room is checked beforehand so that a flight is written whole or not at all. That fails for the switch that
      ends a handshake, whose room is counted without the MAC and padding of the Finished message: between 51 bytes and
      the true size, the cipher is switched and then there is no room for Finished. */
  lemma LastFlightWhole(w: World, s: Conn, room: nat, f: Supply)
    requires GoodWorld(w) && s.enc.Valid() && Clear(s) && Tabled(s.cipher) && s.err == NO_ERROR && s.hsState == DONE
    ensures var a := EncodeResponse(w, s, room, f);
            && (AllOrNothing(s, a) <==> room < 51 || room >= SwitchSize(s))
            && (!AllOrNothing(s, a) ==> a.code.Full? && |a.wire| == 6 && a.conn.enc.suite == s.cipher)
  {
    hide WriteSwitch, Tabled, GoodWorld, RecordSize;
    SwitchSent(w, s, room);
    NoAdditions(s, 2);
  }

  /** The flight that resumes a session fails in the same way. */
  lemma ResumedFlightWhole(w: World, s: Conn, room: nat, f: Supply)
    requires GoodWorld(w) && s.enc.Valid() && Clear(s) && Tabled(s.cipher) && s.err == NO_ERROR && s.hsState == FINISHED
    requires s.flags.server
    requires s.flags.resumed && |s.sessionId| <= SESSION_ID_SIZE && |f.random| == RANDOM_SIZE
    ensures var a := EncodeResponse(w, s, room, f);
            AllOrNothing(s, a) <==> room < 130 || room >= 47 + |s.sessionId| + SwitchSize(s)
  {
    hide WriteSwitch, Tabled, GoodWorld, RecordSize, SendHandshake, DeriveKeys, ServerHelloBody, Derived;
    var s1 := s.(sec := s.sec.(serverRandom := f.random), sessionId := RegisteredId(s, f));
    var body := ServerHelloBody(s1.ver.maj, s1.ver.min, f.random, s1.sessionId, s1.cipher.id);
    HelloBodySize(s1.ver.maj, s1.ver.min, f.random, s1.sessionId, s1.cipher.id);
    ClearMessageSent(s1, room, SERVER_HELLO, body);
    var t := SendHandshake(s1, room, SERVER_HELLO, body);
    NoAdditions(s, 3);
    if room >= 130 {
      DeriveKeysDerives(w, t.conn);
      SwitchSent(w, DeriveKeys(w, t.conn), room - |t.wire|);
    }
  }

  lemma HelloBodySize(maj: byte, min: byte, random: seq<byte>, sid: seq<byte>, id: nat)
    requires |random| == RANDOM_SIZE
    ensures |ServerHelloBody(maj, min, random, sid, id)| == 38 + |sid|
  {}

  /** The server's full flight is whole in any case. */
  lemma HelloFlightWhole(w: World, s: Conn, room: nat, f: Supply)
    requires s.enc.Valid() && Clear(s) && s.err == NO_ERROR && s.hsState == CLIENT_KEY_EXCHANGE && !s.flags.resumed
    requires |RegisteredId(s, f)| <= SESSION_ID_SIZE && |f.random| == RANDOM_SIZE && 4 + |w.chain| <= SSL_MAX_RECORD_LEN
    ensures AllOrNothing(s, EncodeResponse(w, s, room, f))
  {
    hide SendHandshake, ServerHelloBody, RegisteredId;
    var s1 := s.(sec := s.sec.(serverRandom := f.random), sessionId := RegisteredId(s, f));
    var body := ServerHelloBody(s1.ver.maj, s1.ver.min, f.random, s1.sessionId, s1.cipher.id);
    HelloBodySize(s1.ver.maj, s1.ver.min, f.random, s1.sessionId, s1.cipher.id);
    ClearMessageSent(s1, room, SERVER_HELLO, body);
    var t := SendHandshake(s1, room, SERVER_HELLO, body);
    NoAdditions(s, 3);
    if room >= 97 + |w.chain| {
      ClearMessageSent(t.conn, room - |t.wire|, CERTIFICATE, w.chain);
      var u := SendHandshake(t.conn, room - |t.wire|, CERTIFICATE, w.chain);
      ClearMessageSent(u.conn, room - |t.wire| - |u.wire|, SERVER_HELLO_DONE, []);
    }
  }

  /** So is the client's, if the premaster secret can be encrypted under the server's key. */
  lemma KeyFlightWhole(w: World, s: Conn, room: nat, f: Supply)
    requires GoodWorld(w) && s.enc.Valid() && Clear(s) && Tabled(s.cipher) && s.err == NO_ERROR && s.hsState == FINISHED
    requires !s.flags.server
    requires s.sec.cert.Some? && !s.flags.clientAuth && 4 + w.keySize(s.sec.cert.value) <= SSL_MAX_RECORD_LEN
    ensures var sealed := w.encryptPub(s.sec.cert.value, [s.ver.reqMaj, s.ver.reqMin] + f.secret, f.padding);
            |sealed| == w.keySize(s.sec.cert.value) ==> AllOrNothing(s, EncodeResponse(w, s, room, f))
  {
    hide WriteSwitch, Tabled, GoodWorld, RecordSize, SendHandshake, DeriveKeys, Derived;
    var n := w.keySize(s.sec.cert.value);
    var p := [s.ver.reqMaj, s.ver.reqMin] + f.secret;
    var s1 := s.(sec := s.sec.(premaster := p));
    var sealed := w.encryptPub(s.sec.cert.value, p, f.padding);
    NoAdditions(s, 2);
    if |sealed| == n && room >= 95 + n {
      ClearFits(s, 4 + n, room);
      ClearMessageSent(s1, room, CLIENT_KEY_EXCHANGE, sealed);
      var t := SendHandshake(s1, room, CLIENT_KEY_EXCHANGE, sealed);
      DeriveKeysDerives(w, t.conn);
      FinishedSize(s.cipher);
      SwitchSent(w, DeriveKeys(w, t.conn), room - |t.wire|);
    }
  }

  lemma FinishedSize(s: Suite)
    requires Tabled(s)
    ensures RecordSize(s, FINISHED_MESSAGE) <= 73
  {}
}
