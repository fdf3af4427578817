/** Two honest ends over a lossless ordered channel: every handshake ends with both sides in agreement. */
module HandshakeAgreement {
  import opened MpBytes
  import opened Record
  import opened Keys
  import opened Handshake
  import opened HandshakeSafety
  import opened HandshakeStream
  import opened Options

  // ----- delivering one record

  /** Neither refused, closed nor waiting for room. */
  ghost predicate Quiet(s: Conn) {
    !s.flags.error && !s.flags.closed && !s.flags.needEncode && s.err == NO_ERROR
  }

  /** Room for the largest record with its MAC and padding. */
  const AMPLE: nat := SSL3_HEADER_LEN + SSL_MAX_RECORD_LEN + 28

  /** What `from` writes next, `to` can read. */
  ghost predicate Channel(from: Conn, to: Conn) {
    && Quiet(to) && to.dec == from.enc && from.enc.Valid()
    && from.ver.maj == 3 && from.ver.min == 0 && (!VersionSettled(to) || (to.ver.maj == 3 && to.ver.min == 0))
  }

  /** Nothing is encrypted yet in the direction written. */
  ghost predicate Clear(s: Conn) {
    !s.enc.Secure()
  }

  /** A record of n bytes fits into the room and into what is left of the cipher's limit. */
  ghost predicate Fits(d: Direction, n: nat, room: nat) {
    RecordSize(d.suite, n) <= room && Allows(d, BodySize(d.suite, n))
  }

  lemma ClearFits(s: Conn, n: nat, room: nat)
    requires s.enc.Valid() && Clear(s) && SSL3_HEADER_LEN + n <= room
    ensures Fits(s.enc, n, room) && RecordSize(s.enc.suite, n) == SSL3_HEADER_LEN + n
  {}

  /** The front record of what `to` reads is the one `from` sent. */
  lemma Arrives(from: Conn, to: Conn, kind: byte, data: seq<byte>, rest: seq<byte>, room: nat, room2: nat)
    requires Channel(from, to) && KnownKind(kind) && 1 <= |data| <= SSL_MAX_PLAINTEXT_LEN && Fits(from.enc, |data|, room)
    requires room2 >= SSL_MAX_RECORD_LEN
    ensures var a := Send(from, room, kind, data);
            && a.code.Success? && a.conn == from.(enc := a.conn.enc)
            && Moved(from.enc, a.conn.enc, BodySize(from.enc.suite, |data|))
            && Open(to.dec, VersionSettled(to), to.ver.maj, to.ver.min, a.wire + rest, room2) == Opened.Opened(kind, 3, data, a.conn.enc, |a.wire|)
            && |a.wire| == RecordSize(from.enc.suite, |data|) && (a.wire + rest)[|a.wire|..] == rest
  {
    hide Open, Seal, Takes, Allows, Moved, BodySize;
    AllowsLess(from.enc, BodySize(from.enc.suite, |data|));
    SealMoves(from.enc, 3, 0, kind, data);
    SealOpens(from.enc, to.dec, VersionSettled(to), 3, 0, to.ver.maj, to.ver.min, kind, data, rest, room2);
  }

  lemma AllowsLess(d: Direction, n: nat)
    requires Allows(d, n)
    ensures Allows(d, 0)
  {}

  lemma Len3Value(n: nat)
    requires n < 0x100_0000
    ensures Value3(Len3(n)[0], Len3(n)[1], Len3(n)[2]) == n
  {
    var q := n / 256;
    assert n / 0x1_0000 == q / 256;
    assert q / 256 % 256 == q / 256 && q == q / 256 * 256 + q % 256;
  }

  lemma MessageFields(kind: byte, body: seq<byte>)
    requires |body| < 0x100_0000
    ensures var m := Message(kind, body);
            && |m| == 4 + |body| && m[0] == kind && Value3(m[1], m[2], m[3]) == |body| && m[..4 + |body|] == m && m[4..] == body
  {
    hide Len3, Value3;
    Len3Value(|body|);
    var m, l := Message(kind, body), Len3(|body|);
    assert m[1] == l[0] && m[2] == l[1] && m[3] == l[2];
  }

  /** A record of one message is parsed as that message, heard and read in the current state. */
  lemma ParseOne(w: World, s: Conn, kind: byte, body: seq<byte>)
    requires |body| < 0x100_0000 && s.hsState == kind
    requires kind == CLIENT_HELLO ==> s.sec.transcript == []
    ensures var m := Message(kind, body); var r := ReadBody(w, Hear(s, m), 3, body, |body|, PeerFinished(w, s));
            r.Go? && r.used == |body| ==> ParseHandshake(w, s, 3, m, m, false) == Ok(r.next, r.respond)
  {
    hide ReadBody, PeerFinished, Message;
    MessageFields(kind, body);
    var m := Message(kind, body);
    assert s.(sec := s.sec.(transcript := if kind == CLIENT_HELLO then [] else s.sec.transcript)) == s;
    var hsLen: nat := Value3(m[1], m[2], m[3]);
    assert hsLen == |body|;
  }

  /** A handshake message sent is heard, read and, if the state demands it, answered. */
  lemma DeliverMessage(w: World, from: Conn, to: Conn, kind: byte, body: seq<byte>, rest: seq<byte>, room: nat, room2: nat,
                       f: Supply)
    requires Channel(from, to) && to.hsState == kind && kind != DONE && 4 + |body| <= SSL_MAX_PLAINTEXT_LEN
    requires Fits(from.enc, 4 + |body|, room) && room2 >= SSL_MAX_RECORD_LEN
    requires kind == CLIENT_HELLO ==> to.sec.transcript == []
    ensures var a := SendHandshake(from, room, kind, body); var m := Message(kind, body);
            && a.code.Success? && |a.wire| == RecordSize(from.enc.suite, 4 + |body|)
            && a.conn == Hear(from, m).(enc := a.conn.enc) && Moved(from.enc, a.conn.enc, BodySize(from.enc.suite, 4 + |body|))
            && var r := ReadBody(w, Hear(to.(dec := a.conn.enc), m), 3, body, |body|, PeerFinished(w, to));
            r.Go? && r.used == |body| ==>
              Decode(w, to, a.wire + rest, room2, f) == if r.respond then Respond(w, r.next, rest, room2, f) else Decoded(r.next, Nothing, rest)
  {
    hide Open, Send, ParseHandshake, ReadBody, Respond, Message, PeerFinished, Moved, BodySize, RecordSize, Allows;
    var m := Message(kind, body);
    MessageFields(kind, body);
    var a := Send(Hear(from, m), room, HANDSHAKE, m);
    Arrives(Hear(from, m), to, HANDSHAKE, m, rest, room, room2);
    ParseOne(w, to.(dec := a.conn.enc), kind, body);
    SamePeer(w, to, a.conn.enc);
  }

  lemma SamePeer(w: World, s: Conn, d: Direction)
    ensures PeerFinished(w, s.(dec := d)) == PeerFinished(w, s)
  {}

  // ----- reading back what was written

  lemma HelloStartOf(maj: byte, min: byte, random: seq<byte>, sid: seq<byte>, rest: seq<byte>)
    requires |random| == RANDOM_SIZE && |sid| <= SESSION_ID_SIZE
    ensures HelloStart([maj, min] + random + [|sid| % 256] + sid + rest) == Hello(random, Some(sid), rest)
  {
    var c := [maj, min] + random + [|sid| % 256] + sid + rest;
    assert c[34] == |sid|;
    assert c[2..34] == random && c[35..35 + |sid|] == sid && c[35 + |sid|..] == rest;
  }

  lemma IdOfLen2(n: nat, rest: seq<byte>)
    requires n < 0x1_0000
    ensures IdOf(Len2(n) + rest) == n && (Len2(n) + rest)[2..] == rest
  {
    Lengths(n);
  }

  lemma TailOfHello()
    ensures HelloTail([1, 0], 0)
  {}

  /** The session a server knows under the id a client names. */
  function Found(w: World, sid: seq<byte>): Option<Session> {
    if sid == [] then None else w.resume(sid, 3)
  }

  /** The suite a new server settles on: that of the session, or the first of the client's it supports. */
  function Chosen(w: World, sid: seq<byte>, ids: seq<nat>): Option<Suite> {
    match Found(w, sid)
    case None => Choose(w, ids)
    case Some(session) => if session.suite.id in ids then Some(session.suite) else None
  }

  /** A server that has read the start of a hello. */
  function Greeted(w: World, s: Conn, random: seq<byte>, sid: seq<byte>): Conn {
    FindSession(w, s.(ver := Versions(3, 0, 3, 0), sec := s.sec.(clientRandom := random)), sid)
  }

  lemma ChosenIsNegotiated(w: World, s: Conn, random: seq<byte>, sid: seq<byte>, ids: seq<nat>)
    requires !s.flags.resumed
    ensures Negotiate(w, Greeted(w, s, random, sid), ids) == Chosen(w, sid, ids)
    ensures Greeted(w, s, random, sid).ver == Versions(3, 0, 3, 0)
  {
    hide Choose;
    var t := Greeted(w, s, random, sid);
    assert t.flags.resumed == Found(w, sid).Some?;
    assert t.flags.resumed ==> t.cipher == Found(w, sid).value.suite;
  }

  /** The hello a client writes is accepted by a server that finds the session it names or a suite of its list. */
  lemma ClientHelloRead(w: World, s: Conn, random: seq<byte>, sid: seq<byte>, offer: seq<byte>)
    requires |random| == RANDOM_SIZE && |sid| <= SESSION_ID_SIZE && 0 < |offer| < 0x1_0000 && |offer| % 2 == 0
    requires !s.flags.resumed && Usable(Chosen(w, sid, SuiteIds(offer)))
    ensures var c := ClientHelloBody(3, 0, random, sid, offer);
            ReadClientHello(w, s, 3, c)
            == Go(AfterClientHello(Greeted(w, s, random, sid).(cipher := Chosen(w, sid, SuiteIds(offer)).value)), |c|, true)
  {
    hide HelloStart, HelloTail, SuiteIds, Negotiate, FindSession, Len2, IdOf, ReadOffer, Usable, Chosen;
    var c := ClientHelloBody(3, 0, random, sid, offer);
    var list := offer + [1, 0];
    var rest := Len2(|offer|) + list;
    assert c == [3, 0] + random + [|sid| % 256] + sid + rest;
    HelloStartOf(3, 0, random, sid, rest);
    assert HelloStart(c) == Hello(random, Some(sid), rest) && c[0] == 3 && c[1] == 0;
    ChosenIsNegotiated(w, s, random, sid, SuiteIds(offer));
    OfferRead(w, Greeted(w, s, random, sid), offer);
  }

  lemma OfferRead(w: World, s: Conn, offer: seq<byte>)
    requires 0 < |offer| < 0x1_0000 && |offer| % 2 == 0 && Usable(Negotiate(w, s, SuiteIds(offer))) && s.ver.reqMin == 0
    ensures var rest := Len2(|offer|) + (offer + [1, 0]);
            ReadOffer(w, s, rest) == Go(AfterClientHello(s.(cipher := Negotiate(w, s, SuiteIds(offer)).value)), |rest|, true)
  {
    hide HelloTail, SuiteIds, Negotiate, Len2, IdOf;
    var list := offer + [1, 0];
    var rest := Len2(|offer|) + list;
    IdOfLen2(|offer|, list);
    assert rest[2..2 + |offer|] == list[..|offer|] == offer && rest[2 + |offer|..] == list[|offer|..] == [1, 0];
    TailOfHello();
  }

  /** A client that has read the version and random number of a server's hello. */
  function HelloNoted(s: Conn, random: seq<byte>): Conn {
    s.(ver := s.ver.(reqMaj := 3, reqMin := 0), sec := s.sec.(serverRandom := random))
  }

  lemma ServerHelloRead(w: World, s: Conn, random: seq<byte>, sid: seq<byte>, id: nat)
    requires |random| == RANDOM_SIZE && |sid| <= SESSION_ID_SIZE && id < 0x1_0000 && s.ver.maj == 3
    requires ServerChoice(w, AgreeSession(w, HelloNoted(s, random), sid), id).Some?
    ensures var c := ServerHelloBody(3, 0, random, sid, id);
            var s1 := AgreeSession(w, HelloNoted(s, random), sid);
            ReadServerHello(w, s, c) == Go(AfterServerHello(w, s1.(cipher := ServerChoice(w, s1, id).value)), |c|, false)
  {
    hide HelloStart, IdOf, AgreeSession, ServerChoice, AfterServerHello;
    var c := ServerHelloBody(3, 0, random, sid, id);
    var rest := Len2(id) + [0];
    assert c == [3, 0] + random + [|sid| % 256] + sid + rest;
    HelloStartOf(3, 0, random, sid, rest);
    assert HelloStart(c) == Hello(random, Some(sid), rest) && c[0] == 3 && c[1] == 0;
    IdOfLen2(id, [0]);
    assert rest[2] == 0 && |rest| == 3;
  }

  // ----- two ends

  /** `a` speaks, `b` listens: each reads what the other writes and both have heard the same messages. */
  ghost predicate Met(a: Conn, b: Conn) {
    && Channel(a, b) && Quiet(a) && b.enc == a.dec && a.dec.Valid()
    && a.flags.server != b.flags.server && a.sec.transcript == b.sec.transcript
  }

  /** Besides, both go by the same version, suite and random numbers. */
  ghost predicate Terms(a: Conn, b: Conn) {
    && Met(a, b) && a.ver == Versions(3, 0, 3, 0) && b.ver == Versions(3, 0, 3, 0)
    && a.cipher == b.cipher && Tabled(a.cipher) && a.cipher.id != SSL_NULL_WITH_NULL_NULL
    && a.sec.clientRandom == b.sec.clientRandom && a.sec.serverRandom == b.sec.serverRandom
  }

  /** Besides, both have derived their keys from the same master secret. */
  ghost predicate Keyed(w: World, a: Conn, b: Conn) {
    Terms(a, b) && a.sec.master == b.sec.master && Derived(w, a) && Derived(w, b)
  }

  lemma Mirrored(w: World, a: Conn, b: Conn)
    requires Keyed(w, a, b)
    ensures a.sec.keys == b.sec.keys.Mirror()
  {
    hide Slice, Channel, KeyBlock;
    SlicesMirrored(KeyBlock(w.hashes, a.cipher, a.sec.master, a.sec.clientRandom, a.sec.serverRandom), a.cipher);
  }

  lemma TabledIs(s: Suite)
    requires Tabled(s)
    ensures Sound(s) || IsNull(s)
  {}

  // ----- change cipher spec and Finished

  /** n bytes of the cipher's limit are used up. */
  ghost predicate Used(d: Direction, n: nat) {
    d.suite.limit.Some? ==> d.suite.count(d.ctx) == n
  }

  lemma SpecDelivered(w: World, a: Conn, b: Conn, rest: seq<byte>, room: nat, room2: nat, g: Supply)
    requires Keyed(w, a, b) && Clear(a) && b.hsState == FINISHED && room >= 6 && room2 >= SSL_MAX_RECORD_LEN
    ensures var t := WriteChangeCipherSpec(a, room); var b1 := ActivateRead(b);
            && t.code.Success? && |t.wire| == 6
            && Decode(w, b, t.wire + rest, room2, g) == DecodeMore(w, b1, rest, room2, g)
            && t.conn == a.(enc := t.conn.enc, flags := a.flags.(writeSecure := true)) && b1.dec == t.conn.enc
            && b1.flags.readSecure
            && Keyed(w, t.conn, b1) && t.conn.enc.suite == a.cipher && Used(t.conn.enc, 0)
  {
    hide Open, Send, Derived, Tabled, Moved, BodySize, Allows;
    var s := Send(a, room, CHANGE_CIPHER_SPEC, [1]);
    ClearFits(a, 1, room);
    Arrives(a, b, CHANGE_CIPHER_SPEC, [1], rest, room, room2);
    Mirrored(w, a, b);
    assert ActivateRead(b.(dec := s.conn.enc)) == ActivateRead(b);
    TabledIs(a.cipher);
    ActivatedValid(s.conn.enc, a.cipher, a.sec.keys.wMac, a.sec.keys.wKey, a.sec.keys.wIv);
    FreshCount(a.cipher, a.sec.keys.wKey, a.sec.keys.wIv);
    DerivedFrame(w, a, ActivateWrite(s.conn));
    DerivedFrame(w, b, ActivateRead(b));
  }

  lemma FreshCount(s: Suite, key: seq<byte>, iv: seq<byte>)
    requires Sound(s) || IsNull(s)
    ensures s.limit.Some? ==> s.count(s.start(key, iv)) == 0
  {}

  /** The receiver after a Finished message. */
  function Finished(b: Conn, dec: Direction, m: seq<byte>): Conn {
    b.(dec := dec, hsState := DONE, sec := Hear(b, m).sec.(cert := None))
  }

  function FinishedMessage(w: World, a: Conn): seq<byte> {
    Message(FINISHED, FinishedHash(w.hashes, a.sec.master, a.sec.transcript, Sender(a.flags.server)))
  }

  lemma FinishedIs36(h: Hashes, master: seq<byte>, transcript: seq<byte>, sender: seq<byte>)
    requires HashLengths(h)
    ensures |FinishedHash(h, master, transcript, sender)| == 36
  {}

  const FINISHED_MESSAGE: nat := HANDSHAKE_HEADER_LEN + FINISHED_SIZE

  /** A cipher just started has room for a Finished message. */
  lemma FinishedFits(s: Conn, room: nat)
    requires s.enc.Valid() && Used(s.enc, 0) && room >= 80
    ensures Fits(s.enc, FINISHED_MESSAGE, room) && RecordSize(s.enc.suite, FINISHED_MESSAGE) <= 73
  {}

  lemma FinishedDelivered(w: World, a: Conn, b: Conn, rest: seq<byte>, room: nat, room2: nat, g: Supply)
    requires Keyed(w, a, b) && b.hsState == FINISHED && b.flags.readSecure && HashLengths(w.hashes)
    requires Used(a.enc, 0) && room >= 80 && room2 >= SSL_MAX_RECORD_LEN
    ensures var t := WriteFinished(w, a, room); var b1 := Finished(b, t.conn.enc, FinishedMessage(w, a));
            && t.code.Success? && |t.wire| > 0
            && Decode(w, b, t.wire + rest, room2, g)
               == (if b.flags.server != b.flags.resumed then Respond(w, b1, rest, room2, g) else Decoded(b1, Nothing, rest))
            && t.conn == a.(enc := t.conn.enc, sec := Hear(a, FinishedMessage(w, a)).sec.(cert := None)) && Keyed(w, t.conn, b1)
            && Used(t.conn.enc, BodySize(a.enc.suite, FINISHED_MESSAGE)) && t.conn.enc.suite == a.enc.suite
  {
    hide Derived, Tabled, Decode, Respond, FinishedHash, Message, SendHandshake, Fits, BodySize;
    var hash := FinishedHash(w.hashes, a.sec.master, a.sec.transcript, Sender(a.flags.server));
    FinishedIs36(w.hashes, a.sec.master, a.sec.transcript, Sender(a.flags.server));
    FinishedFits(a, room);
    DeliverMessage(w, a, b, FINISHED, hash, rest, room, room2, g);
    assert hash[..36] == hash && PeerFinished(w, b) == hash;
    var s := SendHandshake(a, room, FINISHED, hash).conn;
    DerivedFrame(w, a, s.(sec := s.sec.(cert := None)));
    DerivedFrame(w, b, Finished(b, s.enc, Message(FINISHED, hash)));
  }

  /** The receiver after a whole switch. */
  function SwitchRead(w: World, a: Conn, b: Conn, dec: Direction): Conn {
    Finished(ActivateRead(b), dec, FinishedMessage(w, a))
  }

  /** Change cipher spec and Finished are accepted, and leave the written direction secure and in step, with nothing
      but the Finished message encrypted. */
  lemma SwitchDelivered(w: World, a: Conn, b: Conn, room: nat, room2: nat, g: Supply)
    requires Keyed(w, a, b) && Clear(a) && b.hsState == FINISHED && HashLengths(w.hashes) && room >= 86
    requires room2 >= SSL_MAX_RECORD_LEN
    ensures var t := WriteSwitch(w, a, room); var b1 := SwitchRead(w, a, b, t.conn.enc);
            && t.code.Success? && |t.wire| > 0
            && Decode(w, b, t.wire, room2, g)
               == (if b.flags.server != b.flags.resumed then Respond(w, b1, [], room2, g) else Decoded(b1, Nothing, []))
            && t.conn == a.(enc := t.conn.enc, flags := a.flags.(writeSecure := true), sec := t.conn.sec)
            && Keyed(w, t.conn, b1) && b1.flags == b.flags.(readSecure := true) && t.conn.sec.cert == b1.sec.cert == None
            && Used(t.conn.enc, BodySize(a.cipher, FINISHED_MESSAGE)) && t.conn.enc.suite == a.cipher
  {
    hide Keyed, Terms, Decode, DecodeMore, Respond, WriteChangeCipherSpec, WriteFinished, FinishedMessage, Used, BodySize;
    var t := WriteChangeCipherSpec(a, room);
    var b0 := ActivateRead(b);
    var u := WriteFinished(w, t.conn, Left(room, t));
    SpecDelivered(w, a, b, u.wire, room, room2, g);
    FinishedDelivered(w, t.conn, b0, [], Left(room, t), room2, g);
    assert u.wire + [] == u.wire;
    QuietDecodes(w, b0, u.wire, room2, g) by { KeyedIsQuiet(w, t.conn, b0); }
    assert FinishedMessage(w, t.conn) == FinishedMessage(w, a) by { SameFinishedMessage(w, a, t.conn); }
  }

  lemma QuietDecodes(w: World, s: Conn, input: seq<byte>, room: nat, f: Supply)
    requires Quiet(s)
    ensures Decode(w, s, input, room, f) == DecodeMore(w, s, input, room, f)
  {}

  lemma KeyedIsQuiet(w: World, a: Conn, b: Conn)
    requires Keyed(w, a, b)
    ensures Quiet(a) && Quiet(b)
  {}

  lemma SameFinishedMessage(w: World, a: Conn, b: Conn)
    requires a.sec == b.sec && a.flags.server == b.flags.server
    ensures FinishedMessage(w, a) == FinishedMessage(w, b)
  {}

  // ----- the client's key exchange

  /** What honest ends assume of each other's world: the chain is accepted, and what is encrypted under its key
      is decrypted again. Messages fit a record, which is never split. */
  ghost predicate Honest(w: World) {
    && GoodWorld(w)
    && 3 <= |w.chain| <= SSL_MAX_PLAINTEXT_LEN - 4 && w.checkChain(w.chain) == Good(|w.chain|)
    && w.keySize(w.chain) <= SSL_MAX_PLAINTEXT_LEN - 4
    && (forall p, r :: |p| == PREMASTER_SIZE ==>
          |w.encryptPub(w.chain, p, r)| == w.keySize(w.chain) && w.decryptPriv(w.encryptPub(w.chain, p, r)) == Some(p))
  }

  predicate Supplied(f: Supply) {
    |f.random| == RANDOM_SIZE && |f.secret| == PREMASTER_SIZE - 2 && (f.newId == [] || |f.newId| == SESSION_ID_SIZE)
  }

  lemma HonestCrypt(w: World, p: seq<byte>, r: seq<byte>)
    requires Honest(w) && |p| == PREMASTER_SIZE
    ensures |w.encryptPub(w.chain, p, r)| == w.keySize(w.chain) <= SSL_MAX_PLAINTEXT_LEN - 4
    ensures w.decryptPriv(w.encryptPub(w.chain, p, r)) == Some(p)
  {}

  lemma DeriveKeysFrame(w: World, s: Conn)
    requires GoodWorld(w) && Tabled(s.cipher)
    ensures var t := DeriveKeys(w, s);
            && t == s.(sec := s.sec.(master := t.sec.master, premaster := t.sec.premaster, keys := t.sec.keys)) && Derived(w, t)
            && t.sec.master == if s.flags.resumed then s.sec.master else MasterSecret(w.hashes, s.sec.premaster, s.sec.clientRandom, s.sec.serverRandom)
  {
    hide CreateKeys, MasterSecret, Derived, Tabled;
    DeriveKeysDerives(w, s);
  }

  lemma KeyExchangeDelivered(w: World, a: Conn, b: Conn, f: Supply, rest: seq<byte>, room: nat, room2: nat, g: Supply)
    requires Terms(a, b) && Clear(a) && b.hsState == CLIENT_KEY_EXCHANGE && !a.flags.resumed && !b.flags.resumed && Honest(w)
    requires Supplied(f)
    requires room >= 9 + w.keySize(w.chain) && room2 >= SSL_MAX_RECORD_LEN
    ensures var t := WriteClientKeyExchange(w, a, room, w.chain, f);
            var d := Decode(w, b, t.wire + rest, room2, g);
            && t.code.Success? && |t.wire| == 9 + w.keySize(w.chain)
            && d.result == Nothing && d.rest == rest && d.conn.hsState == FINISHED
            && t.conn == a.(enc := t.conn.enc, sec := t.conn.sec) && t.conn.sec.cert == a.sec.cert && Clear(t.conn)
            && d.conn == b.(dec := d.conn.dec, sec := d.conn.sec, hsState := FINISHED) && Keyed(w, t.conn, d.conn)
  {
    hide Derived, Tabled, Decode, Respond, Message, SendHandshake, DeriveKeys, Honest, Fits, BodySize, RecordSize;
    var p := [3, 0] + f.secret;
    HonestCrypt(w, p, f.padding);
    var body := w.encryptPub(w.chain, p, f.padding);
    var a0 := a.(sec := a.sec.(premaster := p));
    ClearFits(a0, 4 + |body|, room);
    DeliverMessage(w, a0, b, CLIENT_KEY_EXCHANGE, body, rest, room, room2, g);
    assert body[..|body|] == body;
    var s1 := SendHandshake(a0, room, CLIENT_KEY_EXCHANGE, body).conn;
    var heard := Hear(b.(dec := s1.enc), Message(CLIENT_KEY_EXCHANGE, body));
    HonestIsGood(w);
    DeriveKeysFrame(w, s1);
    DeriveKeysFrame(w, heard.(sec := heard.sec.(premaster := p)));
    StateFrame(w, DeriveKeys(w, heard.(sec := heard.sec.(premaster := p))), FINISHED);
  }

  lemma StateFrame(w: World, s: Conn, hsState: nat)
    ensures Derived(w, s.(hsState := hsState)) == Derived(w, s)
  {}

  lemma HonestIsGood(w: World)
    requires Honest(w)
    ensures GoodWorld(w)
  {}

  // ----- the server's hello

  /** The server `a` has accepted the hello of the client `b` and answers it next. */
  ghost predicate Hailed(w: World, a: Conn, b: Conn) {
    && Met(a, b) && a.flags.server && a.ver == Versions(3, 0, 3, 0) && b.ver.maj == 3 && b.ver.min == 0
    && b.hsState == SERVER_HELLO && !b.flags.resumed && a.sec.clientRandom == b.sec.clientRandom
    && Tabled(a.cipher) && SSL_NULL_WITH_NULL_NULL < a.cipher.id < 0x1_0000
    && (if a.flags.resumed then a.cipher == b.cipher && a.sec.master == b.sec.master && a.sessionId == b.sessionId && 0 < |a.sessionId| <= SESSION_ID_SIZE
        else a.sessionId == [] && w.lookup(a.cipher.id) == Some(a.cipher))
  }

  lemma NewSessionAgreed(w: World, s: Conn, sid: seq<byte>, suite: Suite)
    requires !SameSession(s, sid) && !s.flags.resumed && w.lookup(suite.id) == Some(suite)
    ensures var t := AgreeSession(w, s, sid);
            && t == s.(cipher := t.cipher, sec := s.sec.(master := t.sec.master), sessionId := sid)
            && ServerChoice(w, t, suite.id) == Some(suite)
  {
    hide SameSession, Repeat;
    assert s.flags.(resumed := false) == s.flags;
    if s.sessionId == [] {
      assert s.sec.(master := s.sec.master) == s.sec;
      assert s.(cipher := s.cipher) == s;
    }
  }

  lemma FullHelloDelivered(w: World, a: Conn, b: Conn, f: Supply, rest: seq<byte>, room: nat, room2: nat, g: Supply)
    requires Hailed(w, a, b) && Clear(a) && !a.flags.resumed && Supplied(f) && !SameSession(b, f.newId) && room >= 79
    requires room2 >= SSL_MAX_RECORD_LEN
    ensures var t := WriteServerHello(w, a, room, f);
            var d := Decode(w, b, t.wire + rest, room2, g);
            && t.code.Success? && 0 < |t.wire| <= 79 && d.result == Nothing && d.rest == rest
            && t.conn == a.(enc := t.conn.enc, sec := t.conn.sec, sessionId := f.newId) && Terms(t.conn, d.conn) && Clear(t.conn)
            && d.conn.hsState == CERTIFICATE && d.conn.flags == b.flags && d.conn.sessionId == f.newId
  {
    hide Tabled, Decode, Respond, Message, SendHandshake, ServerHelloBody, SameSession, AgreeSession, ServerChoice, Fits, BodySize,
         RecordSize;
    var a0 := a.(sec := a.sec.(serverRandom := f.random), sessionId := f.newId);
    assert RegisteredId(a, f) == f.newId;
    var body := ServerHelloBody(3, 0, f.random, f.newId, a.cipher.id);
    ServerHelloFits(f.random, f.newId, a.cipher.id);
    ClearFits(a0, 4 + |body|, room);
    DeliverMessage(w, a0, b, SERVER_HELLO, body, rest, room, room2, g);
    var a1 := SendHandshake(a0, room, SERVER_HELLO, body).conn;
    var heard := Hear(b.(dec := a1.enc), Message(SERVER_HELLO, body));
    SameIdBefore(heard, b, f.newId, f.random);
    NewSessionAgreed(w, HelloNoted(heard, f.random), f.newId, a.cipher);
    ServerHelloRead(w, heard, f.random, f.newId, a.cipher.id);
  }

  lemma ServerHelloFits(random: seq<byte>, sid: seq<byte>, id: nat)
    requires |random| == RANDOM_SIZE && |sid| <= SESSION_ID_SIZE
    ensures |ServerHelloBody(3, 0, random, sid, id)| == 38 + |sid|
  {}

  lemma SameIdBefore(heard: Conn, b: Conn, sid: seq<byte>, random: seq<byte>)
    requires heard.sessionId == b.sessionId
    ensures SameSession(HelloNoted(heard, random), sid) == SameSession(b, sid)
  {}

  lemma ResumedAgreed(w: World, s: Conn)
    requires 0 < |s.sessionId| && s.cipher.id != SSL_NULL_WITH_NULL_NULL
    ensures var t := AgreeSession(w, s, s.sessionId);
            t == s.(flags := s.flags.(resumed := true)) && ServerChoice(w, t, s.cipher.id) == Some(s.cipher)
  {
    assert s.sessionId[..|s.sessionId|] == s.sessionId;
  }

  lemma ResumedHelloDelivered(w: World, a: Conn, b: Conn, f: Supply, rest: seq<byte>, room: nat, room2: nat, g: Supply)
    requires Hailed(w, a, b) && Clear(a) && a.flags.resumed && Supplied(f) && GoodWorld(w) && room >= 79
    requires room2 >= SSL_MAX_RECORD_LEN
    ensures var t := WriteServerHello(w, a, room, f);
            var d := Decode(w, b, t.wire + rest, room2, g);
            && t.code.Success? && 0 < |t.wire| <= 79 && d.result == Nothing && d.rest == rest
            && t.conn == a.(enc := t.conn.enc, sec := t.conn.sec) && Keyed(w, t.conn, d.conn) && Clear(t.conn)
            && d.conn.hsState == FINISHED && d.conn.flags == b.flags.(resumed := true) && d.conn.sessionId == b.sessionId
  {
    hide Tabled, Derived, Decode, Respond, Message, SendHandshake, ServerHelloBody, SameSession, AgreeSession, ServerChoice,
         DeriveKeys, Fits, BodySize, RecordSize;
    var sid, id := a.sessionId, a.cipher.id;
    var a0 := a.(sec := a.sec.(serverRandom := f.random));
    var body := ServerHelloBody(3, 0, f.random, sid, id);
    ServerHelloFits(f.random, sid, id);
    ClearFits(a0, 4 + |body|, room);
    DeliverMessage(w, a0, b, SERVER_HELLO, body, rest, room, room2, g);
    var s1 := SendHandshake(a0, room, SERVER_HELLO, body).conn;
    var heard := Hear(b.(dec := s1.enc), Message(SERVER_HELLO, body));
    var h := HelloNoted(heard, f.random);
    ResumedAgreed(w, h);
    ServerHelloRead(w, heard, f.random, sid, id);
    var t := h.(flags := h.flags.(resumed := true));
    assert t.(cipher := t.cipher) == t;
    DeriveKeysFrame(w, s1);
    DeriveKeysFrame(w, t);
    StateFrame(w, DeriveKeys(w, t), FINISHED);
    assert a0 == a.(sec := a.sec.(serverRandom := f.random), sessionId := RegisteredId(a, f));
  }

  // ----- the rest of a server's full flight

  lemma CertificateDelivered(w: World, a: Conn, b: Conn, rest: seq<byte>, room: nat, room2: nat, g: Supply)
    requires Terms(a, b) && Clear(a) && b.hsState == CERTIFICATE && !b.flags.server && Honest(w) && room >= 9 + |w.chain|
    requires room2 >= SSL_MAX_RECORD_LEN
    ensures var t := SendHandshake(a, room, CERTIFICATE, w.chain);
            var d := Decode(w, b, t.wire + rest, room2, g);
            && t.code.Success? && |t.wire| == 9 + |w.chain| && d.result == Nothing && d.rest == rest
            && t.conn == a.(enc := t.conn.enc, sec := t.conn.sec) && Terms(t.conn, d.conn) && Clear(t.conn)
            && d.conn.hsState == SERVER_HELLO_DONE && d.conn.flags == b.flags && d.conn.sessionId == b.sessionId
            && d.conn.sec.cert == Some(w.chain)
  {
    hide Tabled, Decode, Respond, Message, SendHandshake, GoodWorld, Fits, BodySize, RecordSize;
    ClearFits(a, 4 + |w.chain|, room);
    DeliverMessage(w, a, b, CERTIFICATE, w.chain, rest, room, room2, g);
    assert w.chain[..|w.chain|] == w.chain;
  }

  /** The client after the end of the server's hello. */
  function DoneHeard(b: Conn, dec: Direction): Conn {
    Hear(b.(dec := dec), Message(SERVER_HELLO_DONE, [])).(hsState := FINISHED)
  }

  lemma HelloDoneDelivered(w: World, a: Conn, b: Conn, rest: seq<byte>, room: nat, room2: nat, g: Supply)
    requires Terms(a, b) && Clear(a) && b.hsState == SERVER_HELLO_DONE && room >= 9 && room2 >= SSL_MAX_RECORD_LEN
    ensures var t := SendHandshake(a, room, SERVER_HELLO_DONE, []);
            var b1 := DoneHeard(b, t.conn.enc);
            && t.code.Success? && |t.wire| > 0
            && Decode(w, b, t.wire + rest, room2, g) == Respond(w, b1, rest, room2, g)
            && t.conn == a.(enc := t.conn.enc, sec := t.conn.sec) && Terms(t.conn, b1) && Clear(t.conn)
  {
    hide Tabled, Decode, Respond, Message, SendHandshake, Fits, BodySize, RecordSize;
    ClearFits(a, 4, room);
    DeliverMessage(w, a, b, SERVER_HELLO_DONE, [], rest, room, room2, g);
  }

  // ----- the client's hello

  /** The suite a client proposes, if it is only one: that of the session it wants to resume, or the caller's. */
  function Proposal(c: Conn, cipherSpec: nat): nat {
    if c.sessionId != [] then c.cipher.id else cipherSpec
  }

  /** The list of suites in its hello. */
  function Offer(w: World, c: Conn, cipherSpec: nat): seq<byte> {
    if Proposal(c, cipherSpec) == SSL_NULL_WITH_NULL_NULL then w.offered else Len2(Proposal(c, cipherSpec))
  }

  /** The server can accept the hello: it knows the session under the same terms, or supports a suite of the list. */
  ghost predicate Acceptable(w: World, c: Conn, cipherSpec: nat) {
    && (Proposal(c, cipherSpec) == SSL_NULL_WITH_NULL_NULL || w.lookup(Proposal(c, cipherSpec)).Some?)
    && var offer := Offer(w, c, cipherSpec);
    && |offer| % 2 == 0 && 0 < |offer| <= SSL_MAX_PLAINTEXT_LEN - 75 && (c.sessionId == [] || |c.sessionId| == SESSION_ID_SIZE)
    && var found := Found(w, c.sessionId);
    && (found.Some? ==> found.value.master == c.sec.master && found.value.suite == c.cipher)
    && var chosen := Chosen(w, c.sessionId, SuiteIds(offer));
    chosen.Some? && SSL_NULL_WITH_NULL_NULL < chosen.value.id < 0x1_0000
  }

  /** The suite such a handshake settles on. */
  ghost function Settles(w: World, c: Conn, cipherSpec: nat): Suite
    requires Acceptable(w, c, cipherSpec)
  {
    Chosen(w, c.sessionId, SuiteIds(Offer(w, c, cipherSpec))).value
  }

  lemma {:induction false} ChooseIsKnown(w: World, ids: seq<nat>)
    requires GoodWorld(w) && Choose(w, ids).Some?
    ensures var suite := Choose(w, ids).value; Tabled(suite) && w.lookup(suite.id) == Some(suite)
  {
    hide Tabled;
    if w.lookup(ids[0]).None? {
      ChooseIsKnown(w, ids[1..]);
    }
  }

  lemma ChosenIsTabled(w: World, sid: seq<byte>, ids: seq<nat>)
    requires GoodWorld(w) && Chosen(w, sid, ids).Some?
    ensures var suite := Chosen(w, sid, ids).value;
            Tabled(suite) && if Found(w, sid).Some? then suite == Found(w, sid).value.suite else w.lookup(suite.id) == Some(suite)
  {
    hide Tabled, Choose;
    if Found(w, sid).None? {
      ChooseIsKnown(w, ids);
    }
  }

  ghost predicate Unmet(w: World, c: Conn, s: Conn) {
    exists session :: c == NewSession(w, false, session) && s == NewSession(w, true, None)
  }

  lemma UnmetFacts(w: World, c: Conn, s: Conn)
    requires GoodWorld(w) && Unmet(w, c, s)
    ensures Channel(c, s) && Quiet(c) && s.enc == c.dec && c.dec.Valid() && !c.flags.server && s.flags.server
    ensures c.sec.transcript == s.sec.transcript == []
    ensures !c.flags.resumed && !c.flags.clientAuth && !s.flags.clientAuth && !s.flags.resumed && c.hsState == SERVER_HELLO
    ensures s.hsState == CLIENT_HELLO
    ensures Clear(c) && Clear(s)
  {}

  /** The server after the client's hello. */
  function HelloAccepted(w: World, s: Conn, dec: Direction, m: seq<byte>, random: seq<byte>, sid: seq<byte>, suite: Suite): Conn {
    AfterClientHello(Greeted(w, Hear(s.(dec := dec), m), random, sid).(cipher := suite))
  }

  lemma HelloFacts(w: World, s: Conn, dec: Direction, m: seq<byte>, random: seq<byte>, sid: seq<byte>, suite: Suite)
    requires !s.flags.resumed && !s.flags.clientAuth
    ensures var t := HelloAccepted(w, s, dec, m, random, sid, suite); var found := Found(w, sid);
            && t.enc == s.enc && t.dec == dec && t.flags == s.flags.(resumed := found.Some?) && t.err == s.err
            && t.ver == Versions(3, 0, 3, 0)
            && t.sec.clientRandom == random && t.sec.transcript == s.sec.transcript + m && t.cipher == suite
            && (if found.Some? then t.sec.master == found.value.master && t.sessionId == sid && sid != [] && t.hsState == FINISHED
                else t.sessionId == [] && t.hsState == CLIENT_KEY_EXCHANGE)
  {}

  lemma ClientHelloDelivered(w: World, c: Conn, s: Conn, cipherSpec: nat, f: Supply, room: nat, g: Supply) returns (s1: Conn)
    requires GoodWorld(w) && Unmet(w, c, s) && Acceptable(w, c, cipherSpec) && Supplied(f) && room >= AMPLE
    ensures var t := EncodeClientHello(w, c, cipherSpec, room, f);
            && t.code.Success? && t.wire != [] && Decode(w, s, t.wire, room, g) == Respond(w, s1, [], room, g)
            && Hailed(w, s1, t.conn)
            && t.conn.sessionId == c.sessionId && !t.conn.flags.clientAuth && s1.flags.resumed == Found(w, c.sessionId).Some?
            && s1.hsState == (if s1.flags.resumed then FINISHED else CLIENT_KEY_EXCHANGE) && Clear(s1) && Clear(t.conn)
            && s1.cipher == Settles(w, c, cipherSpec)
  {
    hide Tabled, Decode, Respond, Message, SendHandshake, ClientHelloBody, Unmet, Found, Chosen, SuiteIds, GoodWorld,
         ReadClientHello,
         HelloAccepted, Fits, BodySize, RecordSize, Offer;
    UnmetFacts(w, c, s);
    var offer := Offer(w, c, cipherSpec);
    var chosen := Chosen(w, c.sessionId, SuiteIds(offer)).value;
    var c0 := c.(sec := c.sec.(transcript := [], clientRandom := f.random));
    assert c.flags.(resumed := false) == c.flags;
    var body := ClientHelloBody(3, 0, f.random, c.sessionId, offer);
    ClientHelloFits(f.random, c.sessionId, offer);
    ClearFits(c0, 4 + |body|, room);
    DeliverMessage(w, c0, s, CLIENT_HELLO, body, [], room, room, g);
    var a := SendHandshake(c0, room, CLIENT_HELLO, body);
    assert a.wire + [] == a.wire;
    var heard := Hear(s.(dec := a.conn.enc), Message(CLIENT_HELLO, body));
    ClientHelloRead(w, heard, f.random, c.sessionId, offer);
    ChosenIsTabled(w, c.sessionId, SuiteIds(offer));
    s1 := HelloAccepted(w, s, a.conn.enc, Message(CLIENT_HELLO, body), f.random, c.sessionId, chosen);
    HelloFacts(w, s, a.conn.enc, Message(CLIENT_HELLO, body), f.random, c.sessionId, chosen);
    HelloIsRead(w, s, a.conn.enc, Message(CLIENT_HELLO, body), f.random, c.sessionId, chosen);
    HelloSent(w, c, cipherSpec, room, f);
  }

  lemma HelloIsRead(w: World, s: Conn, dec: Direction, m: seq<byte>, random: seq<byte>, sid: seq<byte>, suite: Suite)
    ensures HelloAccepted(w, s, dec, m, random, sid, suite) == AfterClientHello(Greeted(w, Hear(s.(dec := dec), m), random, sid).(cipher := suite))
  {}

  /** What a new client sends, and the state it is in then. */
  lemma HelloSent(w: World, c: Conn, cipherSpec: nat, room: nat, f: Supply)
    requires Quiet(c) && !c.flags.server && c.hsState == SERVER_HELLO && !c.flags.resumed && c.enc.Valid() && Clear(c)
    requires Proposal(c, cipherSpec) == SSL_NULL_WITH_NULL_NULL || w.lookup(Proposal(c, cipherSpec)).Some?
    requires room >= 48 + |c.sessionId| + |Offer(w, c, cipherSpec)| && |f.random| == RANDOM_SIZE
    ensures var c0 := c.(sec := c.sec.(transcript := [], clientRandom := f.random));
            var a := SendHandshake(c0, room, CLIENT_HELLO, ClientHelloBody(c.ver.maj, c.ver.min, f.random, c.sessionId, Offer(w, c, cipherSpec)));
            a.code.Success? ==> EncodeClientHello(w, c, cipherSpec, room, f)
                                == a.(conn := a.conn.(flags := a.conn.flags.(clientAuth := false), hsState := SERVER_HELLO))
  {
    hide SendHandshake, ClientHelloBody, RecordSize;
    assert c.flags.(resumed := false) == c.flags;
    ClearFits(c, HANDSHAKE_HEADER_LEN + 39 + |c.sessionId| + |Offer(w, c, cipherSpec)|, room);
    var c1 := c.(flags := c.flags.(resumed := false), sec := c.sec.(transcript := []));
    assert c1.(sec := c1.sec.(clientRandom := f.random)) == c.(sec := c.sec.(transcript := [], clientRandom := f.random));
  }

  lemma ClientHelloFits(random: seq<byte>, sid: seq<byte>, offer: seq<byte>)
    requires |random| == RANDOM_SIZE
    ensures |ClientHelloBody(3, 0, random, sid, offer)| == 39 + |sid| + |offer|
  {}

  // ----- flights

  /** Server hello, certificate and hello done bring the client to its answer. */
  lemma FullFlight(w: World, a: Conn, b: Conn, f: Supply, room: nat, g: Supply) returns (b1: Conn)
    requires Hailed(w, a, b) && Clear(a) && !a.flags.resumed && a.hsState == CLIENT_KEY_EXCHANGE && !b.flags.clientAuth
    requires Honest(w) && Supplied(f) && room >= AMPLE && !SameSession(b, f.newId)
    ensures var d := Respond(w, a, [], room, f);
            && d.result.Response? && d.rest == [] && Receive(w, b, d.result.wire, room, g) == Respond(w, b1, [], room, g)
            && Terms(d.conn, b1) && Clear(d.conn) && d.conn.hsState == CLIENT_KEY_EXCHANGE && d.conn.flags == a.flags
            && d.conn.dec == a.dec && d.conn.cipher == a.cipher
            && b1.hsState == FINISHED && b1.flags == b.flags && b1.sec.cert == Some(w.chain)
  {
    hide Terms, Hailed, Decode, Receive, WriteServerHello, SendHandshake, Supplied, Honest, SameSession, DoneHeard, Clear;
    HailedIsQuiet(w, a, b);
    HonestChain(w);
    var x := WriteServerHello(w, a, room, f);
    var y := SendHandshake(x.conn, Left(room, x), CERTIFICATE, w.chain);
    var xy := Behind(x, y);
    var z := SendHandshake(y.conn, Left(room, xy), SERVER_HELLO_DONE, []);
    FullHelloDelivered(w, a, b, f, y.wire + z.wire, room, room, g);
    var c1 := Decode(w, b, x.wire + (y.wire + z.wire), room, g).conn;
    CertificateDelivered(w, x.conn, c1, z.wire, Left(room, x), room, g);
    var c2 := Decode(w, c1, y.wire + z.wire, room, g).conn;
    HelloDoneDelivered(w, y.conn, c2, [], Left(room, xy), room, g);
    b1 := DoneHeard(c2, z.conn.enc);
    DoneHeardFacts(c2, z.conn.enc);
    assert z.wire + [] == z.wire && x.wire + y.wire + z.wire == x.wire + (y.wire + z.wire);
    Answers(w, b1, [], room, g);
    ReceiveMore(w, b, x.wire + (y.wire + z.wire), room, g);
    ReceiveMore(w, c1, y.wire + z.wire, room, g);
    ReceiveMore(w, c2, z.wire, room, g);
    NoAdditions(a, 3);
  }

  lemma NoAdditions(s: Conn, n: nat)
    requires Clear(s)
    ensures Additions(s, n) == 0
  {}

  lemma HonestChain(w: World)
    requires Honest(w)
    ensures GoodWorld(w) && 3 <= |w.chain| <= SSL_MAX_PLAINTEXT_LEN - 4 && w.keySize(w.chain) <= SSL_MAX_PLAINTEXT_LEN - 4
  {}

  lemma DoneHeardFacts(b: Conn, dec: Direction)
    ensures var t := DoneHeard(b, dec); t.hsState == FINISHED && t.flags == b.flags && t.sec.cert == b.sec.cert && t.sessionId == b.sessionId
  {}

  lemma HailedIsQuiet(w: World, a: Conn, b: Conn)
    requires Hailed(w, a, b)
    ensures Quiet(a) && a.flags.server && !b.flags.server && !b.flags.resumed
  {}

  lemma TermsAreQuiet(a: Conn, b: Conn)
    requires Terms(a, b)
    ensures Quiet(a) && Quiet(b) && a.flags.server != b.flags.server && a.ver == b.ver == Versions(3, 0, 3, 0)
  {}

  /** Key exchange, change cipher spec and Finished bring the server to its answer. */
  lemma KeyFlight(w: World, a: Conn, b: Conn, f: Supply, room: nat, g: Supply) returns (b1: Conn)
    requires Terms(a, b) && Clear(a) && a.hsState == FINISHED && !a.flags.server && !a.flags.clientAuth && !a.flags.resumed
    requires a.sec.cert == Some(w.chain)
    requires b.hsState == CLIENT_KEY_EXCHANGE && !b.flags.resumed && Honest(w) && Supplied(f) && room >= AMPLE
    ensures var d := Respond(w, a, [], room, f);
            && d.result.Response? && d.rest == [] && Receive(w, b, d.result.wire, room, g) == Respond(w, b1, [], room, g)
            && Keyed(w, d.conn, b1) && d.conn.hsState == FINISHED && d.conn.flags == a.flags.(writeSecure := true)
            && d.conn.dec == a.dec
            && b1.hsState == DONE && b1.flags == b.flags.(readSecure := true) && Spoken(d.conn) && d.conn.cipher == a.cipher
  {
    hide Terms, Keyed, Decode, WriteClientKeyExchange, WriteSwitch, Supplied, Honest, SwitchRead, Clear, BodySize, Used;
    TermsAreQuiet(a, b);
    HonestChain(w);
    var x := WriteClientKeyExchange(w, a, room, w.chain, f);
    var y := WriteSwitch(w, x.conn, Left(room, x));
    KeyExchangeDelivered(w, a, b, f, y.wire, room, room, g);
    var c1 := Decode(w, b, x.wire + y.wire, room, g).conn;
    GoodHashes(w);
    SwitchDelivered(w, x.conn, c1, Left(room, x), room, g);
    b1 := SwitchRead(w, x.conn, c1, y.conn.enc);
    SwitchReadIsDone(w, x.conn, c1, y.conn.enc);
    Answers(w, b1, [], room, g);
    assert [] + x.wire == x.wire;
    NoAdditions(a, 2);
  }

  /** Nothing but the Finished message has been encrypted in the direction written. */
  ghost predicate Spoken(s: Conn) {
    s.enc.suite == s.cipher && Used(s.enc, BodySize(s.cipher, FINISHED_MESSAGE))
  }

  lemma SwitchReadIsDone(w: World, a: Conn, b: Conn, dec: Direction)
    ensures SwitchRead(w, a, b, dec).hsState == DONE
  {}

  /** Change cipher spec and Finished end the handshake on the other side. */
  lemma LastFlight(w: World, a: Conn, b: Conn, f: Supply, room: nat, g: Supply) returns (b1: Conn)
    requires Keyed(w, a, b) && Clear(a) && a.hsState == DONE && b.hsState == FINISHED && b.flags.server == b.flags.resumed
    requires GoodWorld(w) && room >= AMPLE
    ensures var d := Respond(w, a, [], room, f);
            && d.result.Response? && d.rest == [] && Receive(w, b, d.result.wire, room, g) == Decoded(b1, Nothing, [])
            && Keyed(w, d.conn, b1) && d.conn.hsState == DONE && d.conn.flags == a.flags.(writeSecure := true)
            && d.conn.dec == a.dec
            && b1.hsState == DONE && b1.flags == b.flags.(readSecure := true) && Spoken(d.conn) && d.conn.cipher == a.cipher
  {
    hide Keyed, Decode, WriteSwitch, SwitchRead, GoodWorld, Clear, BodySize, Used;
    KeyedIsQuiet(w, a, b);
    var t := WriteSwitch(w, a, room);
    GoodHashes(w);
    SwitchDelivered(w, a, b, room, room, g);
    b1 := SwitchRead(w, a, b, t.conn.enc);
    SwitchReadIsDone(w, a, b, t.conn.enc);
    NoAdditions(a, 2);
  }

  lemma GoodHashes(w: World)
    requires GoodWorld(w)
    ensures HashLengths(w.hashes)
  {}

  /** Server hello, change cipher spec and Finished resume a session. */
  lemma ResumedFlight(w: World, a: Conn, b: Conn, f: Supply, room: nat, g: Supply) returns (b1: Conn)
    requires Hailed(w, a, b) && Clear(a) && a.flags.resumed && a.hsState == FINISHED && GoodWorld(w) && Supplied(f) && room >= AMPLE
    ensures var d := Respond(w, a, [], room, f);
            && d.result.Response? && d.rest == [] && Receive(w, b, d.result.wire, room, g) == Respond(w, b1, [], room, g)
            && Keyed(w, d.conn, b1) && d.conn.hsState == FINISHED && d.conn.flags == a.flags.(writeSecure := true)
            && d.conn.dec == a.dec
            && b1.hsState == DONE && b1.flags == b.flags.(resumed := true, readSecure := true) && Spoken(d.conn)
            && d.conn.cipher == a.cipher
  {
    hide Hailed, Keyed, Decode, WriteServerHello, WriteSwitch, SwitchRead, GoodWorld, Supplied, Clear, BodySize, Used;
    HailedIsQuiet(w, a, b);
    var x := WriteServerHello(w, a, room, f);
    var y := WriteSwitch(w, x.conn, Left(room, x));
    ResumedHelloDelivered(w, a, b, f, y.wire, room, room, g);
    var c1 := Decode(w, b, x.wire + y.wire, room, g).conn;
    GoodHashes(w);
    SwitchDelivered(w, x.conn, c1, Left(room, x), room, g);
    b1 := SwitchRead(w, x.conn, c1, y.conn.enc);
    SwitchReadIsDone(w, x.conn, c1, y.conn.enc);
    Answers(w, b1, [], room, g);
    NoAdditions(a, 3);
  }

  // ----- whole handshakes

  /** How a conversation ends: the one who spoke last, the other, and whether nothing is left to say or to read. */
  datatype Ends = Ends(speaker: Conn, listener: Conn, settled: bool)

  /** A way to cut what is sent into the pieces in which it arrives. */
  type Cut = seq<byte> -> seq<seq<byte>>

  ghost predicate Lossless(cut: Cut) {
    forall x :: Joined(cut(x)) == x && forall k | 0 <= k < |cut(x)| :: cut(x)[k] != []
  }

  /** Each side answers the other for as long as it has something to send. */
  function Converse(w: World, cut: Cut, speaker: Conn, listener: Conn, wire: seq<byte>, room: nat, supplies: seq<Supply>): Ends
    decreases supplies
  {
    if supplies == [] then Ends(speaker, listener, false)
    else
      var d := Feed(w, listener, [], cut(wire), room, supplies[0]);
      if d.result.Response? && d.rest == [] then Converse(w, cut, d.conn, speaker, d.result.wire, room, supplies[1..])
      else Ends(speaker, d.conn, d.result.Nothing? && d.rest == [])
  }

  /** A client's hello and all that follows from it. */
  function Meet(w: World, cut: Cut, client: Conn, server: Conn, cipherSpec: nat, f: Supply, room: nat,
                supplies: seq<Supply>): Ends {
    var hello := EncodeClientHello(w, client, cipherSpec, room, f);
    Converse(w, cut, hello.conn, server, hello.wire, room, supplies)
  }

  /** Both sides are done, hold the same secret and heard the same messages; each writes with the keys the other
      reads with, and both directions are secure and in step. */
  ghost predicate Agreed(w: World, a: Conn, b: Conn) {
    && a.hsState == b.hsState == DONE && a.flags.server != b.flags.server && a.flags.resumed == b.flags.resumed
    && a.flags.readSecure && a.flags.writeSecure && b.flags.readSecure && b.flags.writeSecure && Quiet(a) && Quiet(b)
    && a.cipher == b.cipher && a.cipher.id != SSL_NULL_WITH_NULL_NULL && a.ver == b.ver == Versions(3, 0, 3, 0)
    && a.sec.master == b.sec.master && a.sec.transcript == b.sec.transcript
    && Derived(w, a) && Derived(w, b) && a.sec.keys == b.sec.keys.Mirror()
    && InSync(a.enc, b.dec) && InSync(b.enc, a.dec) && Allows(a.enc, 0) && Allows(b.enc, 0)
  }

  lemma KeyedAgree(w: World, a: Conn, b: Conn)
    requires Keyed(w, a, b) && a.hsState == b.hsState == DONE && a.flags.resumed == b.flags.resumed
    requires a.flags.readSecure && a.flags.writeSecure && b.flags.readSecure && b.flags.writeSecure
    requires Spoken(a) && b.enc.suite == b.cipher && Used(b.enc, BodySize(b.cipher, FINISHED_MESSAGE))
    ensures Agreed(w, a, b)
  {
    hide Derived;
    Mirrored(w, a, b);
  }

  /** However the flight arrives, it is received as a whole. */
  lemma TurnTaken(w: World, cut: Cut, speaker: Conn, listener: Conn, wire: seq<byte>, room: nat, supplies: seq<Supply>)
    requires supplies != [] && Lossless(cut)
    ensures var d := Receive(w, listener, wire, room, supplies[0]);
            Converse(w, cut, speaker, listener, wire, room, supplies)
            == if d.result.Response? && d.rest == [] then Converse(w, cut, d.conn, speaker, d.result.wire, room, supplies[1..])
               else Ends(speaker, d.conn, d.result.Nothing? && d.rest == [])
  {
    hide Receive, Feed;
    FeedIsReceive(w, listener, [], cut(wire), room, supplies[0]);
    assert [] + wire == wire;
  }

  /** The handshake is over with both sides in agreement, also on this suite, and only their Finished messages encrypted so far. */
  ghost predicate Settled(w: World, e: Ends, resumed: bool, suite: Suite) {
    && e.settled && Agreed(w, e.speaker, e.listener) && Spoken(e.speaker) && Spoken(e.listener)
    && e.speaker.flags.resumed == resumed && e.speaker.cipher == suite
  }

  lemma {:induction false} FullHandshake(w: World, cut: Cut, a: Conn, s: Conn, b: Conn, wire: seq<byte>, room: nat, f: seq<Supply>)
    requires Honest(w) && Lossless(cut) && |f| >= 4 && (forall k | 0 <= k < |f| :: Supplied(f[k])) && room >= AMPLE && Clear(a)
    requires Clear(b)
    requires Hailed(w, b, a) && !b.flags.resumed && b.hsState == CLIENT_KEY_EXCHANGE && !a.flags.clientAuth
    requires !SameSession(a, f[0].newId)
    requires Receive(w, s, wire, room, f[0]) == Respond(w, b, [], room, f[0])
    ensures Settled(w, Converse(w, cut, a, s, wire, room, f), false, b.cipher)
  {
    hide Receive, Respond, Converse, Hailed, Terms, Keyed, Honest, Supplied, SameSession, Agreed, Lossless, Clear, Spoken;
    HailedIsQuiet(w, b, a);
    HonestIsGood(w);
    TurnTaken(w, cut, a, s, wire, room, f);
    var d1 := Respond(w, b, [], room, f[0]);
    var a1 := FullFlight(w, b, a, f[0], room, f[1]);
    TermsBack(d1.conn, a1);
    StillClear(w, b, a, d1.conn, a1);
    TurnTaken(w, cut, d1.conn, a, d1.result.wire, room, f[1..]);
    var d2 := Respond(w, a1, [], room, f[1]);
    var b2 := KeyFlight(w, a1, d1.conn, f[1], room, f[2]);
    TurnTaken(w, cut, d2.conn, d1.conn, d2.result.wire, room, f[2..]);
    var d3 := Respond(w, b2, [], room, f[2]);
    KeyedBack(w, d2.conn, b2);
    ClearByTerms(w, a1, d1.conn, d2.conn, b2);
    var a3 := LastFlight(w, b2, d2.conn, f[2], room, f[3]);
    TurnTaken(w, cut, d3.conn, d2.conn, d3.result.wire, room, f[3..]);
    assert f[1..][0] == f[1] && f[2..][0] == f[2] && f[3..][0] == f[3];
    assert f[1..][1..] == f[2..] && f[2..][1..] == f[3..];
    BothSpoke(w, b2, d2.conn, d3.conn, a3);
  }

  /** A flight leaves the other side's writing as it was. */
  lemma StillClear(w: World, a: Conn, b: Conn, d: Conn, b1: Conn)
    requires Hailed(w, a, b) && Clear(b) && Terms(d, b1) && d.dec == a.dec
    ensures Clear(b1)
  {}

  lemma ClearByTerms(w: World, a: Conn, b: Conn, d: Conn, b1: Conn)
    requires Terms(a, b) && Clear(b) && Keyed(w, d, b1) && d.dec == a.dec
    ensures Clear(b1)
  {
    hide Derived;
  }

  lemma ClearByHail(w: World, a: Conn, b: Conn, d: Conn, b1: Conn)
    requires Hailed(w, a, b) && Clear(b) && Keyed(w, d, b1) && d.dec == a.dec
    ensures Clear(b1)
  {
    hide Derived;
  }

  /** After the last flight. */
  lemma BothSpoke(w: World, a: Conn, b: Conn, d: Conn, b1: Conn)
    requires Keyed(w, a, b) && Spoken(b) && Keyed(w, d, b1) && d.dec == a.dec && Spoken(d)
    requires d.hsState == b1.hsState == DONE && d.flags.resumed == b1.flags.resumed
    requires d.flags.readSecure && d.flags.writeSecure && b1.flags.readSecure && b1.flags.writeSecure
    requires d.cipher == a.cipher
    ensures Agreed(w, d, b1) && Spoken(b1)
  {
    hide Derived, Tabled, Used, BodySize, Agreed;
    assert b1.cipher == b.cipher && b1.enc == b.enc;
    KeyedAgree(w, d, b1);
  }

  lemma TermsBack(a: Conn, b: Conn)
    requires Terms(a, b)
    ensures Terms(b, a) && a.cipher == b.cipher
  {
    hide Tabled;
  }

  lemma KeyedBack(w: World, a: Conn, b: Conn)
    requires Keyed(w, a, b)
    ensures Keyed(w, b, a) && a.cipher == b.cipher
  {
    hide Derived, Tabled;
  }

  lemma {:induction false} ResumedHandshake(w: World, cut: Cut, a: Conn, s: Conn, b: Conn, wire: seq<byte>, room: nat,
                                            f: seq<Supply>)
    requires GoodWorld(w) && Lossless(cut) && |f| >= 3 && (forall k | 0 <= k < |f| :: Supplied(f[k])) && room >= AMPLE && Clear(a)
    requires Clear(b)
    requires Hailed(w, b, a) && b.flags.resumed && b.hsState == FINISHED
    requires Receive(w, s, wire, room, f[0]) == Respond(w, b, [], room, f[0])
    ensures Settled(w, Converse(w, cut, a, s, wire, room, f), true, b.cipher)
  {
    hide Receive, Respond, Converse, Hailed, Terms, Keyed, GoodWorld, Supplied, Agreed, Lossless, Clear, Spoken;
    HailedIsQuiet(w, b, a);
    TurnTaken(w, cut, a, s, wire, room, f);
    var d1 := Respond(w, b, [], room, f[0]);
    var a1 := ResumedFlight(w, b, a, f[0], room, f[1]);
    TurnTaken(w, cut, d1.conn, a, d1.result.wire, room, f[1..]);
    var d2 := Respond(w, a1, [], room, f[1]);
    KeyedBack(w, d1.conn, a1);
    ClearByHail(w, b, a, d1.conn, a1);
    var b2 := LastFlight(w, a1, d1.conn, f[1], room, f[2]);
    TurnTaken(w, cut, d2.conn, d1.conn, d2.result.wire, room, f[2..]);
    assert f[1..][0] == f[1] && f[2..][0] == f[2];
    assert f[1..][1..] == f[2..];
    BothSpoke(w, a1, d1.conn, d2.conn, b2);
  }

  /** Random bytes for the hello and for the answers, and a new session id other than the one the client asks for. */
  predicate Equipped(client: Conn, hello: Supply, f: seq<Supply>) {
    && |f| >= 4 && Supplied(hello) && (forall k | 0 <= k < |f| :: Supplied(f[k]))
    && (f[0].newId == [] || f[0].newId != client.sessionId)
  }

  /** Over a lossless ordered channel, whatever pieces the bytes arrive in, an honest handshake between a new client
      and a new server ends with both done and in agreement, in full or, when the server knows the session the
      client names, resumed. */
  lemma HandshakeAgrees(w: World, cut: Cut, client: Conn, server: Conn, cipherSpec: nat, hello: Supply, room: nat, f: seq<Supply>)
    requires Honest(w) && Lossless(cut) && Unmet(w, client, server) && Acceptable(w, client, cipherSpec) && room >= AMPLE
    requires Equipped(client, hello, f)
    ensures Settled(w, Meet(w, cut, client, server, cipherSpec, hello, room, f), Found(w, client.sessionId).Some?, Settles(w, client, cipherSpec))
  {
    hide Receive, Respond, Decode, Converse, EncodeClientHello, Hailed, Honest, GoodWorld, Unmet, Agreed, Found, Lossless, Clear,
         Settled, Settles;
    HonestIsGood(w);
    var t := EncodeClientHello(w, client, cipherSpec, room, hello);
    var b := ClientHelloDelivered(w, client, server, cipherSpec, hello, room, f[0]);
    ReceiveMore(w, server, t.wire, room, f[0]);
    Answers(w, b, [], room, f[0]);
    if b.flags.resumed {
      ResumedHandshake(w, cut, t.conn, server, b, t.wire, room, f);
    } else {
      NewIdDiffers(t.conn, f[0].newId);
      FullHandshake(w, cut, t.conn, server, b, t.wire, room, f);
    }
  }

  lemma NewIdDiffers(s: Conn, sid: seq<byte>)
    requires (s.sessionId == [] || |s.sessionId| == SESSION_ID_SIZE) && (sid == [] || |sid| == SESSION_ID_SIZE)
    requires (sid == [] || sid != s.sessionId)
    ensures !SameSession(s, sid)
  {
    assert s.sessionId[..|s.sessionId|] == s.sessionId;
  }

  // ----- application data

  /** One side says something to the other. */
  datatype Saying = Saying(bySpeaker: bool, data: seq<byte>)

  /** Everything said, by either side in any order, is handed to the other side's caller as it was said. */
  ghost predicate AllHeard(w: World, cut: Cut, a: Conn, b: Conn, talk: seq<Saying>, room: nat, f: Supply)
    decreases talk
  {
    talk == [] ||
    var from, to := if talk[0].bySpeaker then a else b, if talk[0].bySpeaker then b else a;
    var sent := EncodeData(from, talk[0].data, room);
    var d := Feed(w, to, [], cut(sent.wire), room, f);
    && sent.code.Success? && d.result == ProcessData(talk[0].data) && d.rest == []
    && if talk[0].bySpeaker then AllHeard(w, cut, sent.conn, d.conn, talk[1..], room, f) else AllHeard(w, cut, d.conn, sent.conn, talk[1..], room, f)
  }

  /** The bytes one side has to encrypt for its part of a talk. */
  function Said(s: Suite, talk: seq<Saying>, bySpeaker: bool): nat
    decreases talk
  {
    if talk == [] then 0
    else (if talk[0].bySpeaker == bySpeaker then BodySize(s, |talk[0].data|) else 0) + Said(s, talk[1..], bySpeaker)
  }

  /** Nothing goes out that the cipher refuses. */
  lemma DataRefused(a: Conn, data: seq<byte>, room: nat)
    requires a.enc.Valid() && Allows(a.enc, 0) && |data| <= SSL_MAX_RECORD_LEN && !Allows(a.enc, BodySize(a.enc.suite, |data|))
    ensures !EncodeData(a, data, room).code.Success?
  {
    hide Seal, Takes, Moved, BodySize;
    SealMoves(a.enc, a.ver.maj, a.ver.min, APPLICATION_DATA, data);
  }

  lemma DataDelivered(w: World, a: Conn, b: Conn, data: seq<byte>, room: nat, f: Supply)
    requires Agreed(w, a, b) && 1 <= |data| <= SSL_MAX_PLAINTEXT_LEN && Allows(a.enc, BodySize(a.enc.suite, |data|))
    requires room >= AMPLE
    ensures var sent := EncodeData(a, data, room); var d := Decode(w, b, sent.wire, room, f);
            && sent.code.Success? && d.result == ProcessData(data) && d.rest == [] && Agreed(w, sent.conn, d.conn)
            && Moved(a.enc, sent.conn.enc, BodySize(a.enc.suite, |data|)) && d.conn.enc == b.enc
  {
    hide Open, Send, Derived, Tabled, BodySize;
    RecordFits(a.enc, |data|);
    Arrives(a, b, APPLICATION_DATA, data, [], room, room);
    var t := Send(a, room, APPLICATION_DATA, data);
    assert t.wire + [] == t.wire;
    DerivedFrame(w, a, t.conn);
    DerivedFrame(w, b, Decode(w, b, t.wire, room, f).conn);
  }

  lemma RecordFits(d: Direction, n: nat)
    requires d.Valid()
    ensures RecordSize(d.suite, n) <= SSL3_HEADER_LEN + n + 28
  {}

  /** The decoder hands out no record that is empty or longer than 16384 bytes. */
  lemma {:induction false} DataBounds(w: World, s: Conn, input: seq<byte>, room: nat, f: Supply)
    ensures var r := DecodeMore(w, s, input, room, f).result; r.ProcessData? ==> 1 <= |r.data| <= SSL_MAX_PLAINTEXT_LEN
    decreases |input|
  {
    hide Respond, ParseHandshake, ActivateRead, Open;
    forall t, rest ensures !Respond(w, t, rest, room, f).result.ProcessData? {
      Answers(w, t, rest, room, f);
    }
    var o := Open(s.dec, VersionSettled(s), s.ver.maj, s.ver.min, input, room);
    OpenBounds(s.dec, VersionSettled(s), s.ver.maj, s.ver.min, input, room);
    if o.Opened? {
      var s1 := s.(dec := o.next);
      DataBounds(w, ActivateRead(s1), input[o.size..], room, f);
      DataBounds(w, s1.(ignored := s.ignored + 1), input[o.size..], room, f);
    }
  }

  lemma OpenBounds(d: Direction, check: bool, maj: byte, min: byte, input: seq<byte>, room: nat)
    ensures var o := Open(d, check, maj, min, input, room); o.Opened? ==> |o.data| <= SSL_MAX_PLAINTEXT_LEN
  {
    hide Mac, NextSeq;
  }

  /** Given room, the encoder takes up to 18432 bytes that the cipher still takes, but only those of 1 to 16384 reach
      the other side's caller: a longer record is refused there and an empty one dropped. */
  lemma DeliveredExactly(w: World, a: Conn, b: Conn, data: seq<byte>, room: nat, f: Supply)
    requires Agreed(w, a, b) && room >= AMPLE
    ensures var sent := EncodeData(a, data, room); var fits := Allows(a.enc, BodySize(a.enc.suite, |data|));
            && (sent.code.Success? <==> |data| <= SSL_MAX_RECORD_LEN && fits)
            && (sent.code.Success? && Decode(w, b, sent.wire, room, f).result == ProcessData(data) <==> 1 <= |data| <= SSL_MAX_PLAINTEXT_LEN && fits)
  {
    hide Send, DecodeMore, Derived, Tabled, Allows, BodySize, RecordSize;
    DataBounds(w, b, EncodeData(a, data, room).wire, room, f);
    if |data| <= SSL_MAX_RECORD_LEN {
      if Allows(a.enc, BodySize(a.enc.suite, |data|)) {
        DataTaken(a, data, room);
      } else {
        DataRefused(a, data, room);
      }
    }
    if 1 <= |data| <= SSL_MAX_PLAINTEXT_LEN && Allows(a.enc, BodySize(a.enc.suite, |data|)) {
      DataDelivered(w, a, b, data, room, f);
    }
  }

  lemma DataTaken(a: Conn, data: seq<byte>, room: nat)
    requires a.enc.Valid() && |data| <= SSL_MAX_RECORD_LEN && Allows(a.enc, BodySize(a.enc.suite, |data|)) && room >= AMPLE
    ensures Send(a, room, APPLICATION_DATA, data).code.Success?
  {
    hide Seal, Takes, Moved, BodySize, Allows;
    RecordFits(a.enc, |data|);
    AllowsLess(a.enc, BodySize(a.enc.suite, |data|));
    SealMoves(a.enc, a.ver.maj, a.ver.min, APPLICATION_DATA, data);
  }

  lemma AgreedBack(w: World, a: Conn, b: Conn)
    requires Agreed(w, a, b)
    ensures Agreed(w, b, a)
  {
    hide Derived;
  }

  lemma DataArrives(w: World, cut: Cut, a: Conn, b: Conn, data: seq<byte>, room: nat, f: Supply)
    requires Agreed(w, a, b) && Lossless(cut) && 1 <= |data| <= SSL_MAX_PLAINTEXT_LEN && room >= AMPLE
    ensures var sent := EncodeData(a, data, room); var d := Feed(w, b, [], cut(sent.wire), room, f); var n := BodySize(a.enc.suite, |data|);
            && (sent.code.Success? <==> Allows(a.enc, n))
            && (sent.code.Success? ==> d.result == ProcessData(data) && d.rest == [] && Agreed(w, sent.conn, d.conn)
                                       && Moved(a.enc, sent.conn.enc, n) && d.conn.enc == b.enc)
  {
    hide Agreed, Decode, EncodeData, Feed, Moved, BodySize, Allows;
    AgreedIsValid(w, a, b);
    if Allows(a.enc, BodySize(a.enc.suite, |data|)) {
      var wire := EncodeData(a, data, room).wire;
      DataDelivered(w, a, b, data, room, f);
      FeedIsReceive(w, b, [], cut(wire), room, f);
      assert [] + wire == wire;
      ReceiveMore(w, b, wire, room, f);
    } else {
      DataRefused(a, data, room);
    }
  }

  lemma AgreedIsValid(w: World, a: Conn, b: Conn)
    requires Agreed(w, a, b)
    ensures a.enc.Valid() && Allows(a.enc, 0) && b.enc.Valid() && Allows(b.enc, 0)
  {
    hide Allows, Derived;
  }

  /** After a handshake, in any interleaving of the two directions and in whatever pieces, all records of 1 to 16384
      bytes arrive if and only if in each direction they fit what is left of the cipher's limit. */
  lemma {:induction false} TalkIsHeard(w: World, cut: Cut, a: Conn, b: Conn, talk: seq<Saying>, room: nat, f: Supply)
    requires Agreed(w, a, b) && Lossless(cut) && room >= AMPLE
    requires forall k | 0 <= k < |talk| :: 1 <= |talk[k].data| <= SSL_MAX_PLAINTEXT_LEN
    ensures AllHeard(w, cut, a, b, talk, room, f) <==> Allows(a.enc, Said(a.enc.suite, talk, true)) && Allows(b.enc, Said(b.enc.suite, talk, false))
    decreases talk
  {
    hide Agreed, Feed, EncodeData, Lossless, BodySize;
    AgreedIsValid(w, a, b);
    if talk != [] {
      if talk[0].bySpeaker {
        DataArrives(w, cut, a, b, talk[0].data, room, f);
        var sent := EncodeData(a, talk[0].data, room);
        if sent.code.Success? {
          TalkIsHeard(w, cut, sent.conn, Feed(w, b, [], cut(sent.wire), room, f).conn, talk[1..], room, f);
        }
      } else {
        AgreedBack(w, a, b);
        DataArrives(w, cut, b, a, talk[0].data, room, f);
        var sent := EncodeData(b, talk[0].data, room);
        if sent.code.Success? {
          var d := Feed(w, a, [], cut(sent.wire), room, f);
          AgreedBack(w, sent.conn, d.conn);
          TalkIsHeard(w, cut, d.conn, sent.conn, talk[1..], room, f);
        }
      }
    }
  }

  /** What one side may encrypt of a talk after the handshake; a cipher without a limit takes all of it. */
  ghost predicate WithinLimit(s: Suite, talk: seq<Saying>, bySpeaker: bool) {
    s.limit.Some? ==> BodySize(s, FINISHED_MESSAGE) + Said(s, talk, bySpeaker) <= s.limit.value
  }

  /** From the first byte of an honest handshake: all that is said afterwards arrives if and only if each side's
      records, with the Finished message already sent, stay within the limit of the suite agreed on. */
  lemma ConversationIsHeard(w: World, cut: Cut, client: Conn, server: Conn, cipherSpec: nat, hello: Supply, room: nat,
                            f: seq<Supply>,
                            talk: seq<Saying>, g: Supply)
    requires Honest(w) && Lossless(cut) && Unmet(w, client, server) && Acceptable(w, client, cipherSpec) && room >= AMPLE
    requires Equipped(client, hello, f)
    requires forall k | 0 <= k < |talk| :: 1 <= |talk[k].data| <= SSL_MAX_PLAINTEXT_LEN
    ensures var e := Meet(w, cut, client, server, cipherSpec, hello, room, f); var s := Settles(w, client, cipherSpec);
            AllHeard(w, cut, e.speaker, e.listener, talk, room, g) <==> WithinLimit(s, talk, true) && WithinLimit(s, talk, false)
  {
    hide Meet, Found, Honest, Lossless, Unmet, Acceptable, AllHeard, Said, BodySize, Derived, Settles;
    HandshakeAgrees(w, cut, client, server, cipherSpec, hello, room, f);
    var e := Meet(w, cut, client, server, cipherSpec, hello, room, f);
    TalkIsHeard(w, cut, e.speaker, e.listener, talk, room, g);
  }
}
