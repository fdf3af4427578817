/** What holds on every run of a connection up to the end of its first handshake. */
module HandshakeSafety {
  import opened MpBytes
  import opened Record
  import opened Keys
  import opened Handshake
  import opened Options

  // ----- the invariant

  /** The active read suite is the negotiated one with the derived secret, and it is not the null suite. */
  ghost predicate Ready(w: World, s: Conn) {
    s.cipher.id != SSL_NULL_WITH_NULL_NULL && Derived(w, s) && s.dec.suite == s.cipher && s.dec.key == s.sec.keys.rMac
  }

  /** The states each side can be in. */
  ghost predicate Roles(server: bool, hsState: nat) {
    if server then hsState == CLIENT_HELLO || hsState == CLIENT_KEY_EXCHANGE || hsState == FINISHED || hsState == DONE
    else hsState != CLIENT_HELLO && hsState != CLIENT_KEY_EXCHANGE
  }

  ghost predicate Basic(w: World, s: Conn) {
    s.enc.Valid() && s.dec.Valid() && Tabled(s.cipher) && Roles(s.flags.server, s.hsState)
  }

  /** The read side is as the state demands, whatever else is going on. */
  ghost predicate Shape(w: World, s: Conn) {
    && Basic(w, s)
    && (s.flags.readSecure ==> (s.hsState == FINISHED || s.hsState == DONE) && Ready(w, s))
    && (!s.flags.readSecure ==> !s.dec.Secure() && s.hsState != DONE)
  }

  /** What every call keeps: besides the shape, a connection that waits for a Finished message and has nothing
      left to send has derived its keys, and an error has been or is about to be answered. */
  ghost predicate Inv(w: World, s: Conn) {
    && Shape(w, s)
    && (s.hsState == FINISHED && !s.flags.needEncode && !s.flags.error ==> Derived(w, s))
    && (s.hsState == FINISHED && s.flags.needEncode && s.err == NO_ERROR ==> !s.flags.readSecure && (s.flags.server ==> s.flags.resumed))
    && (s.err != NO_ERROR ==> s.flags.error || s.flags.needEncode)
  }

  ghost predicate Clean(s: Conn) {
    !s.flags.needEncode && !s.flags.error && s.err == NO_ERROR
  }

  /** After a message has been read, before it is answered. */
  ghost predicate Post(w: World, s: Conn, respond: bool) {
    && Shape(w, s) && Clean(s) && (s.flags.readSecure ==> s.hsState == DONE)
    && (s.hsState == FINISHED && !respond ==> Derived(w, s))
    && (s.hsState == FINISHED && respond && s.flags.server ==> s.flags.resumed)
  }

  /** Whether the keys are derived depends on the secret, the random numbers, the suite and the side. */
  lemma DerivedFrame(w: World, s: Conn, t: Conn)
    requires t.cipher == s.cipher && t.flags.server == s.flags.server && t.sec.keys == s.sec.keys && t.sec.master == s.sec.master
    requires t.sec.clientRandom == s.sec.clientRandom && t.sec.serverRandom == s.sec.serverRandom
    ensures Derived(w, s) == Derived(w, t)
  {}

  /** No connection changes sides. */
  ghost predicate SameSide(s: Conn, t: Conn) {
    t.flags.server == s.flags.server
  }

  // ----- writing changes only the write side and the keys

  lemma SendKeeps(s: Conn, room: nat, kind: byte, data: seq<byte>)
    requires s.enc.Valid()
    ensures var t := Send(s, room, kind, data).conn; t == s.(enc := t.enc) && t.enc.Valid()
  {
    hide Protected, Header;
  }

  /** A handshake message also enters the transcript. */
  lemma MessageSentKeeps(s: Conn, room: nat, kind: byte, body: seq<byte>)
    requires s.enc.Valid()
    ensures var t := SendHandshake(s, room, kind, body).conn;
            t == s.(enc := t.enc, sec := s.sec.(transcript := t.sec.transcript)) && t.enc.Valid()
  {
    hide Send, Message;
    SendKeeps(Hear(s, Message(kind, body)), room, HANDSHAKE, Message(kind, body));
  }

  lemma KeysCreated(w: World, s: Conn)
    requires GoodWorld(w) && Tabled(s.cipher)
    ensures Derived(w, s.(sec := s.sec.(keys := CreateKeys(w, s))))
  {
    hide Chunks, Slice;
    ChunksLength(w.hashes, KeyIter(KeyLength(s.cipher)), s.sec.master, s.sec.serverRandom + s.sec.clientRandom);
  }

  lemma DeriveKeysDerives(w: World, s: Conn)
    requires GoodWorld(w) && Tabled(s.cipher)
    ensures var t := DeriveKeys(w, s); Derived(w, t) && t == s.(sec := t.sec)
    ensures DeriveKeys(w, s).sec.transcript == s.sec.transcript
  {
    hide CreateKeys, MasterSecret, Derived, Tabled;
    KeysCreated(w, DeriveMaster(w, s));
  }

  /** Only what concerns sending has changed. */
  ghost predicate WriteOnly(s: Conn, t: Conn) {
    && t == s.(enc := t.enc, flags := s.flags.(writeSecure := t.flags.writeSecure),
               sec := s.sec.(transcript := t.sec.transcript, cert := t.sec.cert))
    && t.enc.Valid()
  }

  lemma ActivatedValid(d: Direction, s: Suite, mac: seq<byte>, key: seq<byte>, iv: seq<byte>)
    requires Sound(s) || IsNull(s)
    ensures Activated(d, s, mac, key, iv).Valid() && Activated(d, s, mac, key, iv).suite == s
  {}

  lemma ChangeCipherSpecKeeps(w: World, s: Conn, room: nat)
    requires Basic(w, s)
    ensures WriteOnly(s, WriteChangeCipherSpec(s, room).conn)
  {
    hide Send;
    SendKeeps(s, room, CHANGE_CIPHER_SPEC, [1]);
    ActivatedValid(Send(s, room, CHANGE_CIPHER_SPEC, [1]).conn.enc, s.cipher, s.sec.keys.wMac, s.sec.keys.wKey, s.sec.keys.wIv);
  }

  lemma FinishedKeeps(w: World, s: Conn, room: nat)
    requires s.enc.Valid()
    ensures WriteOnly(s, WriteFinished(w, s, room).conn)
  {
    hide FinishedHash, SendHandshake;
    MessageSentKeeps(s, room, FINISHED, FinishedHash(w.hashes, s.sec.master, s.sec.transcript, Sender(s.flags.server)));
  }

  lemma SwitchKeeps(w: World, s: Conn, room: nat)
    requires Basic(w, s)
    ensures WriteOnly(s, WriteSwitch(w, s, room).conn)
  {
    hide WriteChangeCipherSpec, WriteFinished;
    ChangeCipherSpecKeeps(w, s, room);
    var a := WriteChangeCipherSpec(s, room);
    FinishedKeeps(w, a.conn, Left(room, a));
  }

  /** Only what concerns sending and the keys has changed. */
  ghost predicate WriteAndKeys(s: Conn, t: Conn) {
    t == s.(enc := t.enc, sec := t.sec, sessionId := t.sessionId) && t.enc.Valid()
  }

  lemma ServerHelloKeeps(w: World, s: Conn, room: nat, f: Supply)
    requires GoodWorld(w) && Basic(w, s)
    ensures var a := WriteServerHello(w, s, room, f);
            WriteAndKeys(s, a.conn) && (a.code.Success? && s.flags.resumed ==> Derived(w, a.conn))
  {
    hide SendHandshake, ServerHelloBody, RegisteredId, DeriveKeys, Derived, Tabled;
    var s1 := s.(sec := s.sec.(serverRandom := f.random), sessionId := RegisteredId(s, f));
    MessageSentKeeps(s1, room, SERVER_HELLO, ServerHelloBody(s1.ver.maj, s1.ver.min, s1.sec.serverRandom, s1.sessionId, s1.cipher.id));
    DeriveKeysDerives(w, SendServerHello(s, room, f).conn);
  }

  lemma KeyExchangeKeeps(w: World, s: Conn, room: nat, cert: seq<byte>, f: Supply)
    requires GoodWorld(w) && Basic(w, s)
    ensures var a := WriteClientKeyExchange(w, s, room, cert, f);
            WriteAndKeys(s, a.conn) && (a.code.Success? ==> Derived(w, a.conn))
  {
    hide SendHandshake, DeriveKeys, Derived, Tabled;
    var premaster := [s.ver.reqMaj, s.ver.reqMin] + f.secret;
    var s1 := s.(sec := s.sec.(premaster := premaster));
    var body := w.encryptPub(cert, premaster, f.padding);
    MessageSentKeeps(s1, room, CLIENT_KEY_EXCHANGE, body);
    DeriveKeysDerives(w, SendHandshake(s1, room, CLIENT_KEY_EXCHANGE, body).conn);
  }

  // ----- reading one message

  lemma ChooseIsTabled(w: World, ids: seq<nat>)
    requires GoodWorld(w)
    ensures Choose(w, ids).Some? ==> Tabled(Choose(w, ids).value)
  {}

  /** Only what a hello message says has been noted. */
  ghost predicate Noted(s: Conn, t: Conn) {
    t == s.(ver := t.ver, cipher := t.cipher, sec := t.sec, sessionId := t.sessionId,
            flags := s.flags.(resumed := t.flags.resumed, clientAuth := t.flags.clientAuth))
  }

  /** What holds after one message: an alert, or a state that may go on. */
  ghost predicate BodyRead(w: World, s: Conn, p: Handshake.Parsed) {
    match p
    case Fail(alert, at) => alert != NO_ERROR && Shape(w, at) && Clean(at) && at.hsState != DONE && SameSide(s, at)
    case Go(next, _, respond) => Post(w, next, respond) && SameSide(s, next)
  }

  lemma NotedKeeps(w: World, s: Conn, t: Conn)
    requires Shape(w, s) && Clean(s) && !s.flags.readSecure && Noted(s, t) && Tabled(t.cipher)
    ensures Shape(w, t) && Clean(t) && t.hsState != DONE && !t.flags.readSecure
  {
    hide Tabled, Derived;
  }

  lemma FoundIsNoted(w: World, s: Conn, sid: seq<byte>)
    requires GoodWorld(w) && Tabled(s.cipher)
    ensures Noted(s, FindSession(w, s, sid)) && Tabled(FindSession(w, s, sid).cipher)
  {
    hide Tabled;
  }

  lemma OfferKeeps(w: World, s: Conn, c: seq<byte>)
    requires GoodWorld(w) && Shape(w, s) && Clean(s) && !s.flags.readSecure && s.hsState == CLIENT_HELLO
    ensures var p := ReadOffer(w, s, c); BodyRead(w, s, p) && (p.Go? ==> p.used == |c| && p.next.hsState != DONE)
  {
    hide Ready, Derived, Tabled, HelloTail, SuiteIds, Choose;
    NotedKeeps(w, s, s.(cipher := w.plain));
    if |c| >= 2 && |c| - 2 >= IdOf(c) {
      var ids := SuiteIds(c[2..2 + IdOf(c)]);
      ChooseIsTabled(w, ids);
      var chosen := Negotiate(w, s, ids);
      if chosen.Some? {
        NotedKeeps(w, s, s.(cipher := chosen.value));
      }
    }
  }

  lemma Hello3Keeps(w: World, s: Conn, c: seq<byte>)
    requires GoodWorld(w) && Shape(w, s) && Clean(s) && !s.flags.readSecure && s.hsState == CLIENT_HELLO && |c| >= 2
    ensures var p := ReadHello3(w, s, c); BodyRead(w, s, p) && (p.Go? ==> p.used == |c| && p.next.hsState != DONE)
  {
    hide Shape, Post, Tabled, ReadOffer, FindSession, HelloStart;
    match HelloStart(c)
    case BadHello =>
    case Hello(random, sid, rest) =>
      var s1 := s.(sec := s.sec.(clientRandom := random));
      ShapeIsTabled(w, s);
      NotedKeeps(w, s, s1);
      if sid.Some? {
        FoundIsNoted(w, s1, sid.value);
        NotedKeeps(w, s1, FindSession(w, s1, sid.value));
        OfferKeeps(w, FindSession(w, s1, sid.value), rest);
      }
  }

  lemma ShapeIsTabled(w: World, s: Conn)
    requires Shape(w, s)
    ensures Tabled(s.cipher) && s.dec.Valid()
  {
    hide Tabled;
  }

  lemma LongHelloKeeps(w: World, s: Conn, list: seq<byte>, challenge: seq<byte>, used: nat)
    requires GoodWorld(w) && Shape(w, s) && Clean(s) && !s.flags.readSecure && s.hsState == CLIENT_HELLO
    requires |challenge| <= RANDOM_SIZE
    ensures var p := TakeLongHello(w, s, list, challenge, used); BodyRead(w, s, p) && (p.Go? ==> p.used == used && p.next.hsState != DONE)
  {
    hide Shape, Tabled, LongIds, Choose, Repeat;
    NotedKeeps(w, s, s.(cipher := w.plain));
    ChooseIsTabled(w, LongIds(list));
    var chosen := Choose(w, LongIds(list));
    if chosen.Some? {
      LongHelloDone(w, s, s.(cipher := chosen.value, sec := s.sec.(clientRandom := Repeat(0, RANDOM_SIZE - |challenge|) + challenge)));
    }
  }

  lemma Hello2Keeps(w: World, s: Conn, c: seq<byte>)
    requires GoodWorld(w) && Shape(w, s) && Clean(s) && !s.flags.readSecure && s.hsState == CLIENT_HELLO && |c| >= 2
    ensures var p := ReadHello2(w, s, c); BodyRead(w, s, p) && (p.Go? ==> p.used == |c| && p.next.hsState != DONE)
  {
    hide Shape, Tabled, TakeLongHello;
    ShapeIsTabled(w, s);
    if |c| - 2 >= 6 {
      var n, challenge := IdOf(c[2..]), IdOf(c[6..]);
      NotedKeeps(w, s, s.(sessionId := []));
      if 16 <= challenge <= 32 && |c| - 8 == n + challenge {
        LongHelloKeeps(w, s.(sessionId := []), c[8..8 + n], c[8 + n..], |c|);
      }
    }
  }

  lemma LongHelloDone(w: World, s: Conn, t: Conn)
    requires GoodWorld(w) && Shape(w, s) && Clean(s) && !s.flags.readSecure && s.hsState == CLIENT_HELLO && Noted(s, t)
    requires Tabled(t.cipher)
    ensures var u := AfterClientHello(t); Post(w, u, true) && u.hsState != DONE
  {
    hide Tabled, Ready, Derived;
    NotedKeeps(w, s, t);
  }

  lemma ClientHelloKeeps(w: World, s: Conn, recMaj: byte, c: seq<byte>)
    requires GoodWorld(w) && Shape(w, s) && Clean(s) && s.hsState == CLIENT_HELLO
    ensures var p := ReadClientHello(w, s, recMaj, c); BodyRead(w, s, p) && (p.Go? ==> p.used == |c| && p.next.hsState != DONE)
  {
    hide Tabled, Ready, Derived, ReadHello2, ReadHello3;
    if |c| >= 2 {
      NotedKeeps(w, s, s.(ver := s.ver.(reqMaj := c[0], reqMin := c[1])));
      var s1 := s.(ver := Versions(c[0], 0, c[0], c[1]));
      NotedKeeps(w, s, s1);
      Hello2Keeps(w, s1, c);
      Hello3Keeps(w, s1, c);
    }
  }

  /** Everything but the suite, the master secret, the session id and the resumption flag is the same. */
  ghost predicate SameControl(s: Conn, t: Conn) {
    t == s.(flags := s.flags.(resumed := t.flags.resumed), cipher := t.cipher, sec := s.sec.(master := t.sec.master), sessionId := t.sessionId)
  }

  lemma AgreeSessionKeeps(w: World, s: Conn, sid: seq<byte>)
    ensures var t := AgreeSession(w, s, sid);
            SameControl(s, t) && (t.cipher == s.cipher || t.cipher == w.plain)
  {
    hide SameSession, Repeat;
    var t := AgreeSession(w, s, sid);
    if SameSession(s, sid) {
      assert t.sec == s.sec.(master := s.sec.master);
    } else if s.sessionId == [] {
      assert t.flags == s.flags.(resumed := s.flags.resumed) && t.sec == s.sec.(master := s.sec.master);
    } else {
      assert t.sec == s.sec.(master := t.sec.master) && t.flags == s.flags.(resumed := false);
    }
  }

  lemma DeriveAndExpectFinished(w: World, s: Conn)
    requires GoodWorld(w) && Shape(w, s) && Clean(s) && !s.flags.readSecure
    ensures Post(w, DeriveKeys(w, s).(hsState := FINISHED), false)
  {
    hide Derived, DeriveKeys, Tabled;
    DeriveKeysDerives(w, s);
    DerivedFrame(w, DeriveKeys(w, s), DeriveKeys(w, s).(hsState := FINISHED));
  }

  lemma ChoiceIsTabled(w: World, s: Conn, id: nat)
    requires GoodWorld(w) && Tabled(s.cipher)
    ensures ServerChoice(w, s, id).Some? ==> Tabled(ServerChoice(w, s, id).value)
  {
    hide Tabled;
  }

  lemma AfterServerHelloKeeps(w: World, s: Conn)
    requires GoodWorld(w) && Shape(w, s) && Clean(s) && !s.flags.readSecure && !s.flags.server
    ensures var t := AfterServerHello(w, s); Post(w, t, false) && !t.flags.server && t.hsState != DONE
  {
    hide Derived, DeriveKeys, Tabled;
    DeriveKeysDerives(w, s);
    DeriveAndExpectFinished(w, s);
  }

  lemma ServerChoiceKeeps(w: World, s: Conn, c: seq<byte>)
    requires GoodWorld(w) && Shape(w, s) && Clean(s) && !s.flags.readSecure && !s.flags.server
    ensures var p := ReadChoice(w, s, c); BodyRead(w, s, p) && (p.Go? ==> !p.respond && p.next.hsState != DONE)
  {
    hide Derived, Tabled, Ready, ServerChoice, AfterServerHello;
    if |c| >= 2 {
      var chosen := ServerChoice(w, s, IdOf(c));
      ChoiceIsTabled(w, s, IdOf(c));
      NotedKeeps(w, s, s.(cipher := w.plain));
      if chosen.Some? {
        NotedKeeps(w, s, s.(cipher := chosen.value));
        AfterServerHelloKeeps(w, s.(cipher := chosen.value));
      }
    }
  }

  lemma ServerHelloReadKeeps(w: World, s: Conn, c: seq<byte>)
    requires GoodWorld(w) && Shape(w, s) && Clean(s) && s.hsState == SERVER_HELLO
    ensures var p := ReadServerHello(w, s, c); BodyRead(w, s, p) && (p.Go? ==> !p.respond && p.next.hsState != DONE)
  {
    hide Derived, Tabled, Ready, AgreeSession, ReadChoice, HelloStart;
    if |c| >= 2 {
      var s1 := s.(ver := s.ver.(reqMaj := c[0], reqMin := c[1]));
      NotedKeeps(w, s, s1);
      match HelloStart(c)
      case BadHello =>
      case Hello(random, sid, rest) =>
        var s2 := s1.(sec := s1.sec.(serverRandom := random));
        NotedKeeps(w, s1, s2);
        if sid.Some? {
          AgreeSessionKeeps(w, s2, sid.value);
          NotedKeeps(w, s2, AgreeSession(w, s2, sid.value));
          ServerChoiceKeeps(w, AgreeSession(w, s2, sid.value), rest);
        }
    }
  }

  lemma KeyExchangeReadKeeps(w: World, s: Conn, c: seq<byte>, hsLen: nat)
    requires GoodWorld(w) && Shape(w, s) && Clean(s) && s.hsState == CLIENT_KEY_EXCHANGE
    ensures var p := ReadClientKeyExchange(w, s, c, hsLen); BodyRead(w, s, p) && (p.Go? ==> !p.respond && p.next.hsState != DONE)
  {
    hide Derived, DeriveKeys, Tabled, Ready, VersionKept;
    if |c| >= hsLen && w.decryptPriv(c[..hsLen]).Some? {
      var s1 := s.(sec := s.sec.(premaster := w.decryptPriv(c[..hsLen]).value));
      NotedKeeps(w, s, s1);
      DeriveKeysDerives(w, s1);
      DeriveAndExpectFinished(w, s1);
    }
  }

  lemma FinishedReadKeeps(w: World, s: Conn, c: seq<byte>, hsLen: nat, hash: seq<byte>)
    requires GoodWorld(w) && Shape(w, s) && Clean(s) && s.hsState == FINISHED
    ensures var p := ReadFinished(s, c, hsLen, hash);
            && BodyRead(w, s, p)
            && (p.Go? ==> p.next.hsState == DONE && s.flags.readSecure && hsLen == FINISHED_SIZE && |c| >= FINISHED_SIZE && c[..FINISHED_SIZE] == hash)
  {
    hide Derived, Tabled;
    DerivedFrame(w, s, s.(hsState := DONE, sec := s.sec.(cert := None)));
  }

  lemma CheckedKeeps(w: World, s: Conn, c: seq<byte>, hsLen: nat, hash: seq<byte>)
    requires GoodWorld(w) && Shape(w, s) && Clean(s) && (s.hsState == CERTIFICATE || s.hsState == CERTIFICATE_REQUEST)
    ensures var p := ReadBody(w, s, 3, c, hsLen, hash); BodyRead(w, s, p) && (p.Go? ==> !p.respond && p.next.hsState != DONE)
  {
    hide Derived, Tabled, Ready;
  }

  /** Reading one message either fails with an alert or leaves the read side in order; the handshake is
      done only by a Finished message on a secure connection. */
  lemma BodyKeeps(w: World, s: Conn, recMaj: byte, c: seq<byte>, hsLen: nat, hash: seq<byte>)
    requires GoodWorld(w) && Shape(w, s) && Clean(s) && s.hsState != DONE
    ensures var p := ReadBody(w, s, recMaj, c, hsLen, hash);
            && BodyRead(w, s, p)
            && (p.Go? && s.flags.server && p.respond && p.used < |c| ==> p.next.hsState == DONE)
            && (p.Go? && p.next.hsState == DONE ==>
                  s.hsState == FINISHED && s.flags.readSecure && hsLen == FINISHED_SIZE && |c| >= FINISHED_SIZE && c[..FINISHED_SIZE] == hash)
  {
    hide ReadClientHello, ReadServerHello, ReadClientKeyExchange, ReadFinished, ReadCertificate, Checked, Derived, Tabled, Ready;
    if s.hsState == CLIENT_HELLO {
      ClientHelloKeeps(w, s, recMaj, c);
    } else if s.hsState == SERVER_HELLO {
      ServerHelloReadKeeps(w, s, c);
    } else if s.hsState == CLIENT_KEY_EXCHANGE {
      KeyExchangeReadKeeps(w, s, c, hsLen);
    } else if s.hsState == FINISHED {
      FinishedReadKeeps(w, s, c, hsLen, hash);
    } else if s.hsState == CERTIFICATE || s.hsState == CERTIFICATE_REQUEST {
      CheckedKeeps(w, s, c, hsLen, hash);
    }
  }

  // ----- reading the messages of a record

  lemma ExpectingKeeps(w: World, s: Conn, kind: byte)
    requires GoodWorld(w) && Shape(w, s) && Clean(s) && s.hsState != DONE && Expecting(s, kind).Some?
    ensures var t := Expecting(s, kind).value;
            && Shape(w, t) && Clean(t) && t.hsState != DONE && t.flags.server == s.flags.server
            && t.flags.readSecure == s.flags.readSecure
            && (t.hsState == FINISHED ==> t == s && kind == FINISHED)
  {
    hide Derived, Tabled;
    DerivedFrame(w, s, Expecting(s, kind).value);
  }

  /** The transcript plays no part in the read side. */
  lemma TranscriptKeeps(w: World, s: Conn, t: Conn)
    requires Shape(w, s) && Clean(s) && t == s.(sec := s.sec.(transcript := t.sec.transcript))
    ensures Shape(w, t) && Clean(t)
  {
    hide Derived, Tabled;
    DerivedFrame(w, s, t);
  }

  /** The record starts with a Finished message holding the expected hash. */
  ghost predicate FinishedFirst(w: World, s: Conn, recMaj: byte, data: seq<byte>) {
    var n := HeadLen(recMaj);
    s.hsState == FINISHED && s.flags.readSecure && |data| >= n + FINISHED_SIZE && data[0] == FINISHED && data[n..n + FINISHED_SIZE] == PeerFinished(w, s)
  }

  /** What holds after the messages of a record. */
  ghost predicate Parsed(w: World, s: Conn, recMaj: byte, data: seq<byte>, h: Handled) {
    match h
    case Stopped(alert, at) => alert != NO_ERROR && Shape(w, at) && Clean(at) && at.hsState != DONE && SameSide(s, at)
    case Ok(next, r) =>
      Post(w, next, r) && (next.hsState == DONE ==> FinishedFirst(w, s, recMaj, data)) && SameSide(s, next)
    case Ended(next, r, left) =>
      Post(w, next, r) && next.hsState == DONE && FinishedFirst(w, s, recMaj, data) && SameSide(s, next)
  }

  /** One message keeps the read side in order, and ends the handshake only if it is a Finished message that
      equals the hash of the transcript before it. */
  lemma MessageKeeps(w: World, s: Conn, recMaj: byte, whole: seq<byte>, data: seq<byte>)
    requires GoodWorld(w) && Shape(w, s) && Clean(s) && s.hsState != DONE
    ensures match ReadMessage(w, s, recMaj, whole, data)
            case NotTaken(alert, at) =>
              alert != NO_ERROR && Shape(w, at) && Clean(at) && at.hsState != DONE && SameSide(s, at)
            case Taken(next, size, now) =>
              && Post(w, next, now) && SameSide(s, next)
              && (next.hsState == DONE ==> FinishedFirst(w, s, recMaj, data))
              && (s.flags.server && now && size < |data| ==> next.hsState == DONE)
  {
    hide Ready, Derived, Tabled, ReadBody, PeerFinished, Shape, Clean, Post, Expecting, Hear, Hashed, BodyLength;
    if data != [] && Expecting(s, data[0]).Some? {
      ExpectingKeeps(w, s, data[0]);
      var s0 := Expecting(s, data[0]).value;
      var s1 := Started(s0, data[0]);
      TranscriptKeeps(w, s0, s1);
      HeaderRead(recMaj, |whole|, data);
      match BodyLength(recMaj, |whole|, data)
      case None =>
      case Some(hsLen) =>
        var n := HeadLen(recMaj);
        HearingKeeps(w, s1, Hashed(recMaj, whole, data, hsLen));
        var s2 := Hear(s1, Hashed(recMaj, whole, data, hsLen));
        BodyKeeps(w, s2, recMaj, data[n..], hsLen, PeerFinished(w, s1));
        SliceBehind(data, n, FINISHED_SIZE);
    }
  }

  lemma SliceBehind(data: seq<byte>, n: nat, k: nat)
    ensures |data| >= n + k ==> data[n..][..k] == data[n..n + k]
  {}

  lemma HeaderRead(recMaj: byte, size: nat, data: seq<byte>)
    requires data != []
    ensures BodyLength(recMaj, size, data).Some? ==> |data| >= HeadLen(recMaj) && (recMaj >= 3 ==> |data| >= 4 + BodyLength(recMaj, size, data).value)
  {}

  lemma HearingKeeps(w: World, s: Conn, m: seq<byte>)
    requires Shape(w, s) && Clean(s)
    ensures var t := Hear(s, m); Shape(w, t) && Clean(t) && t.hsState == s.hsState && t.flags == s.flags
  {
    hide Shape, Clean;
    TranscriptKeeps(w, s, Hear(s, m));
  }

  /** All messages of a record keep the read side in order, and the handshake is done only when the record
      starts with a Finished message that equals the hash of the transcript before it. */
  lemma {:induction false} ParseKeeps(w: World, s: Conn, recMaj: byte, whole: seq<byte>, data: seq<byte>, respond: bool)
    requires GoodWorld(w) && Shape(w, s) && Clean(s) && s.hsState != DONE && (respond ==> !s.flags.server)
    ensures Parsed(w, s, recMaj, data, ParseHandshake(w, s, recMaj, whole, data, respond))
    decreases |data|
  {
    hide Ready, Derived, Tabled, ReadMessage;
    MessageKeeps(w, s, recMaj, whole, data);
    match ReadMessage(w, s, recMaj, whole, data)
    case NotTaken(_, _) =>
    case Taken(next, size, now) =>
      if size < |data| && next.hsState != DONE {
        ParseKeeps(w, next, recMaj, whole, data[size..], respond || now);
      }
  }

  // ----- answering

  lemma WriteOnlyKeeps(w: World, s: Conn, t: Conn)
    requires Shape(w, s) && WriteOnly(s, t)
    ensures Shape(w, t)
  {
    hide Derived, Tabled;
    DerivedFrame(w, s, t);
  }

  /** What an answer leaves unchanged. */
  ghost predicate SameState(s: Conn, t: Conn) {
    && t.hsState == s.hsState && t.err == s.err && t.cipher == s.cipher && t.dec == s.dec
    && t.flags == s.flags.(writeSecure := t.flags.writeSecure)
  }

  /** What holds after a flight: with all of it written, the keys are derived if Finished is expected. */
  ghost predicate Answered(w: World, s: Conn, a: Flight) {
    SameState(s, a.conn) && Shape(w, a.conn) && (s.hsState == FINISHED && a.code.Success? ==> Derived(w, a.conn))
  }

  /** A change of cipher in any state; the keys were derived before. */
  lemma SwitchAnswers(w: World, s: Conn, room: nat)
    requires GoodWorld(w) && Shape(w, s) && (s.hsState == FINISHED ==> Derived(w, s))
    ensures Answered(w, s, WriteSwitch(w, s, room))
  {
    hide WriteSwitch, Derived, Tabled, Ready;
    SwitchKeeps(w, s, room);
    WriteOnlyKeeps(w, s, WriteSwitch(w, s, room).conn);
    DerivedFrame(w, s, WriteSwitch(w, s, room).conn);
  }

  lemma KeysKeepShape(w: World, s: Conn, t: Conn)
    requires Shape(w, s) && !s.flags.readSecure && WriteAndKeys(s, t)
    ensures Shape(w, t) && SameState(s, t)
  {
    hide Tabled, Derived;
  }

  lemma ResumedFlightKeeps(w: World, s: Conn, room: nat, f: Supply)
    requires GoodWorld(w) && Shape(w, s) && !s.flags.readSecure && s.hsState == FINISHED && s.flags.resumed
    ensures Answered(w, s, WriteResumedFlight(w, s, room, f))
  {
    hide WriteSwitch, WriteServerHello, Derived, Tabled, Ready, Shape;
    ShapeIsBasic(w, s);
    var a := WriteServerHello(w, s, room, f);
    ServerHelloKeeps(w, s, room, f);
    KeysKeepShape(w, s, a.conn);
    if a.code.Success? {
      SwitchAnswers(w, a.conn, Left(room, a));
    }
  }

  lemma ShapeIsBasic(w: World, s: Conn)
    requires Shape(w, s)
    ensures Basic(w, s)
  {}

  lemma HelloFlightKeeps(w: World, s: Conn, room: nat, f: Supply)
    requires GoodWorld(w) && Shape(w, s) && !s.flags.readSecure && s.hsState == CLIENT_KEY_EXCHANGE
    ensures Answered(w, s, WriteHelloFlight(w, s, room, f))
  {
    hide WriteServerHello, SendHandshake, Derived, Tabled, Ready, Shape;
    ShapeIsBasic(w, s);
    var a := WriteServerHello(w, s, room, f);
    ServerHelloKeeps(w, s, room, f);
    MessageSentKeeps(a.conn, Left(room, a), CERTIFICATE, w.chain);
    var b := Behind(a, SendHandshake(a.conn, Left(room, a), CERTIFICATE, w.chain));
    MessageSentKeeps(b.conn, Left(room, b), SERVER_HELLO_DONE, []);
    KeysKeepShape(w, s, WriteHelloFlight(w, s, room, f).conn);
  }

  lemma KeyFlightKeeps(w: World, s: Conn, room: nat, cert: seq<byte>, f: Supply)
    requires GoodWorld(w) && Shape(w, s) && !s.flags.readSecure && s.hsState == FINISHED
    ensures Answered(w, s, WriteKeyFlight(w, s, room, cert, f))
  {
    hide WriteSwitch, WriteClientKeyExchange, Send, Derived, Tabled, Ready, Shape;
    ShapeIsBasic(w, s);
    SendKeeps(s, room, ALERT, [1, 41]);
    var a := WriteNoCertificate(s, room);
    KeysKeepShape(w, s, a.conn);
    ShapeIsBasic(w, a.conn);
    if a.code.Success? {
      var b := Behind(a, WriteClientKeyExchange(w, a.conn, Left(room, a), cert, f));
      KeyExchangeKeeps(w, a.conn, Left(room, a), cert, f);
      KeysKeepShape(w, a.conn, b.conn);
      if b.code.Success? {
        SwitchAnswers(w, b.conn, Left(room, b));
      }
    }
  }

  /** The flight a state asks for, once a message has been read that wants an answer. */
  lemma FlightKeeps(w: World, s: Conn, room: nat, f: Supply)
    requires GoodWorld(w) && Post(w, s, true)
    ensures Answered(w, s, WriteFlight(w, s, room, f))
  {
    hide WriteSwitch, WriteHelloFlight, WriteResumedFlight, WriteKeyFlight, Derived, Tabled, Ready;
    if s.hsState == DONE {
      SwitchAnswers(w, s, room);
    } else if s.hsState == CLIENT_KEY_EXCHANGE {
      HelloFlightKeeps(w, s, room, f);
    } else if s.hsState == FINISHED && s.flags.server {
      ResumedFlightKeeps(w, s, room, f);
    } else if s.hsState == FINISHED && s.sec.cert.Some? {
      KeyFlightKeeps(w, s, room, s.sec.cert.value, f);
    }
  }

  /** An answer, or an alert in any state. */
  lemma AnswerKeeps(w: World, s: Conn, room: nat, f: Supply)
    requires GoodWorld(w) && (if s.err == NO_ERROR then Post(w, s, true) else Shape(w, s))
    ensures var a := EncodeResponse(w, s, room, f);
            exists b: Flight :: a == Spoiled(b) && SameState(s, b.conn) && Shape(w, b.conn)
                                && (s.err == NO_ERROR && s.hsState == FINISHED && b.code.Success? ==> Derived(w, b.conn))
  {
    hide WriteFlight, FlightSize, Send, Spoiled, Derived, Tabled, Ready;
    if s.err != NO_ERROR {
      SendKeeps(s, room, ALERT, [2, s.err]);
      WriteOnlyKeeps(w, s, Send(s, room, ALERT, [2, s.err]).conn);
      assert EncodeResponse(w, s, room, f) == Spoiled(Send(s, room, ALERT, [2, s.err]));
    } else if room < FlightSize(w, s) {
      FullIsNotSpoiled(s);
      assert EncodeResponse(w, s, room, f) == Spoiled(Flight(s, [], Full));
    } else {
      FlightKeeps(w, s, room, f);
      assert EncodeResponse(w, s, room, f) == Spoiled(WriteFlight(w, s, room, f));
    }
  }

  lemma FullIsNotSpoiled(s: Conn)
    ensures Spoiled(Flight(s, [], Full)) == Flight(s, [], Full)
  {}

  /** A state that an error flag or a pending answer is about to be added to. */
  lemma ShapeOfFlags(w: World, s: Conn, f: Flags)
    requires Shape(w, s) && f == s.flags.(error := f.error, needEncode := f.needEncode, closed := f.closed)
    ensures Shape(w, s.(flags := f)) && Derived(w, s) == Derived(w, s.(flags := f))
  {
    hide Derived, Tabled;
    DerivedFrame(w, s, s.(flags := f));
  }

  /** A spoiled connection is in order whatever it was waiting for. */
  lemma SpoiledIsSafe(w: World, t: Conn)
    requires Shape(w, t) && !t.flags.needEncode
    ensures Inv(w, t.(flags := t.flags.(error := true)))
  {
    hide Shape, Derived;
    ShapeOfFlags(w, t, t.flags.(error := true));
  }

  /** So is one with an answer that has not fitted. */
  lemma PendingIsSafe(w: World, t: Conn)
    requires Shape(w, t) && (t.hsState == FINISHED && t.err == NO_ERROR ==> !t.flags.readSecure && (t.flags.server ==> t.flags.resumed))
    ensures Inv(w, t.(flags := t.flags.(needEncode := true)))
  {
    hide Shape, Derived;
    ShapeOfFlags(w, t, t.flags.(needEncode := true));
  }

  lemma PostFacts(w: World, s: Conn)
    requires Post(w, s, true)
    ensures Shape(w, s) && Clean(s) && (s.hsState == FINISHED ==> !s.flags.readSecure && (s.flags.server ==> s.flags.resumed))
  {}

  /** The same state of the handshake, on the same side. */
  ghost predicate Alike(s: Conn, t: Conn) {
    t.hsState == s.hsState && SameSide(s, t)
  }

  /** Answering keeps the invariant, whether there was an error or not and whether the answer fits or not. */
  lemma RespondKeeps(w: World, s: Conn, rest: seq<byte>, room: nat, f: Supply)
    requires GoodWorld(w) && (if s.err == NO_ERROR then Post(w, s, true) else Shape(w, s) && !s.flags.needEncode && !s.flags.error)
    ensures var d := Respond(w, s, rest, room, f); Inv(w, d.conn) && Alike(s, d.conn) && !d.result.ProcessData?
  {
    hide EncodeResponse, Derived, Shape, Post;
    if s.err == NO_ERROR {
      PostFacts(w, s);
    }
    AnswerKeeps(w, s, room, f);
    var b: Flight :| EncodeResponse(w, s, room, f) == Spoiled(b) && SameState(s, b.conn) && Shape(w, b.conn)
                     && (s.err == NO_ERROR && s.hsState == FINISHED && b.code.Success? ==> Derived(w, b.conn));
    match b.code
    case Success => if s.err != NO_ERROR { SpoiledIsSafe(w, b.conn); }
    case Full =>
      hide Inv;
      PendingIsSafe(w, b.conn);
    case Error =>
      hide Inv;
      SpoiledIsSafe(w, b.conn);
  }

  // ----- decoding

  lemma UnprotectKeeps(d: Direction, ssl3: bool, h: Head, ctx: Context, plain: seq<byte>)
    requires d.Valid() && plain != []
    ensures match Unprotect(d, ssl3, h, ctx, plain)
            case Opened(_, _, _, next, _) => next.Valid() && next.suite == d.suite && next.key == d.key
            case Failed(alert, after) => alert != NO_ERROR && after.Valid() && after.suite == d.suite && after.key == d.key
            case _ => false
  {
    hide Mac, MacPosition, Sound, IsNull;
  }

  /** Opening a record moves the read direction on and changes nothing else about it, also when it is refused. */
  lemma OpenKeeps(d: Direction, check: bool, maj: byte, min: byte, input: seq<byte>, room: nat)
    requires d.Valid()
    ensures match Open(d, check, maj, min, input, room)
            case Opened(_, _, _, next, _) => next.Valid() && next.suite == d.suite && next.key == d.key
            case Failed(alert, after) => alert != NO_ERROR && after.Valid() && after.suite == d.suite && after.key == d.key
            case _ => true
  {
    hide Unprotect, Sound, IsNull;
    var short := ShortHeader(maj, input);
    if |input| >= if short then SSL2_HEADER_LEN else SSL3_HEADER_LEN {
      var h := ReadHead(short, input);
      if |input| - h.size >= h.len > 0 {
        var (ctx, plain) := d.suite.decrypt(d.ctx, input[h.size..h.size + h.len]);
        if plain.Some? && |plain.value| == h.len {
          UnprotectKeeps(d, maj == 3 && min == 0, h, ctx, plain.value);
        }
      }
    }
  }

  /** The state with the read direction moved on. */
  lemma MovedOn(w: World, s: Conn, d: Direction)
    requires Inv(w, s) && d.Valid() && d.suite == s.dec.suite && d.key == s.dec.key
    ensures Inv(w, s.(dec := d)) && Derived(w, s) == Derived(w, s.(dec := d))
  {
    hide Derived, Tabled;
    DerivedFrame(w, s, s.(dec := d));
  }

  /** Switching on the read cipher, with the keys derived. */
  lemma ActivateKeeps(w: World, s: Conn)
    requires GoodWorld(w) && Inv(w, s) && Clean(s) && s.hsState == FINISHED
    ensures Inv(w, ActivateRead(s)) && Clean(ActivateRead(s)) && ActivateRead(s).hsState == FINISHED && SameSide(s, ActivateRead(s))
  {
    hide Derived;
    ActivatedValid(s.dec, s.cipher, s.sec.keys.rMac, s.sec.keys.rKey, s.sec.keys.rIv);
    DerivedFrame(w, s, ActivateRead(s));
  }

  lemma RefuseKeeps(w: World, s: Conn, alert: byte, rest: seq<byte>, room: nat, f: Supply)
    requires GoodWorld(w) && Shape(w, s) && !s.flags.needEncode && !s.flags.error && alert != NO_ERROR
    ensures var d := Refuse(w, s, alert, rest, room, f); Inv(w, d.conn) && Alike(s, d.conn) && !d.result.ProcessData?
  {
    hide Derived, Tabled, Respond;
    DerivedFrame(w, s, s.(err := alert));
    RespondKeeps(w, s.(err := alert), rest, room, f);
  }

  /** The messages of a handshake record, answered if they call for it. */
  lemma HandshakeRecordKeeps(w: World, s: Conn, recMaj: byte, data: seq<byte>, input: seq<byte>, rest: seq<byte>, room: nat,
                             f: Supply)
    requires GoodWorld(w) && Inv(w, s) && Clean(s) && s.hsState != DONE
    ensures match ParseHandshake(w, s, recMaj, data, data, false)
            case Stopped(alert, at) =>
              var d := Refuse(w, at, alert, input, room, f);
              Inv(w, d.conn) && !d.result.ProcessData? && d.conn.hsState != DONE && SameSide(s, d.conn)
            case Ended(next, respond, left) => Inv(w, next) && SameSide(s, next) && FinishedFirst(w, s, recMaj, data)
            case Ok(next, respond) =>
              && (next.hsState == DONE ==> FinishedFirst(w, s, recMaj, data))
              && SameSide(s, next) && (!respond ==> Inv(w, next))
              && (respond ==> var d := Respond(w, next, rest, room, f);
                              Inv(w, d.conn) && d.conn.hsState == next.hsState && SameSide(s, d.conn) && !d.result.ProcessData?)
  {
    hide ParseHandshake, Respond, Refuse, Derived, Tabled, Ready, FinishedFirst, Basic;
    ParseKeeps(w, s, recMaj, data, data, false);
    match ParseHandshake(w, s, recMaj, data, data, false)
    case Stopped(alert, at) => RefuseKeeps(w, at, alert, input, room, f);
    case Ended(next, respond, left) =>
    case Ok(next, respond) => if respond { RespondKeeps(w, next, rest, room, f); }
  }

  /** The input holds, after change cipher specs, a record that starts with a Finished message equal to the
      hash of the transcript so far. */
  ghost predicate VerifiedBy(w: World, s: Conn, input: seq<byte>, room: nat)
    decreases |input|
  {
    var o := Open(s.dec, VersionSettled(s), s.ver.maj, s.ver.min, input, room);
    && o.Opened?
    && if o.kind == HANDSHAKE then FinishedFirst(w, s, o.version, o.data)
       else o.kind == CHANGE_CIPHER_SPEC && VerifiedBy(w, ActivateRead(s.(dec := o.next)), input[o.size..], room)
  }

  lemma SameFinished(w: World, s: Conn, d: Direction, recMaj: byte, data: seq<byte>)
    ensures FinishedFirst(w, s.(dec := d), recMaj, data) == FinishedFirst(w, s, recMaj, data)
  {}

  lemma InvFacts(w: World, s: Conn)
    requires Inv(w, s) && Clean(s)
    ensures s.dec.Valid() && Shape(w, s) && !s.flags.needEncode && !s.flags.error
    ensures s.flags.readSecure ==> s.hsState == FINISHED || s.hsState == DONE
  {}

  /** Fatal and closing alerts only set flags. */
  lemma AlertFlagsKeep(w: World, s: Conn, error: bool, closed: bool)
    requires Inv(w, s) && Clean(s)
    ensures Inv(w, s.(flags := s.flags.(error := error, closed := closed)))
  {
    hide Derived, Tabled;
    DerivedFrame(w, s, s.(flags := s.flags.(error := error, closed := closed)));
  }

  /** Before the handshake is done no application data is returned; the handshake gets done only by a Finished
      message that equals the transcript's hash; and every step keeps the invariant. */
  lemma {:induction false} DecodeMoreKeeps(w: World, s: Conn, input: seq<byte>, room: nat, f: Supply)
    requires GoodWorld(w) && Inv(w, s) && Clean(s) && s.hsState != DONE
    ensures var d := DecodeMore(w, s, input, room, f);
            && Inv(w, d.conn) && SameSide(s, d.conn) && !d.result.ProcessData?
            && (d.conn.hsState == DONE ==> VerifiedBy(w, s, input, room))
    decreases |input|
  {
    hide Inv, Open, ParseHandshake, Respond, Refuse, ActivateRead, FinishedFirst, Shape;
    InvFacts(w, s);
    OpenKeeps(s.dec, VersionSettled(s), s.ver.maj, s.ver.min, input, room);
    var o := Open(s.dec, VersionSettled(s), s.ver.maj, s.ver.min, input, room);
    if o.Failed? {
      MovedOn(w, s, o.after);
      InvFacts(w, s.(dec := o.after));
      RefuseKeeps(w, s.(dec := o.after), o.alert, input, room, f);
    } else if o.Opened? {
      var s1 := s.(dec := o.next);
      MovedOn(w, s, o.next);
      InvFacts(w, s1);
      RefuseKeeps(w, s1, ILLEGAL_PARAMETER, input, room, f);
      RefuseKeeps(w, s1, UNEXPECTED_MESSAGE, input, room, f);
      if o.kind == CHANGE_CIPHER_SPEC {
        if s.hsState == FINISHED && o.data != [] && o.data[0] == 1 {
          ActivateKeeps(w, s1);
          DecodeMoreKeeps(w, ActivateRead(s1), input[o.size..], room, f);
        }
      } else if o.kind == ALERT {
        if |o.data| >= 2 {
          AlertFlagsKeep(w, s1, s1.flags.error || o.data[0] == 2, s1.flags.closed || o.data[1] == 0);
        }
      } else if o.kind == HANDSHAKE {
        HandshakeRecordKeeps(w, s1, o.version, o.data, input, input[o.size..], room, f);
        SameFinished(w, s, o.next, o.version, o.data);
      }
    }
  }

  // ----- runs

  /** The calls an application makes: decoding whatever bytes have come in, or opening as a client. */
  datatype Call = DecodeCall(input: seq<byte>, room: nat, supply: Supply) | HelloCall(cipherSpec: nat, room: nat, supply: Supply)

  function Step(w: World, s: Conn, c: Call): Decoded {
    match c
    case DecodeCall(input, room, supply) => Decode(w, s, input, room, supply)
    case HelloCall(cipherSpec, room, supply) =>
      var flight := EncodeClientHello(w, s, cipherSpec, room, supply);
      Decoded(flight.conn, match flight.code case Success => Response(flight.wire) case Full => BufferFull([]) case Error => SessionError, [])
  }

  /** The connection after some calls, up to the end of the handshake. */
  function Run(w: World, s: Conn, calls: seq<Call>): Conn
    decreases calls
  {
    if calls == [] || s.hsState == DONE then s else Run(w, Step(w, s, calls[0]).conn, calls[1..])
  }

  lemma NewSessionIsSafe(w: World, server: bool, session: Option<Session>)
    requires GoodWorld(w)
    ensures Inv(w, NewSession(w, server, session)) && NewSession(w, server, session).hsState != DONE
  {}

  /** What the opening message changes. */
  ghost predicate Opening(s: Conn, t: Conn) {
    && t == s.(enc := t.enc, sec := s.sec.(transcript := t.sec.transcript, clientRandom := t.sec.clientRandom),
               flags := s.flags.(resumed := t.flags.resumed, clientAuth := t.flags.clientAuth))
    && t.enc.Valid()
  }

  lemma HelloSentKeeps(s: Conn, offer: seq<byte>, room: nat, f: Supply)
    requires s.enc.Valid() && s.hsState == SERVER_HELLO
    ensures Opening(s, WriteClientHello(s, offer, room, f).conn)
  {
    hide SendHandshake, ClientHelloBody, RecordSize;
    var s1 := s.(sec := s.sec.(clientRandom := f.random));
    MessageSentKeeps(s1, room, CLIENT_HELLO, ClientHelloBody(s1.ver.maj, s1.ver.min, f.random, s1.sessionId, offer));
  }

  lemma OpeningKeeps(w: World, s: Conn, t: Conn)
    requires Inv(w, s) && s.hsState == SERVER_HELLO && Opening(s, t)
    ensures Inv(w, t) && t.hsState == SERVER_HELLO && SameSide(s, t)
  {
    hide Tabled, Derived, Ready;
  }

  lemma ResetKeeps(w: World, s: Conn)
    requires Inv(w, s) && s.hsState == SERVER_HELLO
    ensures var s1 := s.(flags := s.flags.(resumed := s.flags.resumed && s.sessionId != []), sec := s.sec.(transcript := []));
            Inv(w, s1) && s1.enc.Valid() && s1.hsState == SERVER_HELLO
  {
    hide Inv;
    InvIsValid(w, s);
    OpeningKeeps(w, s, s.(flags := s.flags.(resumed := s.flags.resumed && s.sessionId != []), sec := s.sec.(transcript := [])));
  }

  lemma ClientHelloCallKeeps(w: World, s: Conn, cipherSpec: nat, room: nat, f: Supply)
    requires GoodWorld(w) && Inv(w, s) && s.hsState != DONE
    ensures Inv(w, EncodeClientHello(w, s, cipherSpec, room, f).conn)
    ensures var t := EncodeClientHello(w, s, cipherSpec, room, f).conn; t.hsState != DONE && SameSide(s, t)
  {
    hide WriteClientHello, Inv, Opening;
    if !(s.flags.error || s.flags.closed || s.flags.server || s.hsState != SERVER_HELLO) {
      var s1 := s.(flags := s.flags.(resumed := s.flags.resumed && s.sessionId != []), sec := s.sec.(transcript := []));
      var spec := if s.sessionId != [] then s.cipher.id else cipherSpec;
      ResetKeeps(w, s);
      var offer := if spec == SSL_NULL_WITH_NULL_NULL then w.offered else Len2(spec);
      HelloSentKeeps(s1, offer, room, f);
      OpeningKeeps(w, s1, WriteClientHello(s1, offer, room, f).conn);
    }
  }

  lemma InvIsValid(w: World, s: Conn)
    requires Inv(w, s)
    ensures s.enc.Valid()
  {}

  /** One call of the decoder in any reachable state before the end of the handshake. */
  lemma DecodeKeeps(w: World, s: Conn, input: seq<byte>, room: nat, f: Supply)
    requires GoodWorld(w) && Inv(w, s) && s.hsState != DONE
    ensures var d := Decode(w, s, input, room, f);
            && Inv(w, d.conn) && SameSide(s, d.conn) && !d.result.ProcessData?
            && (d.conn.hsState == DONE ==> VerifiedBy(w, s, input, room))
  {
    hide DecodeMore, Respond, Derived, Tabled;
    if !s.flags.error && !s.flags.closed {
      if s.flags.needEncode {
        var s1 := s.(flags := s.flags.(needEncode := false));
        ShapeOfFlags(w, s, s1.flags);
        RespondKeeps(w, s1, input, room, f);
      } else {
        DecodeMoreKeeps(w, s, input, room, f);
      }
    }
  }

  /** No call before the end of the handshake returns application data, and the call that ends it has read a
      Finished message equal to the hash of the transcript. */
  lemma StepKeeps(w: World, s: Conn, c: Call)
    requires GoodWorld(w) && Inv(w, s) && s.hsState != DONE
    ensures var d := Step(w, s, c);
            && Inv(w, d.conn) && SameSide(s, d.conn) && !d.result.ProcessData?
            && (d.conn.hsState == DONE ==> c.DecodeCall? && VerifiedBy(w, s, c.input, c.room))
  {
    hide Inv, Decode, EncodeClientHello, VerifiedBy;
    match c
    case DecodeCall(input, room, supply) => DecodeKeeps(w, s, input, room, supply);
    case HelloCall(cipherSpec, room, supply) => ClientHelloCallKeeps(w, s, cipherSpec, room, supply);
  }

  /** On every run from a new connection over any input: a secure read side means that Finished is awaited or
      the handshake is done, that the keys are derived and that the active read suite is not the null suite. */
  lemma {:induction false} RunIsSafe(w: World, s: Conn, calls: seq<Call>)
    requires GoodWorld(w) && Inv(w, s)
    ensures Inv(w, Run(w, s, calls))
    ensures var t := Run(w, s, calls);
            t.flags.readSecure ==> (t.hsState == FINISHED || t.hsState == DONE) && Ready(w, t)
    decreases calls
  {
    hide Step, Derived, Tabled;
    if calls != [] && s.hsState != DONE {
      StepKeeps(w, s, calls[0]);
      RunIsSafe(w, Step(w, s, calls[0]).conn, calls[1..]);
    }
  }

  /** What the calls of a run returned, up to the end of the handshake. */
  function Results(w: World, s: Conn, calls: seq<Call>): seq<Result>
    decreases calls
  {
    if calls == [] || s.hsState == DONE then [] else [Step(w, s, calls[0]).result] + Results(w, Step(w, s, calls[0]).conn, calls[1..])
  }

  /** Some call read a Finished message equal to the hash of the transcript of its time. */
  ghost predicate Verified(w: World, s: Conn, calls: seq<Call>)
    decreases calls
  {
    calls != [] && s.hsState != DONE
    && ((calls[0].DecodeCall? && VerifiedBy(w, s, calls[0].input, calls[0].room)) || Verified(w, Step(w, s, calls[0]).conn, calls[1..]))
  }

  lemma {:induction false} RunIsVerified(w: World, s: Conn, calls: seq<Call>)
    requires GoodWorld(w) && Inv(w, s) && s.hsState != DONE
    ensures Run(w, s, calls).hsState == DONE ==> Verified(w, s, calls)
    ensures forall r | r in Results(w, s, calls) :: !r.ProcessData?
    decreases calls
  {
    hide Step, Inv, GoodWorld, VerifiedBy;
    if calls != [] {
      StepKeeps(w, s, calls[0]);
      var t := Step(w, s, calls[0]).conn;
      if t.hsState != DONE {
        RunIsVerified(w, t, calls[1..]);
      }
    }
  }

  /** Whatever bytes reach a new connection, up to the end of its first handshake: data is accepted as secure only
      under derived keys of a suite other than the null suite, no application data is handed out, and the handshake
      ends only after a Finished message that equals the hash of the transcript. */
  lemma EveryRunIsSafe(w: World, server: bool, session: Option<Session>, calls: seq<Call>)
    requires GoodWorld(w)
    ensures var s := NewSession(w, server, session); var t := Run(w, s, calls);
            && (t.flags.readSecure ==> (t.hsState == FINISHED || t.hsState == DONE) && Ready(w, t))
            && (t.hsState == DONE ==> Verified(w, s, calls) && t.flags.readSecure)
            && forall r | r in Results(w, s, calls) :: !r.ProcessData?
  {
    hide Run, Results, Verified, Ready, Derived, Tabled, NewSession;
    var s := NewSession(w, server, session);
    NewSessionIsSafe(w, server, session);
    RunIsSafe(w, s, calls);
    RunIsVerified(w, s, calls);
  }
}
