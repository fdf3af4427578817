/** The connection object: the handshake state machine over its record halves, its keys and the caller's buffers. */
module Connection {
  import opened MpBytes
  import opened Record
  import opened Keys
  import opened Handshake
  import opened Options
  import opened Splices
  import HandshakeSafety

  /** What reading a message comes to; the reason of a refusal is in the connection. */
  datatype Reading = Rejected | Accepted(used: nat, respond: bool)

  /** What the messages of a record come to. */
  datatype Verdict = Wrong | Right(respond: bool) | Another(left: seq<byte>)

  /** A flight has gone into a buffer from position `at` up to `end`; nothing before it has changed. */
  ghost predicate Wrote(a: Flight, now: Conn, out: seq<byte>, was: seq<byte>, at: nat, end: nat, code: Code) {
    && a.conn == now && a.code == code
    && at <= end <= |out| == |was| && out[at..end] == a.wire && out[..at] == was[..at]
  }

  /** What a call has put into the caller's buffer. */
  function Payload(r: Result): seq<byte> {
    match r
    case Response(wire) => wire
    case BufferFull(wire) => wire
    case ErrorAlert(wire) => wire
    case ProcessData(data) => data
    case _ => []
  }

  /** Records were read from position `start` on, and the answer or the data is in the output buffer. */
  ghost predicate Called(d: Decoded, now: Conn, r: Result, input: seq<byte>, c: nat, out: seq<byte>, was: seq<byte>, at: nat,
                         end: nat) {
    && d.conn == now && d.result == r && c <= |input| && d.rest == input[c..]
    && at <= end <= |out| == |was| && out[at..end] == Payload(r) && out[..at] == was[..at]
  }

  class Ssl {
    var flags: Flags
    var hsState: nat
    var err: byte
    var ignored: nat
    var cipher: Suite
    var ver: Versions
    var clientRandom: seq<byte>
    var serverRandom: seq<byte>
    var transcript: seq<byte>
    var cert: Option<seq<byte>>
    var sessionId: seq<byte>
    const keys: KeyMaterial
    const outgoing: Half
    const incoming: Half

    ghost function State(): Conn
      reads this, keys, outgoing, outgoing.seqno, incoming, incoming.seqno
    {
      Conn(flags, hsState, err, ignored, cipher, outgoing.State(), incoming.State(), ver,
           Security(clientRandom, serverRandom, keys.masterSecret, keys.premaster, keys.slices, transcript, cert), sessionId)
    }

    ghost predicate Valid()
      reads this, keys, outgoing, outgoing.seqno, incoming, incoming.seqno
    {
      && outgoing != incoming && outgoing.seqno != incoming.seqno
      && outgoing.State().Valid() && incoming.State().Valid() && Tabled(cipher)
    }

    /** A buffer of the caller's. */
    ghost predicate Apart(buffer: array<byte>)
      reads this
    {
      buffer != outgoing.seqno && buffer != incoming.seqno
    }

    constructor (w: World, server: bool, session: Option<Session>)
      requires GoodWorld(w)
      ensures Valid() && State() == NewSession(w, server, session)
      ensures fresh(keys) && fresh(outgoing) && fresh(incoming) && fresh(outgoing.seqno) && fresh(incoming.seqno)
    {
      flags := Flags(server, false, false, false, false, false, false, false);
      err := NO_ERROR;
      ignored := 0;
      cipher := w.plain;
      clientRandom, serverRandom, transcript, cert := [], [], [], None;
      sessionId := [];
      hsState := if server then CLIENT_HELLO else SERVER_HELLO;
      ver := Versions(if server then 0 else 3, 0, 0, 0);
      keys := new KeyMaterial();
      outgoing := new Half(w.plain);
      incoming := new Half(w.plain);
      new;
      hide Sound, IsNull, Repeat;
      if !server && session.Some? && session.value.suite.id != SSL_NULL_WITH_NULL_NULL {
        var known := w.lookup(session.value.suite.id);
        if known.Some? {
          cipher := known.value;
          keys.masterSecret := session.value.master;
          sessionId := session.value.id;
        }
      }
    }

    // ----- ciphers and keys

    method ActivateReadCipher()
      requires Valid()
      modifies this, incoming, incoming.seqno
      ensures Valid() && State() == ActivateRead(old(State()))
    {
      hide Sound, IsNull, Repeat;
      if cipher.id != SSL_NULL_WITH_NULL_NULL {
        flags := flags.(readSecure := true);
      }
      incoming.Activate(cipher, keys.slices.rMac, keys.slices.rKey, keys.slices.rIv);
    }

    method ActivateWriteCipher()
      requires Valid()
      modifies this, outgoing, outgoing.seqno
      ensures Valid() && State() == ActivateWrite(old(State()))
    {
      hide Sound, IsNull, Repeat;
      if cipher.id != SSL_NULL_WITH_NULL_NULL {
        flags := flags.(writeSecure := true);
      }
      outgoing.Activate(cipher, keys.slices.wMac, keys.slices.wKey, keys.slices.wIv);
    }

    method DeriveKeys(w: World)
      requires GoodWorld(w) && Valid()
      modifies keys
      ensures Valid() && State() == Handshake.DeriveKeys(w, old(State()))
    {
      hide Sound, IsNull, MasterSecret, Slice, KeyBlock;
      var res := keys.DeriveKeys(w.hashes, cipher, clientRandom, serverRandom, flags.server, flags.resumed);
    }

    /** A handshake message, sent or received, enters the running hashes. */
    method UpdateHash(m: seq<byte>)
      requires Valid()
      modifies `transcript
      ensures Valid() && State() == Hear(old(State()), m)
    {
      transcript := transcript + m;
    }

    // ----- writing

    method WriteRecord(kind: byte, data: seq<byte>, out: array<byte>, at: nat) returns (end: nat, code: Code)
      requires Valid() && Apart(out) && at <= out.Length
      modifies outgoing`ctx, outgoing.seqno, out
      ensures Valid()
      ensures Wrote(Send(old(State()), out.Length - at, kind, data), State(), out[..], old(out[..]), at, end, code)
    {
      hide Sound, IsNull, Seal, Placed;
      ghost var o0 := out[..];
      var r := outgoing.WriteRecord(ver.maj, ver.min, kind, data, out, at);
      match r
      case NoSpace => return at, Full;
      case Stuck => return at, Error;
      case Written(size) =>
        PlacedWhole(out[..], o0, at, Seal(old(State()).enc, ver.maj, ver.min, kind, data).1);
        return at + size, Success;
    }

    method WriteHandshake(kind: byte, body: seq<byte>, out: array<byte>, at: nat) returns (end: nat, code: Code)
      requires Valid() && Apart(out) && at <= out.Length
      modifies `transcript, outgoing`ctx, outgoing.seqno, out
      ensures Valid()
      ensures Wrote(SendHandshake(old(State()), out.Length - at, kind, body), State(), out[..], old(out[..]), at, end, code)
    {
      hide Send, Message, RecordSize;
      var m := Message(kind, body);
      if RecordSize(outgoing.suite, |m|) > out.Length - at {
        return at, Full;
      }
      UpdateHash(m);
      end, code := WriteRecord(HANDSHAKE, m, out, at);
    }

    method WriteServerHello(w: World, out: array<byte>, at: nat, f: Supply) returns (end: nat, code: Code)
      requires GoodWorld(w) && Valid() && Apart(out) && at <= out.Length
      modifies this, keys, outgoing`ctx, outgoing.seqno, out
      ensures Valid()
      ensures Wrote(Handshake.WriteServerHello(w, old(State()), out.Length - at, f), State(), out[..], old(out[..]), at, end, code)
    {
      hide SendHandshake, Handshake.DeriveKeys, ServerHelloBody, Tabled;
      serverRandom := f.random;
      if !flags.resumed && f.newId != [] {
        sessionId := f.newId;
      }
      end, code := WriteHandshake(SERVER_HELLO, ServerHelloBody(ver.maj, ver.min, serverRandom, sessionId, cipher.id), out, at);
      if code.Success? && flags.resumed {
        DeriveKeys(w);
      }
    }

    method WriteChangeCipherSpec(out: array<byte>, at: nat) returns (end: nat, code: Code)
      requires Valid() && Apart(out) && at <= out.Length
      modifies this, outgoing, outgoing.seqno, out
      ensures Valid()
      ensures Wrote(Handshake.WriteChangeCipherSpec(old(State()), out.Length - at), State(), out[..], old(out[..]), at, end, code)
    {
      hide Send, ActivateWrite;
      end, code := WriteRecord(CHANGE_CIPHER_SPEC, [1], out, at);
      if code.Success? {
        ActivateWriteCipher();
      }
    }

    method WriteFinished(w: World, out: array<byte>, at: nat) returns (end: nat, code: Code)
      requires Valid() && Apart(out) && at <= out.Length
      modifies this, outgoing`ctx, outgoing.seqno, out
      ensures Valid()
      ensures Wrote(Handshake.WriteFinished(w, old(State()), out.Length - at), State(), out[..], old(out[..]), at, end, code)
    {
      hide SendHandshake, FinishedHash;
      end, code := WriteHandshake(FINISHED, FinishedHash(w.hashes, keys.masterSecret, transcript, Sender(flags.server)), out, at);
      if code.Success? {
        cert := None;
      }
    }

    method WriteClientKeyExchange(w: World, chain: seq<byte>, out: array<byte>, at: nat, f: Supply) returns (end: nat, code: Code)
      requires GoodWorld(w) && Valid() && Apart(out) && at <= out.Length
      modifies this, keys, outgoing`ctx, outgoing.seqno, out
      ensures Valid()
      ensures Wrote(Handshake.WriteClientKeyExchange(w, old(State()), out.Length - at, chain, f), State(), out[..], old(out[..]), at, end, code)
    {
      hide SendHandshake, Handshake.DeriveKeys, RecordSize, Tabled;
      if RecordSize(outgoing.suite, HANDSHAKE_HEADER_LEN + w.keySize(chain)) > out.Length - at {
        return at, Full;
      }
      keys.premaster := [ver.reqMaj, ver.reqMin] + f.secret;
      var sealed := w.encryptPub(chain, keys.premaster, f.padding);
      if |sealed| != w.keySize(chain) {
        return at, Full;
      }
      end, code := WriteHandshake(CLIENT_KEY_EXCHANGE, sealed, out, at);
      if code.Success? {
        DeriveKeys(w);
      }
    }

    method WriteSwitch(w: World, out: array<byte>, at: nat) returns (end: nat, code: Code)
      requires Valid() && Apart(out) && at <= out.Length
      modifies this, outgoing, outgoing.seqno, out
      ensures Valid()
      ensures Wrote(Handshake.WriteSwitch(w, old(State()), out.Length - at), State(), out[..], old(out[..]), at, end, code)
    {
      hide Handshake.WriteChangeCipherSpec, Handshake.WriteFinished, Wrote;
      ghost var s0, o0 := State(), out[..];
      end, code := WriteChangeCipherSpec(out, at);
      ghost var s1, o1, mid := State(), out[..], end;
      WroteBounds(Handshake.WriteChangeCipherSpec(s0, out.Length - at), s1, o1, o0, at, mid, code);
      if code.Success? {
        end, code := WriteFinished(w, out, end);
        WroteNext(Handshake.WriteChangeCipherSpec(s0, out.Length - at), s1, o1, o0, at, mid,
                  Handshake.WriteFinished(w, s1, out.Length - mid), State(), out[..], end, code);
      }
    }

    /** The server's hello, certificate and end of hello. */
    method WriteHelloFlight(w: World, out: array<byte>, at: nat, f: Supply) returns (end: nat, code: Code)
      requires GoodWorld(w) && Valid() && Apart(out) && at <= out.Length
      modifies this, keys, outgoing`ctx, outgoing.seqno, out
      ensures Valid()
      ensures Wrote(Handshake.WriteHelloFlight(w, old(State()), out.Length - at, f), State(), out[..], old(out[..]), at, end, code)
    {
      hide Handshake.WriteServerHello, SendHandshake, Wrote;
      ghost var s0, o0, room := State(), out[..], out.Length - at;
      end, code := WriteServerHello(w, out, at, f);
      ghost var a, s1, o1, mid := Handshake.WriteServerHello(w, s0, room, f), State(), out[..], end;
      WroteBounds(a, s1, o1, o0, at, mid, code);
      if code.Success? {
        end, code := WriteHandshake(CERTIFICATE, w.chain, out, end);
        ghost var b, s2, o2, late := SendHandshake(s1, out.Length - mid, CERTIFICATE, w.chain), State(), out[..], end;
        WroteNext(a, s1, o1, o0, at, mid, b, s2, o2, late, code);
        WroteBounds(b, s2, o2, o1, mid, late, code);
        if code.Success? {
          end, code := WriteHandshake(SERVER_HELLO_DONE, [], out, end);
          WroteNext(Behind(a, b), s2, o2, o0, at, late, SendHandshake(s2, out.Length - late, SERVER_HELLO_DONE, []), State(), out[..], end, code);
        }
      }
    }

    /** The server's answer to a session it resumes. */
    method WriteResumedFlight(w: World, out: array<byte>, at: nat, f: Supply) returns (end: nat, code: Code)
      requires GoodWorld(w) && Valid() && Apart(out) && at <= out.Length
      modifies this, keys, outgoing, outgoing.seqno, out
      ensures Valid()
      ensures Wrote(Handshake.WriteResumedFlight(w, old(State()), out.Length - at, f), State(), out[..], old(out[..]), at, end, code)
    {
      hide Handshake.WriteServerHello, Handshake.WriteSwitch, Wrote;
      ghost var s0, o0 := State(), out[..];
      end, code := WriteServerHello(w, out, at, f);
      ghost var a, s1, o1, mid := Handshake.WriteServerHello(w, s0, out.Length - at, f), State(), out[..], end;
      WroteBounds(a, s1, o1, o0, at, mid, code);
      if code.Success? {
        end, code := WriteSwitch(w, out, end);
        WroteNext(a, s1, o1, o0, at, mid, Handshake.WriteSwitch(w, s1, out.Length - mid), State(), out[..], end, code);
      }
    }

    /** The client's flight: perhaps the alert that it has no certificate, then its key and the switch. */
    method WriteKeyFlight(w: World, chain: seq<byte>, out: array<byte>, at: nat, f: Supply) returns (end: nat, code: Code)
      requires GoodWorld(w) && Valid() && Apart(out) && at <= out.Length
      modifies this, keys, outgoing, outgoing.seqno, out
      ensures Valid()
      ensures Wrote(Handshake.WriteKeyFlight(w, old(State()), out.Length - at, chain, f), State(), out[..], old(out[..]), at, end, code)
    {
      hide Handshake.WriteClientKeyExchange, Handshake.WriteSwitch, Send, Wrote;
      ghost var s0, o0, room := State(), out[..], out.Length - at;
      WroteNothing(s0, o0, at);
      end, code := at, Success;
      if flags.clientAuth {
        end, code := WriteRecord(ALERT, [1, 41], out, at);
      }
      ghost var a, s1, o1, mid := WriteNoCertificate(s0, room), State(), out[..], end;
      WroteBounds(a, s1, o1, o0, at, mid, code);
      if code.Success? {
        end, code := WriteClientKeyExchange(w, chain, out, end, f);
        ghost var b, s2, o2, late := Handshake.WriteClientKeyExchange(w, s1, out.Length - mid, chain, f), State(), out[..], end;
        WroteNext(a, s1, o1, o0, at, mid, b, s2, o2, late, code);
        WroteBounds(b, s2, o2, o1, mid, late, code);
        if code.Success? {
          end, code := WriteSwitch(w, out, end);
          WroteNext(Behind(a, b), s2, o2, o0, at, late, Handshake.WriteSwitch(w, s2, out.Length - late), State(), out[..], end, code);
        }
      }
    }

    /** The records the current state asks for. */
    method WriteFlight(w: World, out: array<byte>, at: nat, f: Supply) returns (end: nat, code: Code)
      requires GoodWorld(w) && Valid() && Apart(out) && at <= out.Length
      modifies this, keys, outgoing, outgoing.seqno, out
      ensures Valid()
      ensures Wrote(Handshake.WriteFlight(w, old(State()), out.Length - at, f), State(), out[..], old(out[..]), at, end, code)
    {
      hide Handshake.WriteHelloFlight, Handshake.WriteResumedFlight, Handshake.WriteKeyFlight, Handshake.WriteSwitch;
      if hsState == CLIENT_KEY_EXCHANGE {
        end, code := WriteHelloFlight(w, out, at, f);
      } else if hsState == DONE {
        end, code := WriteSwitch(w, out, at);
      } else if hsState == FINISHED && flags.server {
        end, code := WriteResumedFlight(w, out, at, f);
      } else if hsState == FINISHED && cert.Some? {
        end, code := WriteKeyFlight(w, cert.value, out, at, f);
      } else {
        return at, Error;
      }
    }

    /** The room a flight has to find before any of it is written. */
    method SizeFlight(w: World) returns (size: int)
      requires Valid()
      ensures size == FlightSize(w, State())
    {
      size := 0;
      if hsState == CLIENT_KEY_EXCHANGE {
        var more := SecureWriteAdditions(3);
        size := 3 * SSL3_HEADER_LEN + 3 * HANDSHAKE_HEADER_LEN + 38 + SESSION_ID_SIZE + |w.chain| + more;
      } else if hsState == DONE {
        var more := SecureWriteAdditions(2);
        size := 2 * SSL3_HEADER_LEN + HANDSHAKE_HEADER_LEN + 1 + FINISHED_SIZE + more;
      } else if hsState == FINISHED && flags.server {
        var more := SecureWriteAdditions(3);
        size := 3 * SSL3_HEADER_LEN + 2 * HANDSHAKE_HEADER_LEN + 38 + SESSION_ID_SIZE + 1 + FINISHED_SIZE + more;
      } else if hsState == FINISHED && cert.Some? {
        var more := SecureWriteAdditions(if flags.clientAuth then 3 else 2);
        if flags.clientAuth {
          size := 2 + SSL3_HEADER_LEN;
        }
        size := size + 3 * SSL3_HEADER_LEN + 2 * HANDSHAKE_HEADER_LEN + w.keySize(cert.value) + 1 + FINISHED_SIZE
          + SSL_MAX_MAC_SIZE + SSL_MAX_BLOCK_SIZE - 1 + more;
      }
    }

    method SecureWriteAdditions(numRecs: nat) returns (add: int)
      requires Valid()
      ensures add == Additions(State(), numRecs)
    {
      add := 0;
      if outgoing.suite.id != SSL_NULL_WITH_NULL_NULL {
        add := numRecs * outgoing.suite.macSize + numRecs * (outgoing.suite.blockSize - 1);
      }
    }

    /** Writes the records that answer the current state, or an alert if there is an error. */
    method EncodeResponse(w: World, out: array<byte>, at: nat, f: Supply) returns (end: nat, code: Code)
      requires GoodWorld(w) && Valid() && Apart(out) && at <= out.Length
      modifies this, keys, outgoing, outgoing.seqno, out
      ensures Valid()
      ensures Wrote(Handshake.EncodeResponse(w, old(State()), out.Length - at, f), State(), out[..], old(out[..]), at, end, code)
    {
      hide Send, Handshake.WriteFlight, FlightSize;
      if err != NO_ERROR {
        end, code := WriteRecord(ALERT, [2, err], out, at);
      } else {
        var size := SizeFlight(w);
        if out.Length - at < size {
          return at, Full;
        }
        end, code := WriteFlight(w, out, at, f);
      }
      if code.Error? {
        flags := flags.(error := true);
      }
    }

    // ----- reading messages

    /** Notes why a message is refused. */
    method Refuse(alert: byte) returns (r: Reading)
      modifies `err
      ensures r == Rejected && err == alert
    {
      err := alert;
      r := Rejected;
    }

    /** Scans the suites of a list, of two or three bytes each, for that of a resumed session or else for the first
        that is known. */
    method ChooseCipher(w: World, list: seq<byte>, width: nat) returns (chosen: Option<Suite>)
      requires width == 2 || width == 3
      ensures chosen == (if width == 2 then Negotiate(w, State(), SuiteIds(list)) else Choose(w, LongIds(list)))
    {
      var c := list;
      while |c| >= width
        invariant width == 2 ==> Negotiate(w, State(), SuiteIds(list)) == Negotiate(w, State(), SuiteIds(c))
        invariant width == 3 ==> Choose(w, LongIds(list)) == Choose(w, LongIds(c))
        decreases |c|
      {
        var id: nat := if width == 2 then IdOf(c) else Value3(c[0], c[1], c[2]);
        assert width == 2 ==> SuiteIds(c) == [id] + SuiteIds(c[2..]);
        assert width == 3 ==> LongIds(c) == [id] + LongIds(c[3..]);
        if width == 2 && flags.resumed {
          if cipher.id == id {
            return Some(cipher);
          }
        } else if w.lookup(id).Some? {
          return w.lookup(id);
        }
        c := c[width..];
      }
      chosen := None;
    }

    /** Looks up the session the client names. */
    method LookUpSession(w: World, sid: seq<byte>)
      requires GoodWorld(w) && Valid()
      modifies this, keys
      ensures Valid() && State() == FindSession(w, old(State()), sid)
    {
      hide Sound, IsNull;
      if sid == [] {
        flags := flags.(resumed := false);
        sessionId := [];
        return;
      }
      var found := w.resume(sid, ver.maj);
      if found.Some? {
        keys.masterSecret := found.value.master;
        cipher := found.value.suite;
        flags := flags.(resumed := true, clientAuth := false);
        sessionId := sid;
      } else {
        sessionId := [];
      }
    }

    /** Takes the suite chosen, unless it is missing or the null suite. */
    method TakeCipher(w: World, chosen: Option<Suite>) returns (ok: bool)
      requires GoodWorld(w) && Valid() && (chosen.Some? ==> Tabled(chosen.value))
      modifies `cipher
      ensures Valid() && ok == Usable(chosen) && State() == old(State()).(cipher := if ok then chosen.value else w.plain)
    {
      hide Tabled;
      ok := chosen.Some? && chosen.value.id != SSL_NULL_WITH_NULL_NULL;
      cipher := if ok then chosen.value else w.plain;
    }

    /** The suites a client offers, and what follows them. */
    method ReadOffer(w: World, c: seq<byte>) returns (r: Reading)
      requires GoodWorld(w) && Valid()
      modifies this
      ensures Valid() && Reads(Handshake.ReadOffer(w, old(State()), c), State(), r)
    {
      hide HelloTail, SuiteIds, Negotiate, IdOf, Usable, Tabled;
      if |c| < 2 {
        r := Refuse(ILLEGAL_PARAMETER);
        return;
      }
      var n := IdOf(c);
      if n == 0 || n % 2 == 1 || |c| - 2 < n {
        r := Refuse(ILLEGAL_PARAMETER);
        return;
      }
      var chosen := ChooseCipher(w, c[2..2 + n], 2);
      NegotiatedIsTabled(w, State(), SuiteIds(c[2..2 + n]));
      var ok := TakeCipher(w, chosen);
      if !ok {
        r := Refuse(HANDSHAKE_FAILURE);
        return;
      }
      if !HelloTail(c[2 + n..], ver.reqMin) {
        r := Refuse(ILLEGAL_PARAMETER);
        return;
      }
      hsState := if flags.resumed then FINISHED else CLIENT_KEY_EXCHANGE;
      r := Accepted(|c|, true);
    }

    method ReadHello3(w: World, c: seq<byte>) returns (r: Reading)
      requires GoodWorld(w) && Valid() && |c| >= 2
      modifies this, keys
      ensures Valid() && Reads(Handshake.ReadHello3(w, old(State()), c), State(), r)
    {
      hide HelloStart, FindSession, Handshake.ReadOffer, Tabled;
      var h := HelloStart(c);
      if h.BadHello? {
        r := Refuse(ILLEGAL_PARAMETER);
        return;
      }
      clientRandom := h.random;
      if h.sid.None? {
        r := Refuse(ILLEGAL_PARAMETER);
        return;
      }
      LookUpSession(w, h.sid.value);
      r := ReadOffer(w, h.rest);
      if r.Accepted? {
        r := Accepted(|c|, r.respond);
      }
    }

    method ReadHello2(w: World, c: seq<byte>) returns (r: Reading)
      requires GoodWorld(w) && Valid() && |c| >= 2
      modifies this
      ensures Valid() && Reads(Handshake.ReadHello2(w, old(State()), c), State(), r)
    {
      hide IdOf, Handshake.TakeLongHello, Tabled;
      if |c| - 2 < 6 {
        r := Refuse(ILLEGAL_PARAMETER);
        return;
      }
      var n, sidLen, challenge := IdOf(c[2..]), IdOf(c[4..]), IdOf(c[6..]);
      if n == 0 || n % 3 != 0 || sidLen != 0 {
        r := Refuse(ILLEGAL_PARAMETER);
        return;
      }
      sessionId := [];
      if challenge < 16 || challenge > 32 || |c| - 8 != n + challenge {
        r := Refuse(ILLEGAL_PARAMETER);
        return;
      }
      r := TakeLongHello(w, c[8..8 + n], c[8 + n..], |c|);
    }

    method TakeLongHello(w: World, list: seq<byte>, challenge: seq<byte>, used: nat) returns (r: Reading)
      requires GoodWorld(w) && Valid() && |challenge| <= RANDOM_SIZE
      modifies this
      ensures Valid() && Reads(Handshake.TakeLongHello(w, old(State()), list, challenge, used), State(), r)
    {
      hide LongIds, Choose, Tabled, Repeat;
      var chosen := ChooseCipher(w, list, 3);
      HandshakeSafety.ChooseIsTabled(w, LongIds(list));
      var ok := TakeCipher(w, chosen);
      if !ok {
        r := Refuse(HANDSHAKE_FAILURE);
        return;
      }
      clientRandom := Repeat(0, RANDOM_SIZE - |challenge|) + challenge;
      hsState := if flags.resumed then FINISHED else CLIENT_KEY_EXCHANGE;
      r := Accepted(used, true);
    }

    method ReadClientHello(w: World, recMaj: byte, c: seq<byte>) returns (r: Reading)
      requires GoodWorld(w) && Valid()
      modifies this, keys
      ensures Valid() && Reads(Handshake.ReadClientHello(w, old(State()), recMaj, c), State(), r)
    {
      hide Handshake.ReadHello3, Handshake.ReadHello2, Tabled;
      if |c| < 2 {
        r := Refuse(ILLEGAL_PARAMETER);
        return;
      }
      ver := ver.(reqMaj := c[0], reqMin := c[1]);
      if c[0] < 3 {
        r := Refuse(HANDSHAKE_FAILURE);
        return;
      }
      ver := ver.(maj := c[0], min := 0);
      if recMaj > 2 {
        r := ReadHello3(w, c);
      } else {
        r := ReadHello2(w, c);
      }
    }

    /** The session id of the server's answer decides whether the session is resumed. */
    method AgreeOnSession(w: World, sid: seq<byte>)
      requires GoodWorld(w) && Valid()
      modifies this, keys
      ensures Valid() && State() == AgreeSession(w, old(State()), sid)
    {
      hide Repeat, Sound, IsNull;
      if sid != [] && sessionId != [] && |sid| <= |sessionId| && sessionId[..|sid|] == sid {
        flags := flags.(resumed := true);
      } else {
        if sessionId != [] {
          cipher := w.plain;
          keys.masterSecret := Repeat(0, 48);
          flags := flags.(resumed := false);
        }
        sessionId := sid;
      }
    }

    /** The suite the server has chosen, and its compression method. */
    method ReadChoice(w: World, c: seq<byte>) returns (r: Reading)
      requires GoodWorld(w) && Valid()
      modifies this, keys
      ensures Valid() && Reads(Handshake.ReadChoice(w, old(State()), c), State(), r)
    {
      hide IdOf, Handshake.DeriveKeys, Sound, IsNull;
      if |c| < 2 {
        r := Refuse(ILLEGAL_PARAMETER);
        return;
      }
      var id := IdOf(c);
      if flags.resumed {
        if cipher.id != id {
          r := Refuse(HANDSHAKE_FAILURE);
          return;
        }
      } else {
        var known := w.lookup(id);
        if known.None? {
          cipher := w.plain;
          r := Refuse(HANDSHAKE_FAILURE);
          return;
        }
        cipher := known.value;
      }
      if |c| < 3 || c[2] != 0 {
        r := Refuse(ILLEGAL_PARAMETER);
        return;
      }
      if flags.resumed {
        DeriveKeys(w);
        hsState := FINISHED;
      } else {
        hsState := CERTIFICATE;
      }
      r := Accepted(3, false);
    }

    method ReadServerHello(w: World, c: seq<byte>) returns (r: Reading)
      requires GoodWorld(w) && Valid()
      modifies this, keys
      ensures Valid() && Reads(Handshake.ReadServerHello(w, old(State()), c), State(), r)
    {
      hide HelloStart, AgreeSession, Handshake.ReadChoice, Tabled;
      if |c| < 2 {
        r := Refuse(ILLEGAL_PARAMETER);
        return;
      }
      ver := ver.(reqMaj := c[0], reqMin := c[1]);
      if c[0] != ver.maj {
        r := Refuse(HANDSHAKE_FAILURE);
        return;
      }
      var h := HelloStart(c);
      if h.BadHello? {
        r := Refuse(ILLEGAL_PARAMETER);
        return;
      }
      serverRandom := h.random;
      if h.sid.None? {
        r := Refuse(ILLEGAL_PARAMETER);
        return;
      }
      AgreeOnSession(w, h.sid.value);
      r := ReadChoice(w, h.rest);
      if r.Accepted? {
        r := Accepted(|c| - |h.rest| + r.used, r.respond);
      }
    }

    method ReadCertificate(w: World, c: seq<byte>) returns (r: Reading)
      requires Valid()
      modifies this
      ensures Valid() && Reads(Handshake.ReadCertificate(w, old(State()), c), State(), r)
    {
      if |c| < 3 {
        r := Refuse(ILLEGAL_PARAMETER);
        return;
      }
      var checked := w.checkChain(c);
      if checked.Bad? {
        r := Refuse(if checked.alert == NO_ERROR then BAD_CERTIFICATE else checked.alert);
      } else if checked.size < 3 || checked.size > |c| {
        r := Refuse(BAD_CERTIFICATE);
      } else {
        cert := Some(c[..checked.size]);
        hsState := if flags.server then CLIENT_KEY_EXCHANGE else SERVER_HELLO_DONE;
        r := Accepted(checked.size, false);
      }
    }

    method ReadClientKeyExchange(w: World, c: seq<byte>, hsLen: nat) returns (r: Reading)
      requires GoodWorld(w) && Valid()
      modifies this, keys
      ensures Valid() && Reads(Handshake.ReadClientKeyExchange(w, old(State()), c, hsLen), State(), r)
    {
      hide Handshake.DeriveKeys, Tabled;
      if |c| < hsLen {
        r := Refuse(ILLEGAL_PARAMETER);
        return;
      }
      var premaster := w.decryptPriv(c[..hsLen]);
      if premaster.None? || |premaster.value| != PREMASTER_SIZE {
        r := Refuse(ILLEGAL_PARAMETER);
        return;
      }
      keys.premaster := premaster.value;
      if keys.premaster[0] != ver.reqMaj {
        r := Refuse(ILLEGAL_PARAMETER);
        return;
      }
      if keys.premaster[1] != ver.reqMin {
        if ver.reqMin < 1 || keys.premaster[1] != ver.min {
          r := Refuse(ILLEGAL_PARAMETER);
          return;
        }
      }
      DeriveKeys(w);
      hsState := FINISHED;
      r := Accepted(hsLen, false);
    }

    method ReadFinished(c: seq<byte>, hsLen: nat, hash: seq<byte>) returns (r: Reading)
      requires Valid()
      modifies this
      ensures Valid() && Reads(Handshake.ReadFinished(old(State()), c, hsLen, hash), State(), r)
    {
      if !flags.readSecure {
        r := Refuse(UNEXPECTED_MESSAGE);
        return;
      }
      if hsLen != FINISHED_SIZE || |c| < hsLen {
        r := Refuse(ILLEGAL_PARAMETER);
        return;
      }
      if c[..hsLen] != hash {
        r := Refuse(ILLEGAL_PARAMETER);
        return;
      }
      hsState := DONE;
      var respond := if flags.server then !flags.resumed else flags.resumed;
      cert := None;
      r := Accepted(hsLen, respond);
    }

    method ReadCertificateRequest(w: World, c: seq<byte>, hsLen: nat) returns (r: Reading)
      requires Valid() && hsState == CERTIFICATE_REQUEST
      modifies this
      ensures Valid() && Reads(Handshake.ReadBody(w, old(State()), 3, c, hsLen, []), State(), r)
    {
      if hsLen < 4 {
        r := Refuse(ILLEGAL_PARAMETER);
        return;
      }
      var checked := w.certRequest(c);
      if checked.Bad? {
        r := Refuse(if checked.alert == NO_ERROR then BAD_CERTIFICATE else checked.alert);
      } else if checked.size > |c| {
        r := Refuse(BAD_CERTIFICATE);
      } else {
        hsState := SERVER_HELLO_DONE;
        r := Accepted(checked.size, false);
      }
    }

    /** The body of one message, as the state demands. */
    method ReadBody(w: World, recMaj: byte, c: seq<byte>, hsLen: nat, hash: seq<byte>) returns (r: Reading)
      requires GoodWorld(w) && Valid()
      modifies this, keys
      ensures Valid() && Reads(Handshake.ReadBody(w, old(State()), recMaj, c, hsLen, hash), State(), r)
    {
      hide Handshake.ReadClientHello, Handshake.ReadServerHello, Handshake.ReadCertificate, Handshake.ReadClientKeyExchange,
           Handshake.ReadFinished,
           Checked, Tabled;
      if hsState == CLIENT_HELLO {
        r := ReadClientHello(w, recMaj, c);
      } else if hsState == CLIENT_KEY_EXCHANGE {
        r := ReadClientKeyExchange(w, c, hsLen);
      } else if hsState == FINISHED {
        r := ReadFinished(c, hsLen, hash);
      } else if hsState == SERVER_HELLO {
        r := ReadServerHello(w, c);
      } else if hsState == CERTIFICATE {
        r := ReadCertificate(w, c);
      } else if hsState == SERVER_HELLO_DONE {
        if hsLen != 0 {
          r := Refuse(BAD_CERTIFICATE);
        } else {
          hsState := FINISHED;
          r := Accepted(0, true);
        }
      } else if hsState == CERTIFICATE_REQUEST {
        r := ReadCertificateRequest(w, c, hsLen);
      } else {
        r := Refuse(UNEXPECTED_MESSAGE);
      }
    }

    /** Takes a message header in the current state, if the state expects that kind of message. */
    method Expect(kind: byte) returns (ok: bool)
      requires Valid()
      modifies this
      ensures Valid() && ok == Expecting(old(State()), kind).Some?
      ensures State() == if ok then Started(Expecting(old(State()), kind).value, kind) else old(State())
    {
      ok := true;
      if kind != hsState {
        if kind == CERTIFICATE_REQUEST && hsState == SERVER_HELLO_DONE {
          flags := flags.(clientAuth := true);
          hsState := CERTIFICATE_REQUEST;
        } else {
          return false;
        }
      }
      if kind == CLIENT_HELLO {
        transcript := [];
      }
    }

    /** The hash a Finished message has to hold, taken before that message is heard. */
    method Snapshot(w: World) returns (hash: seq<byte>)
      ensures hsState == FINISHED ==> hash == PeerFinished(w, State())
    {
      hide FinishedHash;
      hash := [];
      if hsState == FINISHED {
        hash := FinishedHash(w.hashes, keys.masterSecret, transcript, Sender(!flags.server));
      }
    }

    /** One message: its header, its place in the hashes, and its body. */
    method TakeMessage(w: World, recMaj: byte, whole: seq<byte>, c: seq<byte>) returns (r: Reading)
      requires GoodWorld(w) && Valid()
      modifies this, keys
      ensures Valid() && MessageTaken(ReadMessage(w, old(State()), recMaj, whole, c), State(), r)
    {
      hide Handshake.ReadBody, PeerFinished, Expecting, Hear, Started, Tabled, BodyLength, Hashed;
      if c == [] {
        r := Refuse(ILLEGAL_PARAMETER);
        return;
      }
      var expected := Expect(c[0]);
      if !expected {
        r := Refuse(ILLEGAL_PARAMETER);
        return;
      }
      var hash := Snapshot(w);
      var hsLen := BodyLength(recMaj, |whole|, c);
      if hsLen.None? {
        r := Refuse(ILLEGAL_PARAMETER);
        return;
      }
      HandshakeSafety.HeaderRead(recMaj, |whole|, c);
      var head, m := HeadLen(recMaj), Hashed(recMaj, whole, c, hsLen.value);
      SameHash(w, Hear(State(), m), recMaj, c[head..], hsLen.value, hash, PeerFinished(w, State())) by { HearKeepsState(State(), m); }
      UpdateHash(m);
      r := ReadBody(w, recMaj, c[head..], hsLen.value, hash);
      if r.Accepted? {
        r := Accepted(head + r.used, r.respond);
      }
    }

    /** The messages of one record, in order, until one is refused, the record ends or the handshake is done. */
    method ParseHandshake(w: World, recMaj: byte, data: seq<byte>) returns (v: Verdict)
      requires GoodWorld(w) && Valid()
      modifies this, keys
      ensures Valid() && Parses(Handshake.ParseHandshake(w, old(State()), recMaj, data, data, false), State(), v)
    {
      hide ReadMessage, Tabled, GoodWorld;
      var c, respond := data, false;
      while true
        invariant Valid()
        invariant Handshake.ParseHandshake(w, old(State()), recMaj, data, data, false) == Handshake.ParseHandshake(w, State(), recMaj, data, c, respond)
        decreases |c|
      {
        var r := TakeMessage(w, recMaj, data, c);
        if r.Rejected? {
          return Wrong;
        }
        respond := respond || r.respond;
        if r.used == |c| {
          return Right(respond);
        }
        if hsState == DONE {
          return Another(c[r.used..]);
        }
        c := c[r.used..];
      }
    }

    // ----- the calls of an application

    /** Answers the record just decoded, with an alert if it was in error. */
    method Respond(w: World, out: array<byte>, at: nat, f: Supply, ghost input: seq<byte>, ghost c: nat)
      returns (r: Result, end: nat)
      requires GoodWorld(w) && Valid() && Apart(out) && at <= out.Length && c <= |input|
      modifies this, keys, outgoing, outgoing.seqno, out
      ensures Valid()
      ensures Called(Handshake.Respond(w, old(State()), input[c..], out.Length - at, f), State(), r, input, c, out[..], old(out[..]), at, end)
    {
      hide Handshake.EncodeResponse, Tabled, GoodWorld;
      var erring := err != NO_ERROR;
      var code;
      end, code := EncodeResponse(w, out, at, f);
      match code
      case Success =>
        if erring {
          flags := flags.(error := true);
          r := ErrorAlert(out[at..end]);
        } else {
          r := Response(out[at..end]);
        }
      case Full =>
        flags := flags.(needEncode := true);
        r := BufferFull(out[at..end]);
      case Error =>
        end := at;
        r := SessionError;
    }

    method RespondWith(alert: byte, w: World, out: array<byte>, at: nat, f: Supply, ghost input: seq<byte>, ghost c: nat)
      returns (r: Result, end: nat)
      requires GoodWorld(w) && Valid() && Apart(out) && at <= out.Length && c <= |input|
      modifies this, keys, outgoing, outgoing.seqno, out
      ensures Valid()
      ensures Called(Handshake.Refuse(w, old(State()), alert, input[c..], out.Length - at, f), State(), r, input, c, out[..], old(out[..]), at, end)
    {
      hide Handshake.Respond, Tabled, GoodWorld, Called;
      err := alert;
      r, end := Respond(w, out, at, f, input, c);
    }

    /** Decodes records of inp[start..stop] up to the first that has an effect for the caller. What it decodes or
        answers goes into `out` from position `at`; c is where it has stopped reading. */
    method Decode(w: World, inp: array<byte>, start: nat, stop: nat, out: array<byte>, at: nat, f: Supply)
      returns (r: Result, c: nat, end: nat)
      requires GoodWorld(w) && Valid() && Apart(out) && Apart(inp) && inp != out && start <= stop <= inp.Length && at <= out.Length
      modifies this, keys, outgoing, outgoing.seqno, incoming, incoming.seqno, out
      ensures Valid() && start <= c <= stop
      ensures Called(Handshake.Decode(w, old(State()), inp[start..stop], out.Length - at, f), State(), r, inp[start..stop], c - start,
                     out[..], old(out[..]), at, end)
    {
      hide DecodeMore, Handshake.Respond, Tabled, GoodWorld, Called;
      ghost var input, o0 := inp[start..stop], out[..];
      c, end := start, at;
      if flags.error || flags.closed {
        CalledNothing(State(), SessionError, input, 0, o0, at);
        return SessionError, c, end;
      }
      assert input[0..] == input;
      if flags.needEncode {
        flags := flags.(needEncode := false);
        r, end := Respond(w, out, at, f, input, 0);
        return;
      }
      while true
        invariant Valid() && start <= c <= stop && out[..at] == o0[..at]
        invariant Handshake.Decode(w, old(State()), input, out.Length - at, f) == DecodeMore(w, State(), inp[c..stop], out.Length - at, f)
        decreases stop - c
      {
        ghost var s1, o1, from := State(), out[..], c;
        var again;
        again, r, c, end := DecodeRecord(w, inp, c, stop, out, at, f);
        if !again {
          CalledLater(DecodeMore(w, s1, inp[from..stop], out.Length - at, f), inp[..], start, from, stop, c, State(), r, out[..], o1, o0, at, end);
          return;
        }
      }
    }

    /** The record at the front of inp[start..stop]; whether decoding goes on with what follows it. */
    method DecodeRecord(w: World, inp: array<byte>, start: nat, stop: nat, out: array<byte>, at: nat, f: Supply)
      returns (again: bool, r: Result, c: nat, end: nat)
      requires GoodWorld(w) && Valid() && Apart(out) && Apart(inp) && inp != out && start <= stop <= inp.Length && at <= out.Length
      modifies this, keys, outgoing, outgoing.seqno, incoming, incoming.seqno, out
      ensures Valid() && start <= c <= stop && (again ==> start < c) && out[..at] == old(out[..at])
      ensures if again then DecodeMore(w, old(State()), inp[start..stop], out.Length - at, f) == DecodeMore(w, State(), inp[c..stop], out.Length - at, f)
              else Called(DecodeMore(w, old(State()), inp[start..stop], out.Length - at, f), State(), r, inp[start..stop], c - start,
                          out[..], old(out[..]), at, end)
    {
      hide Open, DecodeMore, Opens, Tabled, GoodWorld, Called, Sound, IsNull, Handshake.Refuse;
      ghost var input, o0, s0, room := inp[start..stop], out[..], State(), out.Length - at;
      ghost var o := Open(s0.dec, VersionSettled(s0), s0.ver.maj, s0.ver.min, input, room);
      again, r, c, end := false, Nothing, start, at;
      var got := incoming.ReadRecord(hsState != SERVER_HELLO && hsState != CLIENT_HELLO, ver.maj, ver.min, inp, start, stop, out, at);
      OpenedBy(w, s0, input, room, f);
      assert input[0..] == input;
      match got
      case NothingLeft => CalledNothing(State(), Nothing, input, 0, o0, at);
      case NeedMore => CalledNothing(State(), Incomplete, input, 0, o0, at);
                       r := Incomplete;
      case OutputFull => CalledNothing(State(), BufferFull([]), input, 0, o0, at);
                         r := BufferFull([]);
      case Refused(alert) =>
        ghost var o1 := out[..];
        r, end := RespondWith(alert, w, out, at, f, input, 0);
        CalledOver(Handshake.Refuse(w, s0.(dec := o.after), alert, input, room, f), State(), r, input, 0, out[..], o1, o0, at, end);
      case Got(kind, version, size, dataEnd) =>
        ghost var o1 := out[..];
        again, r, c, end := TakeRecord(w, kind, version, out[at..dataEnd], inp, start, stop, size, out, at, dataEnd, f);
        if !again {
          CalledOver(DecodeMore(w, s0, input, room, f), State(), r, input, c - start, out[..], o1, o0, at, end);
        }
    }

    /** What a record that has been opened has for effect. */
    method TakeRecord(w: World, kind: byte, version: byte, data: seq<byte>, inp: array<byte>, start: nat, stop: nat, size: nat,
                      out: array<byte>, at: nat, dataEnd: nat, f: Supply)
      returns (again: bool, r: Result, c: nat, end: nat)
      requires GoodWorld(w) && Valid() && Apart(out) && Apart(inp) && inp != out && start < start + size <= stop <= inp.Length
      requires at <= dataEnd <= out.Length && data == out[at..dataEnd]
      modifies this, keys, outgoing, outgoing.seqno, incoming, incoming.seqno, out
      ensures Valid() && start <= c <= stop && (again ==> start < c) && out[..at] == old(out[..at])
      ensures var p := Opens(w, old(State()), kind, version, data, inp[start..stop], size, out.Length - at, f);
              if again then p == DecodeMore(w, State(), inp[c..stop], out.Length - at, f)
              else Called(p, State(), r, inp[start..stop], c - start, out[..], old(out[..]), at, end)
    {
      hide DecodeMore, ActivateRead, HandshakeRecord, AlertRecord, Tabled, GoodWorld, Handshake.Refuse, OpensData;
      ghost var input := inp[start..stop];
      again, r, c, end := false, Nothing, start, at;
      assert input[0..] == input && input[size..] == inp[start + size..stop];
      if kind == CHANGE_CIPHER_SPEC {
        if data == [] || data[0] != 1 {
          r, end := RespondWith(ILLEGAL_PARAMETER, w, out, at, f, input, 0);
        } else if hsState != FINISHED {
          r, end := RespondWith(UNEXPECTED_MESSAGE, w, out, at, f, input, 0);
        } else {
          ActivateReadCipher();
          again, c := true, start + size;
        }
      } else if kind == ALERT {
        r, end := DecodeAlert(w, data, out, at, f, input);
      } else if kind == HANDSHAKE {
        var read;
        r, read, end := DecodeHandshake(w, version, data, out, at, f, input, size);
        c := start + read;
      } else if (hsState != DONE && hsState != SERVER_HELLO) || !flags.readSecure {
        r, end := RespondWith(UNEXPECTED_MESSAGE, w, out, at, f, input, 0);
      } else {
        c := start + size;
        again, r, end := TakeData(w, data, out, at, dataEnd, f, input, size);
      }
    }

    /** Application data; empty records are dropped, up to a limit. */
    method TakeData(w: World, data: seq<byte>, out: array<byte>, at: nat, dataEnd: nat, f: Supply, ghost input: seq<byte>,
                    ghost size: nat)
      returns (again: bool, r: Result, end: nat)
      requires GoodWorld(w) && Valid() && Apart(out) && at <= dataEnd <= out.Length && data == out[at..dataEnd]
      requires 0 < size <= |input|
      modifies this, keys, outgoing, outgoing.seqno, out
      ensures Valid() && out[..at] == old(out[..at])
      ensures var p := OpensData(w, old(State()), data, input, size, out.Length - at, f);
              if again then p == DecodeMore(w, State(), input[size..], out.Length - at, f)
              else Called(p, State(), r, input, size, out[..], old(out[..]), at, end)
    {
      hide DecodeMore, Tabled, GoodWorld, Handshake.Refuse;
      again, r, end := false, Nothing, at;
      if data != [] {
        if ignored > 0 {
          ignored := ignored - 1;
        }
        return false, ProcessData(data), dataEnd;
      }
      ignored := ignored + 1;
      if ignored <= MAX_IGNORED {
        again := true;
      } else {
        r, end := RespondWith(UNEXPECTED_MESSAGE, w, out, at, f, input, size);
      }
    }

    method DecodeAlert(w: World, data: seq<byte>, out: array<byte>, at: nat, f: Supply, ghost input: seq<byte>)
      returns (r: Result, end: nat)
      requires GoodWorld(w) && Valid() && Apart(out) && at <= out.Length
      modifies this, keys, outgoing, outgoing.seqno, out
      ensures Valid()
      ensures Called(AlertRecord(w, old(State()), data, input, out.Length - at, f), State(), r, input, 0, out[..], old(out[..]), at, end)
    {
      hide Handshake.Refuse, Tabled, GoodWorld;
      assert input[0..] == input;
      if |data| < 2 {
        r, end := RespondWith(ILLEGAL_PARAMETER, w, out, at, f, input, 0);
      } else {
        NoteAlert(data[0], data[1]);
        return AlertReceived, at;
      }
    }

    /** A fatal alert spoils the connection, a close notification closes it. */
    method NoteAlert(level: byte, description: byte)
      requires Valid()
      modifies `flags
      ensures Valid()
      ensures var s := old(State()); State() == s.(flags := s.flags.(error := s.flags.error || level == 2, closed := s.flags.closed || description == 0))
    {
      hide Tabled;
      if level == 2 {
        flags := flags.(error := true);
      }
      if description == 0 {
        flags := flags.(closed := true);
      }
    }

    /** A handshake record at the front of the input; how much of the input it has used up. */
    method DecodeHandshake(w: World, recMaj: byte, data: seq<byte>, out: array<byte>, at: nat, f: Supply, ghost input: seq<byte>,
                           size: nat)
      returns (r: Result, c: nat, end: nat)
      requires GoodWorld(w) && Valid() && Apart(out) && at <= out.Length && size <= |input|
      modifies this, keys, outgoing, outgoing.seqno, out
      ensures Valid() && c <= size
      ensures Called(HandshakeRecord(w, old(State()), recMaj, data, input, input[size..], out.Length - at, f), State(), r, input, c,
                     out[..], old(out[..]), at, end)
    {
      hide Handshake.Respond, Handshake.ParseHandshake, Tabled, GoodWorld;
      c, end := size, at;
      if hsState == DONE {
        return NextHandshake(data), c, end;
      }
      var v := ParseHandshake(w, recMaj, data);
      match v
      case Wrong =>
        assert input[0..] == input;
        c := 0;
        r, end := Respond(w, out, at, f, input, c);
      case Right(respond) =>
        if respond {
          r, end := Respond(w, out, at, f, input, c);
        } else {
          r := Nothing;
        }
      case Another(left) => r := NextHandshake(left);
    }

    /** The client's opening message with the suites it offers. */
    method WriteClientHello(offer: seq<byte>, out: array<byte>, at: nat, f: Supply) returns (end: nat, code: Code)
      requires Valid() && Apart(out) && at <= out.Length
      modifies this, outgoing`ctx, outgoing.seqno, out
      ensures Valid()
      ensures Wrote(Handshake.WriteClientHello(old(State()), offer, out.Length - at, f), State(), out[..], old(out[..]), at, end, code)
    {
      hide SendHandshake, ClientHelloBody, RecordSize, Tabled;
      var messageSize := HANDSHAKE_HEADER_LEN + 5 + RANDOM_SIZE + |sessionId| + (2 + |offer|);
      if RecordSize(outgoing.suite, messageSize) > out.Length - at {
        return at, Full;
      }
      clientRandom := f.random;
      end, code := WriteHandshake(CLIENT_HELLO, ClientHelloBody(ver.maj, ver.min, f.random, sessionId, offer), out, at);
      if code.Success? {
        flags := flags.(clientAuth := false);
        hsState := SERVER_HELLO;
      }
    }

    /** Opens a handshake. */
    method EncodeClientHello(w: World, cipherSpec: nat, out: array<byte>, at: nat, f: Supply) returns (end: nat, code: Code)
      requires Valid() && Apart(out) && at <= out.Length
      modifies this, outgoing`ctx, outgoing.seqno, out
      ensures Valid()
      ensures Wrote(Handshake.EncodeClientHello(w, old(State()), cipherSpec, out.Length - at, f), State(), out[..], old(out[..]), at, end, code)
    {
      hide Handshake.WriteClientHello, Tabled;
      if flags.error || flags.closed || flags.server || hsState != SERVER_HELLO {
        return at, Error;
      }
      Restart();
      var spec := if sessionId != [] then cipher.id else cipherSpec;
      if spec != SSL_NULL_WITH_NULL_NULL && w.lookup(spec).None? {
        return at, Error;
      }
      end, code := WriteClientHello(if spec == SSL_NULL_WITH_NULL_NULL then w.offered else Len2(spec), out, at, f);
    }

    /** The running hashes start anew, and nothing is resumed without a session. */
    method Restart()
      requires Valid()
      modifies `flags, `transcript
      ensures Valid()
      ensures var s := old(State());
              State() == s.(flags := s.flags.(resumed := s.flags.resumed && s.sessionId != []), sec := s.sec.(transcript := []))
    {
      hide Tabled;
      transcript := [];
      if sessionId == [] {
        flags := flags.(resumed := false);
      }
    }

    /** One record of application data. */
    method Encode(data: seq<byte>, out: array<byte>, at: nat) returns (end: nat, code: Code)
      requires Valid() && Apart(out) && at <= out.Length
      modifies outgoing`ctx, outgoing.seqno, out
      ensures Valid()
      ensures Wrote(EncodeData(old(State()), data, out.Length - at), State(), out[..], old(out[..]), at, end, code)
    {
      hide Send;
      if flags.error || hsState != DONE || flags.closed {
        return at, Error;
      }
      if SSL3_HEADER_LEN + |data| > SSL_MAX_RECORD_LEN + SSL3_HEADER_LEN {
        return at, Error;
      }
      end, code := WriteRecord(APPLICATION_DATA, data, out, at);
    }
  }

  // ----- what was written

  lemma WroteBounds(a: Flight, s: Conn, out: seq<byte>, was: seq<byte>, at: nat, end: nat, code: Code)
    requires Wrote(a, s, out, was, at, end, code)
    ensures a.conn == s && a.code == code && at <= end <= |out| == |was| && |a.wire| == end - at
  {}

  lemma WroteNothing(s: Conn, out: seq<byte>, at: nat)
    requires at <= |out|
    ensures Wrote(Flight(s, [], Success), s, out, out, at, at, Success)
  {}

  /** A flight behind another. */
  lemma WroteNext(a: Flight, s1: Conn, o1: seq<byte>, o0: seq<byte>, at: nat, mid: nat, b: Flight, s2: Conn, o2: seq<byte>,
                  end: nat, code: Code)
    requires Wrote(a, s1, o1, o0, at, mid, Success) && Wrote(b, s2, o2, o1, mid, end, code)
    ensures Wrote(Behind(a, b), s2, o2, o0, at, end, code) && at <= mid <= |o1| && |a.wire| == mid - at
  {
    assert o2[..at] == o2[..mid][..at] == o1[..mid][..at] == o1[..at];
    assert o2[at..end] == o2[..mid][at..] + o2[mid..end];
    assert o1[..mid][at..] == o1[at..mid];
  }

  // ----- what was decoded

  lemma CalledNothing(s: Conn, r: Result, input: seq<byte>, c: nat, out: seq<byte>, at: nat)
    requires c <= |input| && at <= |out| && Payload(r) == []
    ensures Called(Decoded(s, r, input[c..]), s, r, input, c, out, out, at, at)
  {}

  /** What lies behind the position may have been written over before. */
  lemma CalledOver(d: Decoded, s: Conn, r: Result, input: seq<byte>, c: nat, out: seq<byte>, o1: seq<byte>, o0: seq<byte>, at: nat,
                   end: nat)
    requires Called(d, s, r, input, c, out, o1, at, end) && |o1| == |o0| && at <= |o0| && o1[..at] == o0[..at]
    ensures Called(d, s, r, input, c, out, o0, at, end)
  {}

  /** Other records may have been read before. */
  lemma CalledLater(d: Decoded, inp: seq<byte>, start: nat, from: nat, stop: nat, c: nat, s: Conn, r: Result,
                    out: seq<byte>, o1: seq<byte>, o0: seq<byte>, at: nat, end: nat)
    requires start <= from <= c <= stop <= |inp| && Called(d, s, r, inp[from..stop], c - from, out, o1, at, end)
    requires |o1| == |o0| && at <= |o0| && o1[..at] == o0[..at]
    ensures Called(d, s, r, inp[start..stop], c - start, out, o0, at, end)
  {
    assert inp[from..stop][c - from..] == inp[c..stop] == inp[start..stop][c - start..];
  }

  /** What the decoder does with a record that has been opened. */
  function Opens(w: World, s: Conn, kind: byte, version: byte, data: seq<byte>, input: seq<byte>, size: nat, room: nat,
                 f: Supply): Decoded
    requires 0 < size <= |input|
  {
    if kind == CHANGE_CIPHER_SPEC then
      if data == [] || data[0] != 1 then Handshake.Refuse(w, s, ILLEGAL_PARAMETER, input, room, f)
      else if s.hsState != FINISHED then Handshake.Refuse(w, s, UNEXPECTED_MESSAGE, input, room, f)
      else DecodeMore(w, ActivateRead(s), input[size..], room, f)
    else if kind == ALERT then AlertRecord(w, s, data, input, room, f)
    else if kind == HANDSHAKE then HandshakeRecord(w, s, version, data, input, input[size..], room, f)
    else if (s.hsState != DONE && s.hsState != SERVER_HELLO) || !s.flags.readSecure then Handshake.Refuse(w, s, UNEXPECTED_MESSAGE, input, room, f)
    else OpensData(w, s, data, input, size, room, f)
  }

  function OpensData(w: World, s: Conn, data: seq<byte>, input: seq<byte>, size: nat, room: nat, f: Supply): Decoded
    requires 0 < size <= |input|
  {
    if data == [] then
      if s.ignored < MAX_IGNORED then DecodeMore(w, s.(ignored := s.ignored + 1), input[size..], room, f)
      else Handshake.Refuse(w, s.(ignored := s.ignored + 1), UNEXPECTED_MESSAGE, input[size..], room, f)
    else Decoded(s.(ignored := if s.ignored > 0 then s.ignored - 1 else 0), ProcessData(data), input[size..])
  }

  function Effect(w: World, s: Conn, o: Opened, input: seq<byte>, room: nat, f: Supply): Decoded
    requires o.Opened? ==> 0 < o.size <= |input|
  {
    match o
    case Empty => Decoded(s, Nothing, input)
    case Partial => Decoded(s, Incomplete, input)
    case NoRoom => Decoded(s, BufferFull([]), input)
    case Failed(alert, after) => Handshake.Refuse(w, s.(dec := after), alert, input, room, f)
    case Opened(kind, version, data, next, size) => Opens(w, s.(dec := next), kind, version, data, input, size, room, f)
  }

  lemma OpenedBy(w: World, s: Conn, input: seq<byte>, room: nat, f: Supply)
    ensures DecodeMore(w, s, input, room, f) == Effect(w, s, Open(s.dec, VersionSettled(s), s.ver.maj, s.ver.min, input, room), input, room, f)
  {
    hide Open, ActivateRead, HandshakeRecord, AlertRecord, Handshake.Refuse;
  }

  // ----- what was read

  /** The outcome of reading a message is that of its specification. */
  ghost predicate Reads(p: Parsed, t: Conn, r: Reading) {
    match p
    case Fail(alert, at) => r == Rejected && t == at.(err := alert)
    case Go(next, used, respond) => r == Accepted(used, respond) && t == next
  }

  ghost predicate MessageTaken(m: Taken, t: Conn, r: Reading) {
    match m
    case NotTaken(alert, at) => r == Rejected && t == at.(err := alert)
    case Taken(next, size, respond) => r == Accepted(size, respond) && t == next
  }

  ghost predicate Parses(h: Handled, t: Conn, v: Verdict) {
    match h
    case Stopped(alert, at) => v == Wrong && t == at.(err := alert)
    case Ok(next, respond) => v == Right(respond) && t == next
    case Ended(next, respond, left) => v == Another(left) && t == next
  }

  lemma HearKeepsState(s: Conn, m: seq<byte>)
    ensures Hear(s, m).hsState == s.hsState
  {}

  lemma NegotiatedIsTabled(w: World, s: Conn, ids: seq<nat>)
    requires GoodWorld(w) && Tabled(s.cipher)
    ensures Negotiate(w, s, ids).Some? ==> Tabled(Negotiate(w, s, ids).value)
  {
    hide Tabled;
    HandshakeSafety.ChooseIsTabled(w, ids);
  }

  /** Only a Finished message is compared with the hash. */
  lemma SameHash(w: World, s: Conn, recMaj: byte, c: seq<byte>, hsLen: nat, hash: seq<byte>, hash': seq<byte>)
    requires s.hsState == FINISHED ==> hash == hash'
    ensures Handshake.ReadBody(w, s, recMaj, c, hsLen, hash) == Handshake.ReadBody(w, s, recMaj, c, hsLen, hash')
  {
    hide Handshake.ReadClientHello, Handshake.ReadServerHello, Handshake.ReadCertificate, Handshake.ReadClientKeyExchange;
  }
}
