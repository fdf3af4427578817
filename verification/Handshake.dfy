/** The SSL 3.0 handshake state machine: parsing messages, answering them, and switching ciphers. */
module Handshake {
  import opened MpBytes
  import opened Record
  import opened Keys
  import opened Options

  // ----- handshake states and message types

  const CLIENT_HELLO: nat := 1
  const SERVER_HELLO: nat := 2
  const CERTIFICATE: nat := 11
  const CERTIFICATE_REQUEST: nat := 13
  const SERVER_HELLO_DONE: nat := 14
  const CLIENT_KEY_EXCHANGE: nat := 16
  const FINISHED: nat := 20
  const DONE: nat := 255

  const NO_ERROR: byte := 255
  const RANDOM_SIZE: nat := 32
  const PREMASTER_SIZE: nat := 48
  const SESSION_ID_SIZE: nat := 32
  const HANDSHAKE_HEADER_LEN: nat := 4
  const FINISHED_SIZE: nat := 36
  const SSL_MAX_MAC_SIZE: nat := 20
  const SSL_MAX_BLOCK_SIZE: nat := 16
  const MAX_IGNORED: nat := 1024

  // ----- what a connection depends on

  datatype Session = Session(id: seq<byte>, master: seq<byte>, suite: Suite)

  datatype ChainCheck = Bad(alert: byte) | Good(size: nat)

  /** The cipher table, the certificate step, the public-key operations and the server's session table. */
  datatype World = World(
    hashes: Hashes,
    plain: Suite,
    lookup: nat -> Option<Suite>,
    offered: seq<byte>,
    chain: seq<byte>,
    checkChain: seq<byte> -> ChainCheck,
    certRequest: seq<byte> -> ChainCheck,
    keySize: seq<byte> -> nat,
    encryptPub: (seq<byte>, seq<byte>, seq<byte>) -> seq<byte>,
    decryptPriv: seq<byte> -> Option<seq<byte>>,
    resume: (seq<byte>, byte) -> Option<Session>)

  ghost predicate Tabled(s: Suite) {
    (Sound(s) || IsNull(s)) && KeyIter(KeyLength(s)) <= SALTS
  }

  ghost predicate GoodWorld(w: World) {
    && HashLengths(w.hashes) && IsNull(w.plain) && Tabled(w.plain)
    && (forall id: nat :: w.lookup(id).Some? ==> Tabled(w.lookup(id).value) && w.lookup(id).value.id == id)
    && (forall id, maj :: w.resume(id, maj).Some? ==> Tabled(w.resume(id, maj).value.suite))
  }

  datatype Flags = Flags(
    server: bool, readSecure: bool, writeSecure: bool, resumed: bool, clientAuth: bool,
    closed: bool, error: bool, needEncode: bool)

  /** Random numbers, secrets, derived keys, and what the running handshake hashes have been fed. */
  datatype Security = Security(
    clientRandom: seq<byte>, serverRandom: seq<byte>, master: seq<byte>, premaster: seq<byte>, keys: Slices,
    transcript: seq<byte>, cert: Option<seq<byte>>)

  datatype Versions = Versions(maj: byte, min: byte, reqMaj: byte, reqMin: byte)

  /** The connection. */
  datatype Conn = Conn(
    flags: Flags, hsState: nat, err: byte, ignored: nat,
    cipher: Suite, enc: Direction, dec: Direction,
    ver: Versions, sec: Security, sessionId: seq<byte>)

  const NO_SLICES := Slices([], [], [], [], [], [])

  /** A new connection: the null suite both ways, and for a client the session it may resume. */
  function NewSession(w: World, server: bool, session: Option<Session>): Conn {
    var idle := Direction(w.plain, [], [], Repeat(0, 8));
    var begun := Conn(Flags(server, false, false, false, false, false, false, false),
                      if server then CLIENT_HELLO else SERVER_HELLO, NO_ERROR, 0,
                      w.plain, idle, idle,
                      Versions(if server then 0 else 3, 0, 0, 0), Security([], [], [], [], NO_SLICES, [], None), []);
    if !server && session.Some? && session.value.suite.id != SSL_NULL_WITH_NULL_NULL && w.lookup(session.value.suite.id).Some? then
      begun.(cipher := w.lookup(session.value.suite.id).value, sec := begun.sec.(master := session.value.master), sessionId := session.value.id)
    else begun
  }

  // ----- key derivation and cipher activation

  /** The master secret of a full handshake; a resumed session brings its own. */
  function DeriveMaster(w: World, s: Conn): Conn {
    if s.flags.resumed then s
    else s.(sec := s.sec.(master := MasterSecret(w.hashes, s.sec.premaster, s.sec.clientRandom, s.sec.serverRandom), premaster := []))
  }

  function CreateKeys(w: World, s: Conn): Slices {
    if KeyIter(KeyLength(s.cipher)) > SALTS then s.sec.keys
    else
      var block := KeyBlock(w.hashes, s.cipher, s.sec.master, s.sec.clientRandom, s.sec.serverRandom);
      if KeyLength(s.cipher) <= |block| then Slice(block, s.cipher, s.flags.server) else s.sec.keys
  }

  function DeriveKeys(w: World, s: Conn): Conn {
    var s1 := DeriveMaster(w, s);
    s1.(sec := s1.sec.(keys := CreateKeys(w, s1)))
  }

  /** The slices are those of the current secret, random numbers and suite. */
  ghost predicate Derived(w: World, s: Conn) {
    && KeyIter(KeyLength(s.cipher)) <= SALTS
    && var block := KeyBlock(w.hashes, s.cipher, s.sec.master, s.sec.clientRandom, s.sec.serverRandom);
    KeyLength(s.cipher) <= |block| && s.sec.keys == Slice(block, s.cipher, s.flags.server)
  }

  function ActivateRead(s: Conn): Conn {
    s.(dec := Activated(s.dec, s.cipher, s.sec.keys.rMac, s.sec.keys.rKey, s.sec.keys.rIv),
       flags := s.flags.(readSecure := s.flags.readSecure || s.cipher.id != SSL_NULL_WITH_NULL_NULL))
  }

  function ActivateWrite(s: Conn): Conn {
    s.(enc := Activated(s.enc, s.cipher, s.sec.keys.wMac, s.sec.keys.wKey, s.sec.keys.wIv),
       flags := s.flags.(writeSecure := s.flags.writeSecure || s.cipher.id != SSL_NULL_WITH_NULL_NULL))
  }

  /** What the other side's Finished message has to hold. */
  function PeerFinished(w: World, s: Conn): seq<byte> {
    FinishedHash(w.hashes, s.sec.master, s.sec.transcript, Sender(!s.flags.server))
  }

  /** What its own Finished message holds. */
  function OwnFinished(w: World, s: Conn): seq<byte> {
    FinishedHash(w.hashes, s.sec.master, s.sec.transcript, Sender(s.flags.server))
  }

  // ----- messages on the wire

  function Len3(n: nat): (s: seq<byte>)
    ensures |s| == 3
  {
    [n / 0x1_0000 % 256, n / 256 % 256, n % 256]
  }

  function Value3(a: int, b: int, c: int): int {
    a * 0x1_0000 + b * 256 + c
  }

  function Message(kind: byte, body: seq<byte>): seq<byte> {
    [kind] + Len3(|body|) + body
  }

  function ClientHelloBody(maj: byte, min: byte, random: seq<byte>, sid: seq<byte>, suites: seq<byte>): seq<byte> {
    [maj, min] + random + [|sid| % 256] + sid + Len2(|suites|) + suites + [1, 0]
  }

  function ServerHelloBody(maj: byte, min: byte, random: seq<byte>, sid: seq<byte>, id: nat): seq<byte> {
    [maj, min] + random + [|sid| % 256] + sid + Len2(id) + [0]
  }

  /** A handshake message, sent or received, enters the running hashes. */
  function Hear(s: Conn, m: seq<byte>): Conn {
    s.(sec := s.sec.(transcript := s.sec.transcript + m))
  }

  // ----- parsing messages

  /** A message refused leaves what it has already noted; one accepted leads on. */
  datatype Parsed = Fail(alert: byte, at: Conn) | Go(next: Conn, used: nat, respond: bool)

  /** The version, random number and session id that start both hello messages. */
  datatype Hello = BadHello | Hello(random: seq<byte>, sid: Option<seq<byte>>, rest: seq<byte>)

  /** A session id that is too long or runs past the message is missing. */
  function HelloStart(c: seq<byte>): (h: Hello)
    requires |c| >= 2
    ensures h.Hello? ==> |h.random| == RANDOM_SIZE && |h.rest| <= |c|
    ensures h.Hello? && h.sid.Some? ==> |h.sid.value| <= SESSION_ID_SIZE && |c| == 35 + |h.sid.value| + |h.rest|
  {
    if |c| - 2 < RANDOM_SIZE + 1 then BadHello
    else
      var n := c[34];
      if n > SESSION_ID_SIZE || |c| - 35 < n then Hello(c[2..34], None, [])
      else Hello(c[2..34], Some(c[35..35 + n]), c[35 + n..])
  }

  function IdOf(s: seq<byte>): nat
    requires |s| >= 2
  {
    Value2(s[0], s[1])
  }

  /** The suites of a list, in order. */
  function SuiteIds(s: seq<byte>): seq<nat> {
    if |s| < 2 then [] else [IdOf(s)] + SuiteIds(s[2..])
  }

  /** The suites of a version 2 list, three bytes each. */
  function LongIds(s: seq<byte>): seq<nat> {
    if |s| < 3 then [] else [Value3(s[0], s[1], s[2])] + LongIds(s[3..])
  }

  /** The first suite of the client's list that the server supports. */
  function Choose(w: World, ids: seq<nat>): Option<Suite> {
    if ids == [] then None
    else if w.lookup(ids[0]).Some? then w.lookup(ids[0])
    else Choose(w, ids[1..])
  }

  /** What follows the suite list: compression methods, then possibly extensions, then nothing. */
  predicate HelloTail(c: seq<byte>, min: byte) {
    && |c| >= 1
    && |c| - 1 >= c[0]
    && (min == 0 ==> c[0] == 1)
    && var rest := c[1 + c[0]..];
    rest == [] || (|rest| >= 2 && |rest| == 2 + IdOf(rest))
  }

  /** A session the client names is looked up; one that is found brings its suite and master secret. */
  function FindSession(w: World, s: Conn, sid: seq<byte>): Conn {
    if sid == [] then s.(flags := s.flags.(resumed := false), sessionId := [])
    else
      match w.resume(sid, s.ver.maj)
      case None => s.(sessionId := [])
      case Some(found) =>
        s.(flags := s.flags.(resumed := true, clientAuth := false), sessionId := sid, cipher := found.suite, sec := s.sec.(master := found.master))
  }

  /** A resumed session can only keep its suite. */
  function Negotiate(w: World, s: Conn, ids: seq<nat>): Option<Suite> {
    if !s.flags.resumed then Choose(w, ids) else if s.cipher.id in ids then Some(s.cipher) else None
  }

  /** A suite has to be found and must not be the null suite. */
  predicate Usable(chosen: Option<Suite>) {
    chosen.Some? && chosen.value.id != SSL_NULL_WITH_NULL_NULL
  }

  /** After the client's hello, a resumed session only has its Finished messages left. */
  function AfterClientHello(s: Conn): Conn {
    s.(hsState := if s.flags.resumed then FINISHED else CLIENT_KEY_EXCHANGE)
  }

  /** The suites a client offers, and what follows them. */
  function ReadOffer(w: World, s: Conn, c: seq<byte>): Parsed {
    if |c| < 2 then Fail(ILLEGAL_PARAMETER, s)
    else
      var n := IdOf(c);
      if n == 0 || n % 2 == 1 || |c| - 2 < n then Fail(ILLEGAL_PARAMETER, s)
      else
        var chosen := Negotiate(w, s, SuiteIds(c[2..2 + n]));
        if !Usable(chosen) then Fail(HANDSHAKE_FAILURE, s.(cipher := w.plain))
        else
          var s1 := s.(cipher := chosen.value);
          if !HelloTail(c[2 + n..], s.ver.reqMin) then Fail(ILLEGAL_PARAMETER, s1)
          else Go(AfterClientHello(s1), |c|, true)
  }

  /** A hello of version 3: random number, session id, suites, compression methods and extensions. */
  function ReadHello3(w: World, s: Conn, c: seq<byte>): Parsed
    requires |c| >= 2
  {
    match HelloStart(c)
    case BadHello => Fail(ILLEGAL_PARAMETER, s)
    case Hello(random, sid, rest) =>
      var s1 := s.(sec := s.sec.(clientRandom := random));
      if sid.None? then Fail(ILLEGAL_PARAMETER, s1)
      else
        match ReadOffer(w, FindSession(w, s1, sid.value), rest)
        case Fail(alert, at) => Fail(alert, at)
        case Go(next, _, respond) => Go(next, |c|, respond)
  }

  /** The suites and the challenge of a version 2 hello; the challenge fills the end of the random number. */
  function TakeLongHello(w: World, s: Conn, list: seq<byte>, challenge: seq<byte>, used: nat): Parsed
    requires |challenge| <= RANDOM_SIZE
  {
    var chosen := Choose(w, LongIds(list));
    if !Usable(chosen) then Fail(HANDSHAKE_FAILURE, s.(cipher := w.plain))
    else
      Go(AfterClientHello(s.(cipher := chosen.value, sec := s.sec.(clientRandom := Repeat(0, RANDOM_SIZE - |challenge|) + challenge))), used, true)
  }

  /** A hello in the form of version 2: three lengths, suites of three bytes and a challenge. It has no session id. */
  function ReadHello2(w: World, s: Conn, c: seq<byte>): Parsed
    requires |c| >= 2
  {
    if |c| - 2 < 6 then Fail(ILLEGAL_PARAMETER, s)
    else
      var n, sidLen, challenge := IdOf(c[2..]), IdOf(c[4..]), IdOf(c[6..]);
      if n == 0 || n % 3 != 0 || sidLen != 0 then Fail(ILLEGAL_PARAMETER, s)
      else
        var s1 := s.(sessionId := []);
        if challenge < 16 || challenge > 32 || |c| - 8 != n + challenge then Fail(ILLEGAL_PARAMETER, s1)
        else TakeLongHello(w, s1, c[8..8 + n], c[8 + n..], |c|)
  }

  /** The client's hello, in the form its record says. */
  function ReadClientHello(w: World, s: Conn, recMaj: byte, c: seq<byte>): Parsed {
    if |c| < 2 then Fail(ILLEGAL_PARAMETER, s)
    else if c[0] < 3 then Fail(HANDSHAKE_FAILURE, s.(ver := s.ver.(reqMaj := c[0], reqMin := c[1])))
    else
      var s1 := s.(ver := Versions(c[0], 0, c[0], c[1]));
      if recMaj > 2 then ReadHello3(w, s1, c) else ReadHello2(w, s1, c)
  }

  /** The server answers with the id the client asked to resume, or the first bytes of it. */
  predicate SameSession(s: Conn, sid: seq<byte>) {
    sid != [] && |sid| <= |s.sessionId| && s.sessionId[..|sid|] == sid
  }

  /** The session id a server answers with decides whether the client's session is resumed. */
  function AgreeSession(w: World, s: Conn, sid: seq<byte>): Conn {
    if SameSession(s, sid) then s.(flags := s.flags.(resumed := true))
    else (if s.sessionId != [] then DropSession(w, s) else s).(sessionId := sid)
  }

  function DropSession(w: World, s: Conn): Conn {
    s.(cipher := w.plain, sec := s.sec.(master := Repeat(0, 48)), flags := s.flags.(resumed := false))
  }

  /** A resumed session keeps its suite; otherwise the server's choice has to be a known one. */
  function ServerChoice(w: World, s: Conn, id: nat): Option<Suite> {
    if s.flags.resumed then (if s.cipher.id == id then Some(s.cipher) else None) else w.lookup(id)
  }

  /** The suite the server has chosen, and the compression method. A suite that is not known leaves none. */
  function ReadChoice(w: World, s: Conn, c: seq<byte>): Parsed {
    if |c| < 2 then Fail(ILLEGAL_PARAMETER, s)
    else
      var chosen := ServerChoice(w, s, IdOf(c));
      if chosen.None? then Fail(HANDSHAKE_FAILURE, if s.flags.resumed then s else s.(cipher := w.plain))
      else if |c| < 3 || c[2] != 0 then Fail(ILLEGAL_PARAMETER, s.(cipher := chosen.value))
      else Go(AfterServerHello(w, s.(cipher := chosen.value)), 3, false)
  }

  function AfterServerHello(w: World, s: Conn): Conn {
    if s.flags.resumed then DeriveKeys(w, s).(hsState := FINISHED) else s.(hsState := CERTIFICATE)
  }

  function ReadServerHello(w: World, s: Conn, c: seq<byte>): Parsed {
    if |c| < 2 then Fail(ILLEGAL_PARAMETER, s)
    else
      var s1 := s.(ver := s.ver.(reqMaj := c[0], reqMin := c[1]));
      if c[0] != s.ver.maj then Fail(HANDSHAKE_FAILURE, s1)
      else
        match HelloStart(c)
        case BadHello => Fail(ILLEGAL_PARAMETER, s1)
        case Hello(random, sid, rest) =>
          var s2 := s1.(sec := s1.sec.(serverRandom := random));
          if sid.None? then Fail(ILLEGAL_PARAMETER, s2)
          else
            match ReadChoice(w, AgreeSession(w, s2, sid.value), rest)
            case Fail(alert, at) => Fail(alert, at)
            case Go(next, used, respond) => Go(next, |c| - |rest| + used, respond)
  }

  /** The answer of a check outside this model: an alert, or the bytes it has read. */
  function Checked(check: ChainCheck, s: Conn, least: nat, limit: nat, next: Conn): (p: Parsed)
    ensures p.Go? ==> p.used <= limit
  {
    match check
    case Bad(alert) => Fail(if alert == NO_ERROR then BAD_CERTIFICATE else alert, s)
    case Good(n) => if n < least || n > limit then Fail(BAD_CERTIFICATE, s) else Go(next, n, false)
  }

  function ReadCertificate(w: World, s: Conn, c: seq<byte>): Parsed {
    if |c| < 3 then Fail(ILLEGAL_PARAMETER, s)
    else
      var n := if w.checkChain(c).Good? && w.checkChain(c).size <= |c| then w.checkChain(c).size else 0;
      Checked(w.checkChain(c), s, 3, |c|,
              s.(sec := s.sec.(cert := Some(c[..n])), hsState := if s.flags.server then CLIENT_KEY_EXCHANGE else SERVER_HELLO_DONE))
  }

  /** The version inside the premaster secret is the one requested, or the one agreed on if a later one was requested. */
  predicate VersionKept(s: Conn, premaster: seq<byte>)
    requires |premaster| >= 2
  {
    premaster[0] == s.ver.reqMaj && (premaster[1] == s.ver.reqMin || (s.ver.reqMin >= 1 && premaster[1] == s.ver.min))
  }

  function ReadClientKeyExchange(w: World, s: Conn, c: seq<byte>, hsLen: nat): Parsed {
    if |c| < hsLen then Fail(ILLEGAL_PARAMETER, s)
    else
      match w.decryptPriv(c[..hsLen])
      case None => Fail(ILLEGAL_PARAMETER, s)
      case Some(premaster) =>
        var s1 := s.(sec := s.sec.(premaster := premaster));
        if |premaster| != PREMASTER_SIZE then Fail(ILLEGAL_PARAMETER, s)
        else if !VersionKept(s, premaster) then Fail(ILLEGAL_PARAMETER, s1)
        else Go(DeriveKeys(w, s1).(hsState := FINISHED), hsLen, false)
  }

  /** Accepted only on a secure connection and only if it holds the hash of the handshake so far. */
  function ReadFinished(s: Conn, c: seq<byte>, hsLen: nat, hash: seq<byte>): Parsed {
    if !s.flags.readSecure then Fail(UNEXPECTED_MESSAGE, s)
    else if hsLen != FINISHED_SIZE || |c| < hsLen then Fail(ILLEGAL_PARAMETER, s)
    else if c[..hsLen] != hash then Fail(ILLEGAL_PARAMETER, s)
    else Go(s.(hsState := DONE, sec := s.sec.(cert := None)), hsLen, s.flags.server != s.flags.resumed)
  }

  /** One message body in the current state; c is all that is left of the record after the message header. */
  function ReadBody(w: World, s: Conn, recMaj: byte, c: seq<byte>, hsLen: nat, hash: seq<byte>): (p: Parsed)
    ensures p.Go? ==> p.used <= |c|
  {
    if s.hsState == CLIENT_HELLO then ReadClientHello(w, s, recMaj, c)
    else if s.hsState == CLIENT_KEY_EXCHANGE then ReadClientKeyExchange(w, s, c, hsLen)
    else if s.hsState == FINISHED then ReadFinished(s, c, hsLen, hash)
    else if s.hsState == SERVER_HELLO then ReadServerHello(w, s, c)
    else if s.hsState == CERTIFICATE then ReadCertificate(w, s, c)
    else if s.hsState == SERVER_HELLO_DONE then
      if hsLen != 0 then Fail(BAD_CERTIFICATE, s) else Go(s.(hsState := FINISHED), 0, true)
    else if s.hsState == CERTIFICATE_REQUEST then
      if hsLen < 4 then Fail(ILLEGAL_PARAMETER, s)
      else Checked(w.certRequest(c), s, 0, |c|, s.(hsState := SERVER_HELLO_DONE))
    else Fail(UNEXPECTED_MESSAGE, s)
  }

  /** Which message the state expects; a certificate request may stand in for the end of the server's hello. */
  function Expecting(s: Conn, kind: byte): Option<Conn> {
    if kind == s.hsState then Some(s)
    else if kind == CERTIFICATE_REQUEST && s.hsState == SERVER_HELLO_DONE then
      Some(s.(flags := s.flags.(clientAuth := true), hsState := CERTIFICATE_REQUEST))
    else None
  }

  datatype Handled = Stopped(alert: byte, at: Conn) | Ok(next: Conn, respond: bool) | Ended(next: Conn, respond: bool, left: seq<byte>)

  /** A ClientHello starts the running hashes anew. */
  function Started(s: Conn, kind: byte): Conn {
    if kind == CLIENT_HELLO then s.(sec := s.sec.(transcript := [])) else s
  }

  /** One message: refused, or read up to where the next one starts. */
  datatype Taken = NotTaken(alert: byte, at: Conn) | Taken(next: Conn, size: nat, respond: bool)

  /** The size of a message header: a version 2 message has no length of its own. */
  function HeadLen(recMaj: byte): nat {
    if recMaj >= 3 then HANDSHAKE_HEADER_LEN else 1
  }

  /** The length of the body, if the header is complete; of a version 2 message, that of the record without the type. */
  function BodyLength(recMaj: byte, size: nat, data: seq<byte>): Option<nat>
    requires data != []
  {
    if recMaj == 2 then Some(if size > 0 then size - 1 else 0)
    else if recMaj < 3 || |data| < 4 then None
    else
      var n: nat := Value3(data[1], data[2], data[3]);
      if |data| - 4 < n then None else Some(n)
  }

  /** What of a message enters the running hashes: of a version 2 message, the whole record. */
  function Hashed(recMaj: byte, whole: seq<byte>, data: seq<byte>, hsLen: nat): seq<byte>
    requires recMaj >= 3 ==> |data| >= 4 + hsLen
  {
    if recMaj >= 3 then data[..4 + hsLen] else whole
  }

  /** The message at the front of what is left of a record. */
  function ReadMessage(w: World, s: Conn, recMaj: byte, whole: seq<byte>, data: seq<byte>): (t: Taken)
    ensures t.Taken? ==> 1 <= t.size <= |data|
  {
    if data == [] then NotTaken(ILLEGAL_PARAMETER, s)
    else
      match Expecting(s, data[0])
      case None => NotTaken(ILLEGAL_PARAMETER, s)
      case Some(s0) =>
        var s1 := Started(s0, data[0]);
        match BodyLength(recMaj, |whole|, data)
        case None => NotTaken(ILLEGAL_PARAMETER, s1)
        case Some(hsLen) =>
          var s2 := Hear(s1, Hashed(recMaj, whole, data, hsLen));
          match ReadBody(w, s2, recMaj, data[HeadLen(recMaj)..], hsLen, PeerFinished(w, s1))
          case Fail(alert, at) => NotTaken(alert, at)
          case Go(next, used, now) => Taken(next, HeadLen(recMaj) + used, now)
  }

  /** All messages of one record. Reading stops when the handshake is done: what follows starts another one. */
  function ParseHandshake(w: World, s: Conn, recMaj: byte, whole: seq<byte>, data: seq<byte>, respond: bool): Handled
    decreases |data|
  {
    match ReadMessage(w, s, recMaj, whole, data)
    case NotTaken(alert, at) => Stopped(alert, at)
    case Taken(next, size, now) =>
      if size == |data| then Ok(next, respond || now)
      else if next.hsState == DONE then Ended(next, respond || now, data[size..])
      else ParseHandshake(w, next, recMaj, whole, data[size..], respond || now)
  }

  // ----- writing messages

  /** Random bytes and the session id a flight may use. */
  datatype Supply = Supply(random: seq<byte>, newId: seq<byte>, secret: seq<byte>, padding: seq<byte>)

  datatype Code = Success | Full | Error

  /** Records for the peer, and how writing them ended. */
  datatype Flight = Flight(conn: Conn, wire: seq<byte>, code: Code)

  /** What is left of the room behind a flight. */
  function Left(room: nat, a: Flight): nat {
    if |a.wire| <= room then room - |a.wire| else 0
  }

  /** A flight with another behind it. */
  function Behind(a: Flight, b: Flight): Flight {
    b.(wire := a.wire + b.wire)
  }

  /** One record, if there is room for it. A cipher that refuses puts nothing on the wire. */
  function Send(s: Conn, room: nat, kind: byte, data: seq<byte>): Flight {
    if RecordSize(s.enc.suite, |data|) > room then Flight(s, [], Full)
    else
      var (d, wire) := Seal(s.enc, s.ver.maj, s.ver.min, kind, data);
      Flight(s.(enc := d), wire, if wire == [] then Error else Success)
  }

  /** A handshake message enters the transcript as it is sent. */
  function SendHandshake(s: Conn, room: nat, kind: byte, body: seq<byte>): Flight {
    var m := Message(kind, body);
    if RecordSize(s.enc.suite, |m|) > room then Flight(s, [], Full) else Send(Hear(s, m), room, HANDSHAKE, m)
  }

  /** A session that is not resumed is registered under a new id if the table has room. */
  function RegisteredId(s: Conn, f: Supply): seq<byte> {
    if !s.flags.resumed && f.newId != [] then f.newId else s.sessionId
  }

  function SendServerHello(s: Conn, room: nat, f: Supply): Flight {
    var s1 := s.(sec := s.sec.(serverRandom := f.random), sessionId := RegisteredId(s, f));
    SendHandshake(s1, room, SERVER_HELLO, ServerHelloBody(s1.ver.maj, s1.ver.min, s1.sec.serverRandom, s1.sessionId, s1.cipher.id))
  }

  /** A resumed session has all it needs for its keys once the server's random number is drawn. */
  function WriteServerHello(w: World, s: Conn, room: nat, f: Supply): Flight {
    var a := SendServerHello(s, room, f);
    if a.code.Success? && s.flags.resumed then a.(conn := DeriveKeys(w, a.conn)) else a
  }

  function WriteChangeCipherSpec(s: Conn, room: nat): Flight {
    var a := Send(s, room, CHANGE_CIPHER_SPEC, [1]);
    if a.code.Success? then a.(conn := ActivateWrite(a.conn)) else a
  }

  function WriteFinished(w: World, s: Conn, room: nat): Flight {
    var a := SendHandshake(s, room, FINISHED, OwnFinished(w, s));
    if a.code.Success? then a.(conn := a.conn.(sec := a.conn.sec.(cert := None))) else a
  }

  /** The premaster secret under the server's public key; an encryption that fails reads as a full buffer. */
  function WriteClientKeyExchange(w: World, s: Conn, room: nat, cert: seq<byte>, f: Supply): Flight {
    if RecordSize(s.enc.suite, HANDSHAKE_HEADER_LEN + w.keySize(cert)) > room then Flight(s, [], Full)
    else
      var premaster := [s.ver.reqMaj, s.ver.reqMin] + f.secret;
      var s1 := s.(sec := s.sec.(premaster := premaster));
      var sealed := w.encryptPub(cert, premaster, f.padding);
      if |sealed| != w.keySize(cert) then Flight(s1, [], Full)
      else
        var a := SendHandshake(s1, room, CLIENT_KEY_EXCHANGE, sealed);
        if a.code.Success? then a.(conn := DeriveKeys(w, a.conn)) else a
  }

  /** Change cipher spec and Finished, the last two records of a flight. */
  function WriteSwitch(w: World, s: Conn, room: nat): Flight {
    var a := WriteChangeCipherSpec(s, room);
    if !a.code.Success? then a else Behind(a, WriteFinished(w, a.conn, Left(room, a)))
  }

  /** The server's hello, certificate and end of hello. */
  function WriteHelloFlight(w: World, s: Conn, room: nat, f: Supply): Flight {
    var a := WriteServerHello(w, s, room, f);
    if !a.code.Success? then a
    else
      var b := Behind(a, SendHandshake(a.conn, Left(room, a), CERTIFICATE, w.chain));
      if !b.code.Success? then b
      else Behind(b, SendHandshake(b.conn, Left(room, b), SERVER_HELLO_DONE, []))
  }

  /** The server's answer to a session it resumes. */
  function WriteResumedFlight(w: World, s: Conn, room: nat, f: Supply): Flight {
    var a := WriteServerHello(w, s, room, f);
    if !a.code.Success? then a else Behind(a, WriteSwitch(w, a.conn, Left(room, a)))
  }

  /** A client asked for a certificate answers that it has none. */
  function WriteNoCertificate(s: Conn, room: nat): Flight {
    if s.flags.clientAuth then Send(s, room, ALERT, [1, 41]) else Flight(s, [], Success)
  }

  /** The client's key exchange and switch. */
  function WriteKeyFlight(w: World, s: Conn, room: nat, cert: seq<byte>, f: Supply): Flight {
    var a := WriteNoCertificate(s, room);
    if !a.code.Success? then a
    else
      var b := Behind(a, WriteClientKeyExchange(w, a.conn, Left(room, a), cert, f));
      if !b.code.Success? then b
      else Behind(b, WriteSwitch(w, b.conn, Left(room, b)))
  }

  /** What encryption can add to n records. */
  function Additions(s: Conn, n: int): int {
    if s.enc.Secure() then n * s.enc.suite.macSize + n * (s.enc.suite.blockSize - 1) else 0
  }

  /** The room a flight has to find before any of it is written. */
  function FlightSize(w: World, s: Conn): int {
    var record, head, hello, switch := SSL3_HEADER_LEN, HANDSHAKE_HEADER_LEN, 38 + SESSION_ID_SIZE, 1 + FINISHED_SIZE;
    if s.hsState == CLIENT_KEY_EXCHANGE then 3 * record + 3 * head + hello + |w.chain| + Additions(s, 3)
    else if s.hsState == DONE then 2 * record + head + switch + Additions(s, 2)
    else if s.hsState == FINISHED && s.flags.server then 3 * record + 2 * head + hello + switch + Additions(s, 3)
    else if s.hsState == FINISHED && s.sec.cert.Some? then
      (if s.flags.clientAuth then 2 + record else 0)
      + 3 * record + 2 * head + w.keySize(s.sec.cert.value) + switch + SSL_MAX_MAC_SIZE + SSL_MAX_BLOCK_SIZE - 1
      + Additions(s, if s.flags.clientAuth then 3 else 2)
    else 0
  }

  /** The records the current state asks for; in any other state there is nothing to say. */
  function WriteFlight(w: World, s: Conn, room: nat, f: Supply): Flight {
    if s.hsState == CLIENT_KEY_EXCHANGE then WriteHelloFlight(w, s, room, f)
    else if s.hsState == DONE then WriteSwitch(w, s, room)
    else if s.hsState == FINISHED && s.flags.server then WriteResumedFlight(w, s, room, f)
    else if s.hsState == FINISHED && s.sec.cert.Some? then WriteKeyFlight(w, s, room, s.sec.cert.value, f)
    else Flight(s, [], Error)
  }

  /** An error spoils the connection. */
  function Spoiled(a: Flight): Flight {
    if a.code.Error? then a.(conn := a.conn.(flags := a.conn.flags.(error := true))) else a
  }

  /** The alert of an error, or the records that answer the current state if there is room for all of them. */
  function EncodeResponse(w: World, s: Conn, room: nat, f: Supply): Flight {
    if s.err != NO_ERROR then Spoiled(Send(s, room, ALERT, [2, s.err]))
    else if room < FlightSize(w, s) then Flight(s, [], Full)
    else Spoiled(WriteFlight(w, s, room, f))
  }

  // ----- decoding

  datatype Result = Nothing | Incomplete | Response(wire: seq<byte>) | BufferFull(wire: seq<byte>) | ErrorAlert(wire: seq<byte>)
    | SessionError | AlertReceived | ProcessData(data: seq<byte>) | NextHandshake(left: seq<byte>)

  datatype Decoded = Decoded(conn: Conn, result: Result, rest: seq<byte>)

  /** Answers the record just decoded, with an alert if it was in error. */
  function Respond(w: World, s: Conn, rest: seq<byte>, room: nat, f: Supply): Decoded {
    var flight := EncodeResponse(w, s, room, f);
    match flight.code
    case Success =>
      if s.err != NO_ERROR then Decoded(flight.conn.(flags := flight.conn.flags.(error := true)), ErrorAlert(flight.wire), rest)
      else Decoded(flight.conn, Response(flight.wire), rest)
    case Full => Decoded(flight.conn.(flags := flight.conn.flags.(needEncode := true)), BufferFull(flight.wire), rest)
    case Error => Decoded(flight.conn, SessionError, rest)
  }

  function Refuse(w: World, s: Conn, alert: byte, rest: seq<byte>, room: nat, f: Supply): Decoded {
    Respond(w, s.(err := alert), rest, room, f)
  }

  /** One call of the decoder: records up to the first that has an effect for the caller. What is decoded and what
      is answered goes into the same buffer, with the same room. */
  function Decode(w: World, s: Conn, input: seq<byte>, room: nat, f: Supply): Decoded {
    if s.flags.error || s.flags.closed then Decoded(s, SessionError, input)
    else if s.flags.needEncode then Respond(w, s.(flags := s.flags.(needEncode := false)), input, room, f)
    else DecodeMore(w, s, input, room, f)
  }

  /** A handshake record: refused with the input left as it was, or read and perhaps answered. */
  function HandshakeRecord(w: World, s: Conn, recMaj: byte, data: seq<byte>, input: seq<byte>, rest: seq<byte>, room: nat,
                           f: Supply): Decoded {
    if s.hsState == DONE then Decoded(s, NextHandshake(data), rest)
    else
      match ParseHandshake(w, s, recMaj, data, data, false)
      case Stopped(alert, at) => Refuse(w, at, alert, input, room, f)
      case Ended(next, respond, left) => Decoded(next, NextHandshake(left), rest)
      case Ok(next, respond) => if respond then Respond(w, next, rest, room, f) else Decoded(next, Nothing, rest)
  }

  /** An alert: a fatal one spoils the connection, a close notification closes it. */
  function AlertRecord(w: World, s: Conn, data: seq<byte>, input: seq<byte>, room: nat, f: Supply): Decoded {
    if |data| < 2 then Refuse(w, s, ILLEGAL_PARAMETER, input, room, f)
    else Decoded(s.(flags := s.flags.(error := s.flags.error || data[0] == 2, closed := s.flags.closed || data[1] == 0)), AlertReceived, input)
  }

  /** No version is settled before the hello messages are read. */
  predicate VersionSettled(s: Conn) {
    s.hsState != SERVER_HELLO && s.hsState != CLIENT_HELLO
  }

  function DecodeMore(w: World, s: Conn, input: seq<byte>, room: nat, f: Supply): Decoded
    decreases |input|
  {
    match Open(s.dec, VersionSettled(s), s.ver.maj, s.ver.min, input, room)
    case Empty => Decoded(s, Nothing, input)
    case Partial => Decoded(s, Incomplete, input)
    case NoRoom => Decoded(s, BufferFull([]), input)
    case Failed(alert, after) => Refuse(w, s.(dec := after), alert, input, room, f)
    case Opened(kind, version, data, next, size) =>
      var s1 := s.(dec := next);
      if kind == CHANGE_CIPHER_SPEC then
        if data == [] || data[0] != 1 then Refuse(w, s1, ILLEGAL_PARAMETER, input, room, f)
        else if s.hsState != FINISHED then Refuse(w, s1, UNEXPECTED_MESSAGE, input, room, f)
        else DecodeMore(w, ActivateRead(s1), input[size..], room, f)
      else if kind == ALERT then
        AlertRecord(w, s1, data, input, room, f)
      else if kind == HANDSHAKE then
        HandshakeRecord(w, s1, version, data, input, input[size..], room, f)
      else if (s.hsState != DONE && s.hsState != SERVER_HELLO) || !s.flags.readSecure then
        Refuse(w, s1, UNEXPECTED_MESSAGE, input, room, f)
      else if data == [] then
        if s.ignored < MAX_IGNORED then DecodeMore(w, s1.(ignored := s.ignored + 1), input[size..], room, f)
        else Refuse(w, s1.(ignored := s.ignored + 1), UNEXPECTED_MESSAGE, input[size..], room, f)
      else Decoded(s1.(ignored := if s.ignored > 0 then s.ignored - 1 else 0), ProcessData(data), input[size..])
  }

  // ----- what the application sends

  /** The client's opening message with the suites it offers. */
  function WriteClientHello(s: Conn, offer: seq<byte>, room: nat, f: Supply): Flight {
    if RecordSize(s.enc.suite, HANDSHAKE_HEADER_LEN + 39 + |s.sessionId| + |offer|) > room then Flight(s, [], Full)
    else
      var s1 := s.(sec := s.sec.(clientRandom := f.random));
      var a := SendHandshake(s1, room, CLIENT_HELLO, ClientHelloBody(s1.ver.maj, s1.ver.min, f.random, s1.sessionId, offer));
      if a.code.Success? then a.(conn := a.conn.(flags := a.conn.flags.(clientAuth := false), hsState := SERVER_HELLO)) else a
  }

  /** Opens a handshake. The client offers the suite of the session it may resume, or one the caller names,
      or with none named all of them. */
  function EncodeClientHello(w: World, s: Conn, cipherSpec: nat, room: nat, f: Supply): Flight {
    if s.flags.error || s.flags.closed || s.flags.server || s.hsState != SERVER_HELLO then Flight(s, [], Error)
    else
      var s1 := s.(flags := s.flags.(resumed := s.flags.resumed && s.sessionId != []), sec := s.sec.(transcript := []));
      var spec := if s.sessionId != [] then s.cipher.id else cipherSpec;
      if spec != SSL_NULL_WITH_NULL_NULL && w.lookup(spec).None? then Flight(s1, [], Error)
      else WriteClientHello(s1, if spec == SSL_NULL_WITH_NULL_NULL then w.offered else Len2(spec), room, f)
  }

  /** One record of application data, once the handshake is done. */
  function EncodeData(s: Conn, data: seq<byte>, room: nat): Flight {
    if s.flags.error || s.hsState != DONE || s.flags.closed then Flight(s, [], Error)
    else if SSL3_HEADER_LEN + |data| > SSL_MAX_RECORD_LEN + SSL3_HEADER_LEN then Flight(s, [], Error)
    else Send(s, room, APPLICATION_DATA, data)
  }
}
