/** What a Finished message that has been accepted says about the other end, whatever happened to the bytes in between. */
module HandshakeBinding {
  import opened MpBytes
  import opened Record
  import opened Keys
  import opened Handshake
  import opened HandshakeSafety
  import opened Options

  // ----- where a run accepts Finished

  /** The state in which a Finished message is read, and what the message holds. */
  datatype Acceptance = Acceptance(at: Conn, hash: seq<byte>)

  /** The first handshake record of an input, behind changes of cipher, is the one with the Finished message. */
  ghost function AcceptedIn(w: World, s: Conn, input: seq<byte>, room: nat): Acceptance
    requires VerifiedBy(w, s, input, room)
    decreases |input|
  {
    var o := Open(s.dec, VersionSettled(s), s.ver.maj, s.ver.min, input, room);
    if o.kind == HANDSHAKE then
      var n := HeadLen(o.version);
      Acceptance(s, o.data[n..n + FINISHED_SIZE])
    else AcceptedIn(w, ActivateRead(s.(dec := o.next)), input[o.size..], room)
  }

  /** What is accepted is the hash of what the reader has heard by then, which is what it had heard before the call. */
  lemma {:induction false} AcceptedIsVerified(w: World, s: Conn, input: seq<byte>, room: nat)
    requires VerifiedBy(w, s, input, room)
    ensures var a := AcceptedIn(w, s, input, room);
            a.hash == PeerFinished(w, a.at) && a.at.sec == s.sec && a.at.flags.server == s.flags.server && a.at.flags.readSecure
    decreases |input|
  {
    hide Open, PeerFinished;
    var o := Open(s.dec, VersionSettled(s), s.ver.maj, s.ver.min, input, room);
    if o.kind != HANDSHAKE {
      AcceptedIsVerified(w, ActivateRead(s.(dec := o.next)), input[o.size..], room);
    }
  }

  /** The call that ends the handshake of a run, and the state it is made in. */
  ghost function LastCall(w: World, s: Conn, calls: seq<Call>): (Conn, Call)
    requires s.hsState != DONE && Run(w, s, calls).hsState == DONE
    decreases calls
  {
    var t := Step(w, s, calls[0]).conn;
    if t.hsState == DONE then (s, calls[0]) else LastCall(w, t, calls[1..])
  }

  /** That call reads a Finished message that is the hash of what the connection has heard. */
  lemma {:induction false} LastCallVerifies(w: World, s: Conn, calls: seq<Call>)
    requires GoodWorld(w) && Inv(w, s) && s.hsState != DONE && Run(w, s, calls).hsState == DONE
    ensures var (t, c) := LastCall(w, s, calls); c.DecodeCall? && VerifiedBy(w, t, c.input, c.room) && SameSide(s, t)
    decreases calls
  {
    hide Step, Inv, GoodWorld, VerifiedBy;
    StepKeeps(w, s, calls[0]);
    var t := Step(w, s, calls[0]).conn;
    if t.hsState != DONE {
      LastCallVerifies(w, t, calls[1..]);
    }
  }

  /** The Finished message a new connection has accepted, once its handshake is done. */
  ghost function Accepted(w: World, server: bool, session: Option<Session>, calls: seq<Call>): Acceptance
    requires GoodWorld(w) && Run(w, NewSession(w, server, session), calls).hsState == DONE
  {
    var s := NewSession(w, server, session);
    NewSessionIsSafe(w, server, session);
    LastCallVerifies(w, s, calls);
    var (t, c) := LastCall(w, s, calls);
    AcceptedIn(w, t, c.input, c.room)
  }

  /** Whatever bytes have come in: what a new connection accepts as Finished is the hash, under the other side's label, of
      exactly what it has heard by then, and it is accepted under a real suite. */
  lemma AcceptedOfRun(w: World, server: bool, session: Option<Session>, calls: seq<Call>)
    requires GoodWorld(w) && Run(w, NewSession(w, server, session), calls).hsState == DONE
    ensures var a := Accepted(w, server, session, calls);
            && a.hash == FinishedHash(w.hashes, a.at.sec.master, a.at.sec.transcript, Sender(!server))
            && a.at.flags.server == server && a.at.flags.readSecure
  {
    hide FinishedHash, VerifiedBy, AcceptedIn, LastCall, Inv, Run;
    var s := NewSession(w, server, session);
    NewSessionIsSafe(w, server, session);
    LastCallVerifies(w, s, calls);
    var (t, c) := LastCall(w, s, calls);
    AcceptedIsVerified(w, t, c.input, c.room);
  }

  // ----- both ends

  /** A connection has sent a Finished message when it had heard so much: the message, the hash of that under its own
      label, is next in its transcript. */
  ghost predicate Said(w: World, t: Conn, heard: seq<byte>, hash: seq<byte>) {
    && hash == FinishedHash(w.hashes, t.sec.master, heard, Sender(t.flags.server))
    && heard + Message(FINISHED, hash) <= t.sec.transcript
  }

  /** Sending a Finished message is saying it over all that has been heard. */
  lemma FinishedIsSaid(w: World, s: Conn, room: nat)
    requires s.enc.Valid() && WriteFinished(w, s, room).code.Success?
    ensures Said(w, WriteFinished(w, s, room).conn, s.sec.transcript, OwnFinished(w, s))
    ensures WriteFinished(w, s, room).conn.sec.transcript == s.sec.transcript + Message(FINISHED, OwnFinished(w, s))
  {
    hide FinishedHash, Message, Send;
    var m := Message(FINISHED, OwnFinished(w, s));
    SendKeeps(Hear(s, m), room, HANDSHAKE, m);
  }

  /** Two connections stand on different transcripts or master secrets and both hashes hide it. */
  ghost predicate Hidden(w: World, at: Conn, t: Conn, heard: seq<byte>) {
    FinishedCollide(w.hashes, at.sec.master, at.sec.transcript, Sender(!at.flags.server), t.sec.master, heard, Sender(t.flags.server))
  }

  lemma SenderLabels(a: bool, b: bool)
    ensures |Sender(a)| == |Sender(b)| == 4 && (Sender(a) == Sender(b) ==> a == b)
  {
    assert SENDER_CLIENT[0] != SENDER_SERVER[0];
  }

  /** Whatever happens to the bytes on the way: a connection that is done has accepted a Finished message that some
      connection has sent only if that one is on the other side, with the same master secret, and had heard exactly the
      same, unless both hashes collide on the strings hashed. */
  lemma FinishedAuthenticates(w: World, server: bool, session: Option<Session>, calls: seq<Call>, t: Conn, heard: seq<byte>)
    requires GoodWorld(w) && Run(w, NewSession(w, server, session), calls).hsState == DONE
    requires var a := Accepted(w, server, session, calls); Said(w, t, heard, a.hash) && |t.sec.master| == |a.at.sec.master|
    ensures var a := Accepted(w, server, session, calls);
            || Hidden(w, a.at, t, heard)
            || (t.flags.server != server && t.sec.master == a.at.sec.master && heard == a.at.sec.transcript)
  {
    hide FinishedHash, Accepted, FinishedCollide, Run, Sender;
    AcceptedOfRun(w, server, session, calls);
    var a := Accepted(w, server, session, calls);
    SenderLabels(!server, t.flags.server);
    FinishedBinds(w.hashes, a.at.sec.master, a.at.sec.transcript, Sender(!server), t.sec.master, heard, Sender(t.flags.server));
  }

  /** A client and a server with anything between them: if each is done on a Finished message of the other, each had
      heard at that point exactly what the other had when it sent the message, and the secrets are the same, unless
      both hashes collide on the strings hashed. */
  lemma BothHeardTheSame(w: World, session: Option<Session>, calls: seq<Call>, calls': seq<Call>, heard: seq<byte>, heard': seq<byte>)
    requires GoodWorld(w)
    requires Run(w, NewSession(w, false, session), calls).hsState == DONE && Run(w, NewSession(w, true, None), calls').hsState == DONE
    requires var c, s := Run(w, NewSession(w, false, session), calls), Run(w, NewSession(w, true, None), calls');
             var a, b := Accepted(w, false, session, calls), Accepted(w, true, None, calls');
             && Said(w, s, heard, a.hash) && Said(w, c, heard', b.hash)
             && |s.sec.master| == |a.at.sec.master| && |c.sec.master| == |b.at.sec.master|
    ensures var c, s := Run(w, NewSession(w, false, session), calls), Run(w, NewSession(w, true, None), calls');
            var a, b := Accepted(w, false, session, calls), Accepted(w, true, None, calls');
            && (Hidden(w, a.at, s, heard) || (a.at.sec.transcript == heard && a.at.sec.master == s.sec.master))
            && (Hidden(w, b.at, c, heard') || (b.at.sec.transcript == heard' && b.at.sec.master == c.sec.master))
  {
    hide Accepted, FinishedCollide, Run, Said, Hidden;
    var c, s := Run(w, NewSession(w, false, session), calls), Run(w, NewSession(w, true, None), calls');
    FinishedAuthenticates(w, false, session, calls, s, heard);
    FinishedAuthenticates(w, true, None, calls', c, heard');
  }
}
