/** The decoder on a byte stream: it makes no difference how the bytes arrive in pieces. */
module HandshakeStream {
  import opened MpBytes
  import opened Record
  import opened Handshake

  /** Decodes all that has arrived, until something is to be sent back or told to the caller. */
  function Receive(w: World, s: Conn, input: seq<byte>, room: nat, f: Supply): Decoded
    decreases |input|
  {
    var d := Decode(w, s, input, room, f);
    if d.result.Nothing? && 0 < |d.rest| < |input| then Receive(w, d.conn, d.rest, room, f) else d
  }

  /** More bytes are needed before anything else happens. */
  predicate Waiting(r: Result) {
    r.Nothing? || r.Incomplete?
  }

  /** What is left unread is kept and prepended to what arrives next. */
  function Feed(w: World, s: Conn, pending: seq<byte>, chunks: seq<seq<byte>>, room: nat, f: Supply): Decoded
    decreases chunks
  {
    if chunks == [] then Receive(w, s, pending, room, f)
    else
      var d := Receive(w, s, pending + chunks[0], room, f);
      if Waiting(d.result) && |chunks| > 1 then Feed(w, d.conn, d.rest, chunks[1..], room, f)
      else Decoded(d.conn, d.result, d.rest + Joined(chunks[1..]))
  }

  function Joined(chunks: seq<seq<byte>>): seq<byte>
    decreases chunks
  {
    if chunks == [] then [] else chunks[0] + Joined(chunks[1..])
  }

  lemma Answers(w: World, s: Conn, rest: seq<byte>, room: nat, f: Supply)
    ensures var d := Respond(w, s, rest, room, f);
            !Waiting(d.result) && !d.result.ProcessData? && d.rest == rest
    ensures forall more :: Respond(w, s, rest + more, room, f) == Decoded(Respond(w, s, rest, room, f).conn, Respond(w, s, rest, room, f).result, rest + more)
  {
    hide EncodeResponse;
  }

  /** A record that is complete is read the same whatever follows it. */
  lemma OpenExtends(d: Direction, check: bool, maj: byte, min: byte, p: seq<byte>, more: seq<byte>, room: nat)
    ensures var o := Open(d, check, maj, min, p, room);
            if o.Empty? then p == [] else o.Partial? || Open(d, check, maj, min, p + more, room) == o
  {
    hide Unprotect;
    var q := p + more;
    var short := ShortHeader(maj, p);
    assert p != [] ==> q[0] == p[0];
    if |p| >= if short then SSL2_HEADER_LEN else SSL3_HEADER_LEN {
      assert forall k | 0 <= k < |p| :: q[k] == p[k];
      var h := ReadHead(short, p);
      if |p| - h.size >= h.len {
        assert q[h.size..h.size + h.len] == p[h.size..h.size + h.len];
      }
    }
  }

  ghost predicate SameMarks(s: Conn, t: Conn) {
    t.flags.error == s.flags.error && t.flags.closed == s.flags.closed && t.flags.needEncode == s.flags.needEncode
  }

  /** The decoder goes on from d as it would have done with more bytes from the start. */
  ghost predicate GoesOn(w: World, s: Conn, d: Decoded, input: seq<byte>, more: seq<byte>, room: nat, f: Supply) {
    SameMarks(s, d.conn) && DecodeMore(w, s, input, room, f) == DecodeMore(w, d.conn, d.rest + more, room, f)
  }

  /** Besides, nothing of what follows has been looked at. */
  ghost predicate Ignores(d: Decoded, more: seq<byte>, e: Decoded) {
    e == Decoded(d.conn, d.result, d.rest + more)
  }

  lemma IgnoresWhenSame(d: Decoded, more: seq<byte>, e: Decoded)
    requires e.conn == d.conn && e.result == d.result && e.rest == d.rest + more
    ensures Ignores(d, more, e)
  {}

  lemma RefusalExtends(w: World, s: Conn, alert: byte, rest: seq<byte>, more: seq<byte>, room: nat, f: Supply)
    ensures var d, e := Refuse(w, s, alert, rest, room, f), Refuse(w, s, alert, rest + more, room, f);
            !Waiting(d.result) && Ignores(d, more, e)
  {
    hide Respond;
    Answers(w, s.(err := alert), rest, room, f);
  }

  lemma AlertExtends(w: World, s: Conn, data: seq<byte>, input: seq<byte>, more: seq<byte>, room: nat, f: Supply)
    ensures var d, e := AlertRecord(w, s, data, input, room, f), AlertRecord(w, s, data, input + more, room, f);
            !Waiting(d.result) && Ignores(d, more, e)
  {
    hide Refuse;
    RefusalExtends(w, s, ILLEGAL_PARAMETER, input, more, room, f);
  }

  lemma RecordExtends(w: World, s: Conn, recMaj: byte, data: seq<byte>, input: seq<byte>, rest: seq<byte>, more: seq<byte>,
                      room: nat, f: Supply)
    ensures var d := HandshakeRecord(w, s, recMaj, data, input, rest, room, f);
            var e := HandshakeRecord(w, s, recMaj, data, input + more, rest + more, room, f);
            !d.result.Incomplete? && Ignores(d, more, e) && (d.result.Nothing? ==> d.rest == rest)
  {
    hide Refuse, Respond, ParseHandshake;
    if s.hsState != DONE {
      match ParseHandshake(w, s, recMaj, data, data, false)
      case Stopped(alert, at) => RefusalExtends(w, at, alert, input, more, room, f);
      case Ended(_, _, _) =>
      case Ok(next, respond) => Answers(w, next, rest, room, f);
    }
  }

  lemma Unread(w: World, s: Conn, p: seq<byte>, more: seq<byte>, room: nat, f: Supply)
    requires var d := DecodeMore(w, s, p, room, f); d.conn == s && d.rest == p
    ensures GoesOn(w, s, DecodeMore(w, s, p, room, f), p + more, more, room, f)
  {}

  /** One call on some bytes waits where one on more of them goes on, or comes to the same with more left over. */
  ghost predicate Extends(w: World, s: Conn, p: seq<byte>, more: seq<byte>, room: nat, f: Supply) {
    var d, e := DecodeMore(w, s, p, room, f), DecodeMore(w, s, p + more, room, f);
    && (d.result.Incomplete? ==> GoesOn(w, s, d, p + more, more, room, f) && |d.rest| <= |p|)
    && (d.result.Nothing? ==> (Ignores(d, more, e) && |d.rest| < |p|) || (d.rest == [] && GoesOn(w, s, d, p + more, more, room, f)))
    && (!Waiting(d.result) ==> Ignores(d, more, e))
  }

  lemma ActivationKeepsMarks(s: Conn)
    ensures SameMarks(s, ActivateRead(s))
  {}

  lemma ExtendsFrom(w: World, s: Conn, t: Conn, p: seq<byte>, rest: seq<byte>, more: seq<byte>, room: nat, f: Supply)
    requires SameMarks(s, t) && Extends(w, t, rest, more, room, f) && |rest| < |p|
    requires DecodeMore(w, s, p, room, f) == DecodeMore(w, t, rest, room, f)
    requires DecodeMore(w, s, p + more, room, f) == DecodeMore(w, t, rest + more, room, f)
    ensures Extends(w, s, p, more, room, f)
  {
    hide DecodeMore;
  }

  /** One call on the bytes so far, compared with one call on more of them. */
  lemma {:induction false} DecodeExtends(w: World, s: Conn, p: seq<byte>, more: seq<byte>, room: nat, f: Supply)
    ensures Extends(w, s, p, more, room, f)
    decreases |p|
  {
    hide Open, Refuse, ActivateRead, HandshakeRecord, AlertRecord, Ignores, GoesOn;
    var o := Open(s.dec, VersionSettled(s), s.ver.maj, s.ver.min, p, room);
    OpenExtends(s.dec, VersionSettled(s), s.ver.maj, s.ver.min, p, more, room);
    if o.Empty? || o.Partial? {
      Unread(w, s, p, more, room, f);
    } else if o.NoRoom? {
      IgnoresWhenSame(DecodeMore(w, s, p, room, f), more, DecodeMore(w, s, p + more, room, f));
    } else if o.Failed? {
      RefusalExtends(w, s.(dec := o.after), o.alert, p, more, room, f);
    } else {
      var s1 := s.(dec := o.next);
      var rest := p[o.size..];
      assert (p + more)[o.size..] == rest + more;
      if o.kind == CHANGE_CIPHER_SPEC {
        if o.data == [] || o.data[0] != 1 {
          RefusalExtends(w, s1, ILLEGAL_PARAMETER, p, more, room, f);
        } else if s.hsState != FINISHED {
          RefusalExtends(w, s1, UNEXPECTED_MESSAGE, p, more, room, f);
        } else {
          DecodeExtends(w, ActivateRead(s1), rest, more, room, f);
          ActivationKeepsMarks(s1);
          ExtendsFrom(w, s, ActivateRead(s1), p, rest, more, room, f);
        }
      } else if o.kind == ALERT {
        AlertExtends(w, s1, o.data, p, more, room, f);
      } else if o.kind == HANDSHAKE {
        RecordExtends(w, s1, o.version, o.data, p, rest, more, room, f);
      } else if (s.hsState != DONE && s.hsState != SERVER_HELLO) || !s.flags.readSecure {
        RefusalExtends(w, s1, UNEXPECTED_MESSAGE, p, more, room, f);
      } else {
        var s2 := s1.(ignored := s.ignored + 1);
        if o.data != [] {
          IgnoresWhenSame(DecodeMore(w, s, p, room, f), more, DecodeMore(w, s, p + more, room, f));
        } else if s.ignored < MAX_IGNORED {
          DecodeExtends(w, s2, rest, more, room, f);
          ExtendsFrom(w, s, s2, p, rest, more, room, f);
        } else {
          RefusalExtends(w, s2, UNEXPECTED_MESSAGE, rest, more, room, f);
        }
      }
    }
  }

  /** The same for a call of the decoder in any state. */
  ghost predicate CallExtends(w: World, s: Conn, p: seq<byte>, more: seq<byte>, room: nat, f: Supply) {
    var d, e := Decode(w, s, p, room, f), Decode(w, s, p + more, room, f);
    && (d.result.Incomplete? ==> e == Decode(w, d.conn, d.rest + more, room, f) && |d.rest| <= |p|)
    && (d.result.Nothing? ==> (Ignores(d, more, e) && |d.rest| < |p|) || (d.rest == [] && e == Decode(w, d.conn, d.rest + more, room, f)))
    && (!Waiting(d.result) ==> Ignores(d, more, e))
  }

  lemma DecodeCallExtends(w: World, s: Conn, p: seq<byte>, more: seq<byte>, room: nat, f: Supply)
    ensures CallExtends(w, s, p, more, room, f)
  {
    hide DecodeMore, Respond;
    if !(s.flags.error || s.flags.closed) {
      if s.flags.needEncode {
        Answers(w, s.(flags := s.flags.(needEncode := false)), p, room, f);
      } else {
        DecodeExtends(w, s, p, more, room, f);
      }
    }
  }

  /** Only bytes that were read make a call come to nothing with bytes left. */
  lemma CallAdvances(w: World, s: Conn, p: seq<byte>, room: nat, f: Supply)
    ensures var d := Decode(w, s, p, room, f); d.result.Nothing? && d.rest != [] ==> |d.rest| < |p|
  {
    hide Decode;
    DecodeCallExtends(w, s, p, [], room, f);
  }

  lemma ReceiveMore(w: World, s: Conn, input: seq<byte>, room: nat, f: Supply)
    ensures var d := Decode(w, s, input, room, f);
            Receive(w, s, input, room, f) == if d.result.Nothing? && d.rest != [] then Receive(w, d.conn, d.rest, room, f) else d
  {
    hide Decode;
    CallAdvances(w, s, input, room, f);
  }

  /** Receiving some bytes and then more is receiving them all at once. */
  lemma {:induction false} ReceiveExtends(w: World, s: Conn, p: seq<byte>, more: seq<byte>, room: nat, f: Supply)
    requires more != []
    ensures var d := Receive(w, s, p, room, f);
            Receive(w, s, p + more, room, f)
            == if Waiting(d.result) then Receive(w, d.conn, d.rest + more, room, f) else Decoded(d.conn, d.result, d.rest + more)
    decreases |p|
  {
    hide Decode, Receive;
    DecodeCallExtends(w, s, p, more, room, f);
    ReceiveMore(w, s, p, room, f);
    ReceiveMore(w, s, p + more, room, f);
    var d, e := Decode(w, s, p, room, f), Decode(w, s, p + more, room, f);
    if d.result.Nothing? && d.rest != [] {
      CallAdvances(w, s, p, room, f);
      ReceiveExtends(w, d.conn, d.rest, more, room, f);
    } else if Waiting(d.result) {
      ReceiveMore(w, d.conn, d.rest + more, room, f);
    }
  }

  /** However a stream is cut into pieces, the decoder comes to the same on it. */
  lemma {:induction false} FeedIsReceive(w: World, s: Conn, pending: seq<byte>, chunks: seq<seq<byte>>, room: nat, f: Supply)
    requires forall k | 0 <= k < |chunks| :: chunks[k] != []
    ensures Feed(w, s, pending, chunks, room, f) == Receive(w, s, pending + Joined(chunks), room, f)
    decreases chunks
  {
    hide Receive;
    if chunks == [] {
      assert pending + [] == pending;
    } else {
      var d := Receive(w, s, pending + chunks[0], room, f);
      var more := Joined(chunks[1..]);
      assert pending + Joined(chunks) == pending + chunks[0] + more;
      if |chunks| > 1 {
        assert more == chunks[1] + Joined(chunks[1..][1..]) && more != [];
        ReceiveExtends(w, s, pending + chunks[0], more, room, f);
        FeedIsReceive(w, d.conn, d.rest, chunks[1..], room, f);
      } else {
        assert more == [] && pending + chunks[0] + more == pending + chunks[0] && d.rest + more == d.rest;
      }
    }
  }
}
