/** The SSL 3.0 record layer: header, MAC, padding, encryption and sequence numbers (RFC 6101, section 5.2.3). */
module Record {
  import opened Numbers
  import opened MpBytes
  import opened Options
  import opened Splices

  const SSL2_HEADER_LEN: nat := 2
  const SSL3_HEADER_LEN: nat := 5
  const SSL_MAX_PLAINTEXT_LEN: nat := 0x4000
  const SSL_MAX_RECORD_LEN: nat := 0x4000 + 2048

  const CHANGE_CIPHER_SPEC: byte := 20
  const ALERT: byte := 21
  const HANDSHAKE: byte := 22
  const APPLICATION_DATA: byte := 23

  const UNEXPECTED_MESSAGE: byte := 10
  const BAD_RECORD_MAC: byte := 20
  const HANDSHAKE_FAILURE: byte := 40
  const BAD_CERTIFICATE: byte := 42
  const ILLEGAL_PARAMETER: byte := 47

  const SSL_NULL_WITH_NULL_NULL: nat := 0

  // ----- cipher suites

  /** The state of a cipher, whatever it is made of. */
  type Context = seq<byte>

  /** A row of the cipher table, with the hash, the cipher and its key setup as functions. A cipher may refuse
      data; one with a limit counts the bytes asked of it, and `count` is where that counter stands. */
  datatype Suite = Suite(
    id: nat, macSize: nat, keySize: nat, ivSize: nat, blockSize: nat, macPad: nat, limit: Option<nat>,
    hash: seq<byte> -> seq<byte>,
    start: (seq<byte>, seq<byte>) -> Context,
    count: Context -> nat,
    encrypt: (Context, seq<byte>) -> (Context, Option<seq<byte>>),
    decrypt: (Context, seq<byte>) -> (Context, Option<seq<byte>>))

  predicate Whole(s: Suite, n: nat) {
    s.blockSize <= 1 || n % s.blockSize == 0
  }

  /** The 32-bit counter stays within the limit with n more bytes. */
  predicate Takes(s: Suite, c: Context, n: nat) {
    s.limit.None? || (s.count(c) + n) % COUNT_WORD <= s.limit.value
  }

  /** A limit lets some records through and is far below the counter's range; the counter starts at zero with each
      key, and all bytes are counted. */
  ghost predicate Metered(s: Suite)
    requires s.limit.Some?
  {
    && SSL_MAX_RECORD_LEN <= s.limit.value <= COUNT_WORD / 2
    && (forall key, iv :: s.count(s.start(key, iv)) == 0)
    && (forall c, x :: s.count(s.encrypt(c, x).0) == (s.count(c) + |x|) % COUNT_WORD)
  }

  /** Whole blocks within the limit are encrypted, and decrypted again by an end that keeps in step; nothing else is. */
  ghost predicate Encrypts(s: Suite, c: Context, x: seq<byte>) {
    var (c', y) := s.encrypt(c, x);
    && (y.Some? <==> Whole(s, |x|) && Takes(s, c, |x|))
    && (y.Some? ==> |y.value| == |x| && s.decrypt(c, y.value) == (c', Some(x)))
  }

  /** Block sizes of the table, hashes of the MAC's length, and a cipher whose two halves keep in step. */
  ghost predicate Sound(s: Suite) {
    && s.id != SSL_NULL_WITH_NULL_NULL && (s.blockSize == 1 || s.blockSize == 8) && s.macSize <= 20
    && (forall x :: |s.hash(x)| == s.macSize)
    && (forall c, x :: Encrypts(s, c, x))
    && (forall c, x :: s.decrypt(c, x).1.Some? ==> |s.decrypt(c, x).1.value| == |x|)
    && (s.limit.Some? ==> Metered(s))
  }

  /** The null suite passes data unchanged and has no MAC. */
  ghost predicate IsNull(s: Suite) {
    && s.id == SSL_NULL_WITH_NULL_NULL && s.macSize == 0 && s.blockSize == 0 && s.limit.None?
    && (forall c, x :: s.encrypt(c, x) == (c, Some(x)) && s.decrypt(c, x) == (c, Some(x)))
  }

  /** One direction of a connection: the active suite, the cipher, the MAC secret and the sequence number. */
  datatype Direction = Direction(suite: Suite, ctx: Context, key: seq<byte>, seqno: seq<byte>) {
    predicate Secure() {
      suite.id != SSL_NULL_WITH_NULL_NULL
    }

    ghost predicate Valid() {
      |seqno| == 8 && (Sound(suite) || IsNull(suite))
    }
  }

  /** A direction with a suite made active: a new key, and the sequence number at zero. */
  function Activated(d: Direction, s: Suite, mac: seq<byte>, key: seq<byte>, iv: seq<byte>): Direction {
    if s.id != SSL_NULL_WITH_NULL_NULL then Direction(s, s.start(key, iv), mac, Repeat(0, 8))
    else Direction(s, d.ctx, d.key, Repeat(0, 8))
  }

  // ----- sequence numbers

  /** Counts up by one, most significant byte first, wrapping round. */
  function NextSeq(s: seq<byte>): (r: seq<byte>)
    ensures |r| == |s|
  {
    if s == [] then []
    else
      var n := |s| - 1;
      if s[n] == 255 then NextSeq(s[..n]) + [0] else s[..n] + [s[n] + 1]
  }

  lemma {:induction false} NextSeqCounts(s: seq<byte>)
    ensures Pow(256, |s|) > 0 && BytesVal(NextSeq(s)) == (BytesVal(s) + 1) % Pow(256, |s|)
  {
    PowPos(256, |s|);
    BytesBound(s);
    if s == [] {
      assert Pow(256, 0) == 1;
    } else {
      var n := |s| - 1;
      NextSeqCounts(s[..n]);
      BytesBound(s[..n]);
      var r, p := NextSeq(s), Pow(256, n);
      assert Pow(256, |s|) == 256 * p;
      if s[n] == 255 {
        assert r[..n] == NextSeq(s[..n]);
        CarryInto(BytesVal(s[..n]), p);
      } else {
        assert r[..n] == s[..n];
        DivModUnique(BytesVal(s) + 1, 256 * p, 0, BytesVal(s) + 1);
      }
    }
  }

  lemma CarryInto(v: nat, p: nat)
    requires v < p
    ensures (v + 1) % p * 256 == (v * 256 + 256) % (256 * p)
  {
    if v + 1 == p {
      DivModUnique(p, p, 1, 0);
      DivModUnique(256 * p, 256 * p, 1, 0);
    } else {
      DivModUnique(v + 1, p, 0, v + 1);
      DivModUnique(v * 256 + 256, 256 * p, 0, v * 256 + 256);
    }
  }

  /** Increments in place: the last byte, and each byte before one that wrapped to zero. */
  method Increment(s: array<byte>)
    modifies s
    ensures s[..] == NextSeq(old(s[..]))
  {
    ghost var s0 := s[..];
    var i := s.Length;
    assert s0[..i] == s0 && s[i..] == [];
    while i > 0
      invariant 0 <= i <= s.Length && s[..i] == s0[..i]
      invariant NextSeq(s0) == NextSeq(s0[..i]) + s[i..]
      decreases i
    {
      i := i - 1;
      assert s0[..i + 1][..i] == s0[..i];
      if s[i] == 255 {
        ghost var tail := s[i + 1..];
        s[i] := 0;
        assert s[i..] == [0] + tail;
      } else {
        ghost var tail := s[i + 1..];
        s[i] := s[i] + 1;
        assert s[..] == s0[..i] + [s[i]] + tail;
        return;
      }
    }
  }

  // ----- sealing a record

  function Repeat(b: byte, n: nat): (s: seq<byte>)
    ensures |s| == n && forall k | 0 <= k < n :: s[k] == b
  {
    seq(n, _ => b)
  }

  function Len2(n: nat): seq<byte> {
    [n / 256 % 256, n % 256]
  }

  function Value2(hi: int, lo: int): int {
    hi * 256 + lo
  }

  /** What the inner and the outer hash of a MAC are taken over. */
  function MacInner(s: Suite, key: seq<byte>, seqno: seq<byte>, kind: byte, data: seq<byte>): seq<byte> {
    key + Repeat(0x36, s.macPad) + seqno + [kind] + Len2(|data|) + data
  }

  function MacOuter(s: Suite, key: seq<byte>, inner: seq<byte>): seq<byte> {
    key + Repeat(0x5c, s.macPad) + inner
  }

  /** The keyed hash of a record: inner and outer hash over the secret and the two pads. */
  function Mac(s: Suite, key: seq<byte>, seqno: seq<byte>, kind: byte, data: seq<byte>): seq<byte> {
    s.hash(MacOuter(s, key, s.hash(MacInner(s, key, seqno, kind, data))))
  }

  /** Section 5.2.3.1 of RFC 6101, written out. */
  lemma MacSpelled(s: Suite, key: seq<byte>, seqno: seq<byte>, kind: byte, data: seq<byte>)
    ensures Mac(s, key, seqno, kind, data)
         == s.hash(key + Repeat(0x5c, s.macPad) + s.hash(key + Repeat(0x36, s.macPad) + seqno + [kind] + Len2(|data|) + data))
  {}

  /** Two different strings with the same hash. */
  ghost predicate Collide(hash: seq<byte> -> seq<byte>, x: seq<byte>, y: seq<byte>) {
    x != y && hash(x) == hash(y)
  }

  /** The hash collides on what the two MACs are taken over. */
  ghost predicate MacsCollide(s: Suite, key: seq<byte>, seqno: seq<byte>, kind: byte, data: seq<byte>,
                              key': seq<byte>, seqno': seq<byte>, kind': byte, data': seq<byte>) {
    var x, x' := MacInner(s, key, seqno, kind, data), MacInner(s, key', seqno', kind', data');
    Collide(s.hash, x, x') || Collide(s.hash, MacOuter(s, key, s.hash(x)), MacOuter(s, key', s.hash(x')))
  }

  /** A MAC protects the secret, the sequence number, the kind and the data: unless the hash collides, records that
      differ in one of them have different MACs. */
  lemma MacBinds(s: Suite, key: seq<byte>, seqno: seq<byte>, kind: byte, data: seq<byte>,
                 key': seq<byte>, seqno': seq<byte>, kind': byte, data': seq<byte>)
    requires |key| == |key'| && |seqno| == |seqno'|
    requires Mac(s, key, seqno, kind, data) == Mac(s, key', seqno', kind', data')
    ensures (key == key' && seqno == seqno' && kind == kind' && data == data')
            || MacsCollide(s, key, seqno, kind, data, key', seqno', kind', data')
  {
    if !MacsCollide(s, key, seqno, kind, data, key', seqno', kind', data') {
      var x, x' := MacInner(s, key, seqno, kind, data), MacInner(s, key', seqno', kind', data');
      OuterBinds(s, key, s.hash(x), key', s.hash(x'));
      InnerBinds(s, key, seqno, kind, data, key', seqno', kind', data');
    }
  }

  lemma OuterBinds(s: Suite, key: seq<byte>, inner: seq<byte>, key': seq<byte>, inner': seq<byte>)
    requires |key| == |key'| && MacOuter(s, key, inner) == MacOuter(s, key', inner')
    ensures key == key' && inner == inner'
  {
    var n := |key| + s.macPad;
    var o, o' := MacOuter(s, key, inner), MacOuter(s, key', inner');
    assert o[..|key|] == key && o'[..|key|] == key' && o[n..] == inner && o'[n..] == inner';
  }

  lemma InnerBinds(s: Suite, key: seq<byte>, seqno: seq<byte>, kind: byte, data: seq<byte>,
                   key': seq<byte>, seqno': seq<byte>, kind': byte, data': seq<byte>)
    requires |key| == |key'| && |seqno| == |seqno'|
    requires MacInner(s, key, seqno, kind, data) == MacInner(s, key', seqno', kind', data')
    ensures seqno == seqno' && kind == kind' && data == data'
  {
    hide Len2;
    var n := |key| + s.macPad;
    var m := n + |seqno|;
    InnerParts(s, key, seqno, kind, data);
    InnerParts(s, key', seqno', kind', data');
  }

  lemma InnerParts(s: Suite, key: seq<byte>, seqno: seq<byte>, kind: byte, data: seq<byte>)
    ensures var x := MacInner(s, key, seqno, kind, data); var n := |key| + s.macPad; var m := n + |seqno|;
            && |x| == m + 3 + |data| && x[n..m] == seqno && x[m] == kind && x[m + 3..] == data
  {}

  /** The padding a block cipher needs, its length byte included. */
  function PadLen(n: nat, blockSize: nat): (p: nat)
    ensures blockSize <= 1 ==> p == 0
    ensures blockSize > 1 ==> 1 <= p <= blockSize && (n + p) % blockSize == 0
  {
    if blockSize <= 1 then 0
    else
      PadLenWhole(n, blockSize);
      blockSize - n % blockSize
  }

  lemma PadLenWhole(n: nat, b: nat)
    requires b > 0
    ensures (n + (b - n % b)) % b == 0
  {
    DivMod(n, b);
    Distribute(n / b, 1, b);
    DivModUnique(n + (b - n % b), b, n / b + 1, 0);
  }

  function Header(kind: byte, maj: byte, min: byte, n: nat): (h: seq<byte>)
    ensures |h| == SSL3_HEADER_LEN
  {
    [kind, maj, min] + Len2(n)
  }

  /** What is encrypted: the data, its MAC and the padding. */
  function Protected(d: Direction, kind: byte, data: seq<byte>): seq<byte> {
    if !d.Secure() then data
    else
      var mac := Mac(d.suite, d.key, d.seqno, kind, data);
      var n := PadLen(|data| + |mac|, d.suite.blockSize);
      data + mac + Repeat((n + 255) % 256, n)
  }

  /** The bytes of a record that are encrypted, for n bytes of data. */
  function BodySize(s: Suite, n: nat): nat {
    if s.id == SSL_NULL_WITH_NULL_NULL then n else n + s.macSize + PadLen(n + s.macSize, s.blockSize)
  }

  function RecordSize(s: Suite, n: nat): nat {
    SSL3_HEADER_LEN + BodySize(s, n)
  }

  /** A record on the wire, and the direction after it. Nothing is put on the wire when the cipher refuses. */
  function Seal(d: Direction, maj: byte, min: byte, kind: byte, data: seq<byte>): (Direction, seq<byte>) {
    var (ctx, body) := d.suite.encrypt(d.ctx, Protected(d, kind, data));
    var d' := if d.Secure() then d.(ctx := ctx, seqno := NextSeq(d.seqno)) else d.(ctx := ctx);
    (d', if body.None? then [] else Header(kind, maj, min, |body.value|) + body.value)
  }

  // ----- opening a record

  /** What a record header says, and its size. */
  datatype Head = Head(kind: byte, maj: byte, min: byte, len: nat, size: nat)

  /** Before a version is agreed on, a header of two bytes with the top bit set starts a handshake record of version 2. */
  predicate ShortHeader(maj: byte, input: seq<byte>) {
    maj == 0 && input != [] && input[0] >= 128
  }

  function ReadHead(short: bool, input: seq<byte>): (h: Head)
    requires |input| >= if short then SSL2_HEADER_LEN else SSL3_HEADER_LEN
    ensures h.size <= |input|
  {
    if short then
      var hi: int := input[0];
      Head(HANDSHAKE, 2, 0, Value2(hi % 128, input[1]), SSL2_HEADER_LEN)
    else Head(input[0], input[1], input[2], Value2(input[3], input[4]), SSL3_HEADER_LEN)
  }

  /** What decoding the front of the input comes to. */
  datatype Opened = Empty | Partial | NoRoom | Failed(alert: byte, after: Direction)
    | Opened(kind: byte, version: byte, data: seq<byte>, next: Direction, size: nat)

  /** Where the MAC starts in a decrypted record, and whether padding and lengths are in order.
      Only SSL 3.0 itself requires the padding to be shorter than a block. */
  function MacPosition(s: Suite, ssl3: bool, plain: seq<byte>): (r: (nat, bool))
    requires s.macSize <= |plain| && plain != []
    ensures r.0 + s.macSize <= |plain|
  {
    if s.blockSize <= 1 then (|plain| - s.macSize, true)
    else
      var padLen := plain[|plain| - 1];
      if (ssl3 && padLen >= s.blockSize) || |plain| < s.macSize + padLen + 1 then (|plain| - s.macSize, false)
      else (|plain| - padLen - 1 - s.macSize, true)
  }

  predicate KnownKind(kind: byte) {
    kind == CHANGE_CIPHER_SPEC || kind == ALERT || kind == HANDSHAKE || kind == APPLICATION_DATA
  }

  /** Checks and strips the protection of a decrypted record. */
  function Unprotect(d: Direction, ssl3: bool, h: Head, ctx: Context, plain: seq<byte>): (o: Opened)
    requires plain != []
    ensures o.Failed? || (o.Opened? && o.size == h.size + |plain|)
  {
    if !d.Secure() then
      if |plain| > SSL_MAX_PLAINTEXT_LEN then Failed(BAD_RECORD_MAC, d.(ctx := ctx))
      else Opened.Opened(h.kind, h.maj, plain, d.(ctx := ctx), h.size + |plain|)
    else if |plain| < d.suite.macSize then Failed(BAD_RECORD_MAC, d.(ctx := ctx))
    else
      var (at, ok) := MacPosition(d.suite, ssl3, plain);
      var data := plain[..at];
      var next := d.(ctx := ctx, seqno := NextSeq(d.seqno));
      if Mac(d.suite, d.key, d.seqno, h.kind, data) != plain[at..at + d.suite.macSize] || !ok then Failed(BAD_RECORD_MAC, next)
      else if |data| > SSL_MAX_PLAINTEXT_LEN then Failed(BAD_RECORD_MAC, next)
      else Opened.Opened(h.kind, h.maj, data, next, h.size + |plain|)
  }

  /** Decodes the record at the front of the input. The version is checked only when one has been negotiated. */
  function Open(d: Direction, checkVersion: bool, maj: byte, min: byte, input: seq<byte>, room: nat): (o: Opened)
    ensures o.Opened? ==> 0 < o.size <= |input|
  {
    var short := ShortHeader(maj, input);
    if input == [] then Empty
    else if |input| < if short then SSL2_HEADER_LEN else SSL3_HEADER_LEN then Partial
    else
      var h := ReadHead(short, input);
      if !KnownKind(h.kind) then Failed(UNEXPECTED_MESSAGE, d)
      else if checkVersion && (h.maj != maj || h.min != min) then Failed(ILLEGAL_PARAMETER, d)
      else if h.len > SSL_MAX_RECORD_LEN || h.len == 0 then Failed(ILLEGAL_PARAMETER, d)
      else if |input| - h.size < h.len then Partial
      else if room < h.len then NoRoom
      else
        var (ctx, plain) := d.suite.decrypt(d.ctx, input[h.size..h.size + h.len]);
        if plain.None? || |plain.value| != h.len then Failed(ILLEGAL_PARAMETER, d.(ctx := ctx))
        else Unprotect(d, maj == 3 && min == 0, h, ctx, plain.value)
  }

  /** The two ends of one direction agree. */
  ghost predicate InSync(w: Direction, r: Direction) {
    w.Valid() && w == r
  }

  lemma Lengths(n: nat)
    requires n < 0x1_0000
    ensures Value2(Len2(n)[0], Len2(n)[1]) == n
  {}

  /** What was protected is found and stripped again, and both ends move on together. */
  lemma UnprotectProtected(d: Direction, ssl3: bool, h: Head, ctx: Context, data: seq<byte>)
    requires d.Valid() && 1 <= |data| <= SSL_MAX_PLAINTEXT_LEN
    ensures var plain := Protected(d, h.kind, data);
            && |plain| == BodySize(d.suite, |data|) && |data| <= |plain| <= |data| + 28 && Whole(d.suite, |plain|)
            && Unprotect(d, ssl3, h, ctx, plain)
            == Opened.Opened(h.kind, h.maj, data, if d.Secure() then d.(ctx := ctx, seqno := NextSeq(d.seqno)) else d.(ctx := ctx), h.size + |plain|)
  {
    hide NextSeq, Mac, Sound, MacPosition, PadLen;
    if d.Secure() {
      var s := d.suite;
      var mac := Mac(s, d.key, d.seqno, h.kind, data);
      SecureIsSound(d);
      MacLength(s, d.key, d.seqno, h.kind, data);
      FindMac(s, ssl3, data, mac);
    } else {
      NullIsPlain(d);
    }
  }

  lemma SecureIsSound(d: Direction)
    requires d.Valid() && d.Secure()
    ensures Sound(d.suite) && d.suite.macSize <= 20
  {}

  lemma NullIsPlain(d: Direction)
    requires d.Valid() && !d.Secure()
    ensures d.suite.macSize == 0 && d.suite.blockSize == 0
  {}

  lemma MacLength(s: Suite, key: seq<byte>, seqno: seq<byte>, kind: byte, data: seq<byte>)
    requires Sound(s)
    ensures |Mac(s, key, seqno, kind, data)| == s.macSize
  {}

  /** The last byte of the padding says where the MAC is. */
  lemma FindMac(s: Suite, ssl3: bool, data: seq<byte>, mac: seq<byte>)
    requires Sound(s) && |mac| == s.macSize && data != []
    ensures var n := PadLen(|data| + |mac|, s.blockSize);
            var plain := data + mac + Repeat((n + 255) % 256, n);
            && MacPosition(s, ssl3, plain) == (|data|, true) && plain[..|data|] == data
            && plain[|data|..|data| + s.macSize] == mac && Whole(s, |plain|) && n <= 8
  {
    var n := PadLen(|data| + |mac|, s.blockSize);
    var plain := data + mac + Repeat((n + 255) % 256, n);
    assert n > 0 ==> plain[|plain| - 1] == n - 1;
  }

  /** Padding as long as a block or longer is accepted unless the version is exactly 3.0, whatever else it holds. */
  lemma PaddingAccepted(d: Direction, ssl3: bool, h: Head, ctx: Context, data: seq<byte>, pad: seq<byte>)
    requires d.Valid() && d.Secure() && d.suite.blockSize > 1 && |data| <= SSL_MAX_PLAINTEXT_LEN
    requires pad != [] && pad[|pad| - 1] as int == |pad| - 1
    ensures var plain := data + Mac(d.suite, d.key, d.seqno, h.kind, data) + pad;
            && (Unprotect(d, ssl3, h, ctx, plain).Opened? <==> !ssl3 || |pad| <= d.suite.blockSize)
            && (Unprotect(d, ssl3, h, ctx, plain).Opened? ==> Unprotect(d, ssl3, h, ctx, plain).data == data)
  {
    hide NextSeq, Mac, Sound;
    var mac := Mac(d.suite, d.key, d.seqno, h.kind, data);
    var plain := data + mac + pad;
    SecureIsSound(d);
    MacLength(d.suite, d.key, d.seqno, h.kind, data);
    assert plain[|plain| - 1] == pad[|pad| - 1];
    assert plain[..|data|] == data && plain[|data|..|data| + d.suite.macSize] == mac;
  }

  /** A record sealed at one sequence number, kind or secret does not open at another: its MAC is refused there unless
      the hash collides on what the two MACs are taken over. */
  lemma ReplayRefused(w: Direction, kind: byte, data: seq<byte>, r: Direction, ssl3: bool, h: Head, ctx: Context)
    requires w.Valid() && w.Secure() && data != [] && r.suite == w.suite && |r.seqno| == |w.seqno| && |r.key| == |w.key|
    requires r.seqno != w.seqno || r.key != w.key || h.kind != kind
    ensures Protected(w, kind, data) != []
    ensures Unprotect(r, ssl3, h, ctx, Protected(w, kind, data)) == Failed(BAD_RECORD_MAC, r.(ctx := ctx, seqno := NextSeq(r.seqno)))
            || MacsCollide(w.suite, w.key, w.seqno, kind, data, r.key, r.seqno, h.kind, data)
  {
    hide NextSeq, Mac, Sound, MacPosition, PadLen, MacsCollide;
    var mac := Mac(w.suite, w.key, w.seqno, kind, data);
    SecureIsSound(w);
    MacLength(w.suite, w.key, w.seqno, kind, data);
    FindMac(w.suite, ssl3, data, mac);
    if Mac(r.suite, r.key, r.seqno, h.kind, data) == mac {
      MacBinds(w.suite, w.key, w.seqno, kind, data, r.key, r.seqno, h.kind, data);
    }
  }

  /** The direction has room for n more encrypted bytes. */
  ghost predicate Allows(d: Direction, n: nat) {
    d.suite.limit.Some? ==> d.suite.count(d.ctx) + n <= d.suite.limit.value
  }

  lemma ProtectedSize(d: Direction, kind: byte, data: seq<byte>)
    requires d.Valid()
    ensures |Protected(d, kind, data)| == BodySize(d.suite, |data|) && Whole(d.suite, BodySize(d.suite, |data|))
    ensures |data| <= BodySize(d.suite, |data|) <= |data| + 28
  {
    hide Mac, PadLen;
    if d.Secure() {
      MacLength(d.suite, d.key, d.seqno, kind, data);
    }
  }

  lemma Encrypted(d: Direction, x: seq<byte>)
    requires d.Valid() && Whole(d.suite, |x|)
    ensures var (c, y) := d.suite.encrypt(d.ctx, x);
            && (y.Some? <==> Takes(d.suite, d.ctx, |x|))
            && (y.Some? ==> |y.value| == |x| && d.suite.decrypt(d.ctx, y.value) == (c, Some(x)))
            && (d.suite.limit.Some? ==> d.suite.limit.value <= COUNT_WORD / 2 && d.suite.count(c) == (d.suite.count(d.ctx) + |x|) % COUNT_WORD)
  {
    assert Sound(d.suite) ==> Encrypts(d.suite, d.ctx, x);
  }

  /** The direction has n more encrypted bytes behind it, and is otherwise as before. */
  ghost predicate Moved(d: Direction, d': Direction, n: nat) {
    && d'.Valid() && d'.suite == d.suite && d'.key == d.key
    && (d.suite.limit.Some? ==> d.suite.count(d'.ctx) == d.suite.count(d.ctx) + n)
  }

  /** A count within its limit cannot wrap round with the bytes of one record. */
  lemma LimitKept(d: Direction, c: Context, n: nat)
    requires d.suite.limit.Some? ==> d.suite.limit.value <= COUNT_WORD / 2 && d.suite.count(c) == (d.suite.count(d.ctx) + n) % COUNT_WORD
    requires n < COUNT_WORD / 2
    ensures Allows(d, 0) ==> (Takes(d.suite, d.ctx, n) <==> Allows(d, n))
    ensures Allows(d, n) && d.suite.limit.Some? ==> d.suite.count(c) == d.suite.count(d.ctx) + n
  {}

  /** A direction within its limit seals a record exactly when the record's bytes fit what is left of it. */
  lemma SealMoves(d: Direction, maj: byte, min: byte, kind: byte, data: seq<byte>)
    requires d.Valid() && |data| <= SSL_MAX_RECORD_LEN
    ensures var (d', wire) := Seal(d, maj, min, kind, data); var n := BodySize(d.suite, |data|);
            && d'.Valid()
            && (wire == [] || |wire| == SSL3_HEADER_LEN + n)
            && (wire != [] <==> Takes(d.suite, d.ctx, n))
            && (Allows(d, 0) ==> (wire != [] <==> Allows(d, n)))
            && (Allows(d, n) ==> Moved(d, d', n))
  {
    hide NextSeq, Protected, Sound, IsNull, PadLen, Takes, Allows, BodySize, Len2;
    var x := Protected(d, kind, data);
    ProtectedSize(d, kind, data);
    Encrypted(d, x);
    var c := d.suite.encrypt(d.ctx, x).0;
    LimitKept(d, c, |x|);
  }

  /** On the wire: kind, version, the length of what follows, most significant byte first, and the encrypted part. */
  lemma WireLayout(d: Direction, maj: byte, min: byte, kind: byte, data: seq<byte>)
    requires d.Valid() && |data| <= SSL_MAX_RECORD_LEN && Seal(d, maj, min, kind, data).1 != []
    ensures var wire := Seal(d, maj, min, kind, data).1;
            && |wire| >= SSL3_HEADER_LEN && wire[0] == kind && wire[1] == maj && wire[2] == min
            && BytesVal(wire[3..5]) == |wire| - SSL3_HEADER_LEN == BodySize(d.suite, |data|)
  {
    hide NextSeq, Protected, Sound, IsNull, PadLen, Takes, Allows, BodySize, Header;
    ProtectedSize(d, kind, data);
    Encrypted(d, Protected(d, kind, data));
    HeaderLayout(kind, maj, min, BodySize(d.suite, |data|), d.suite.encrypt(d.ctx, Protected(d, kind, data)).1.value);
  }

  lemma HeaderLayout(kind: byte, maj: byte, min: byte, n: nat, body: seq<byte>)
    requires n < 0x1_0000
    ensures var wire := Header(kind, maj, min, n) + body;
            wire[0] == kind && wire[1] == maj && wire[2] == min && BytesVal(wire[3..5]) == n && wire[5..] == body
  {
    hide BytesVal;
    var wire := Header(kind, maj, min, n) + body;
    assert wire[3..5] == Len2(n);
    Len2Value(n);
  }

  lemma Len2Value(n: nat)
    requires n < 0x1_0000
    ensures BytesVal(Len2(n)) == n
  {
    TwoBytes(n / 256, n % 256);
  }

  lemma TwoBytes(a: byte, b: byte)
    ensures BytesVal([a, b]) == Value2(a, b)
  {
    assert [a, b][..1] == [a] && [a][..0] == [];
    assert BytesVal([]) == 0;
    assert BytesVal([a]) == a;
  }

  lemma ThreeBytes(a: byte, b: byte, c: byte)
    ensures BytesVal([a, b, c]) == a * 0x1_0000 + b * 256 + c
  {
    TwoBytes(a, b);
    assert [a, b, c][..2] == [a, b];
  }

  /** A complete record of a known kind is decrypted and its protection checked. */
  lemma OpenOf(r: Direction, check: bool, rMaj: byte, rMin: byte, kind: byte, maj: byte, min: byte, body: seq<byte>, rest: seq<byte>,
               room: nat)
    requires KnownKind(kind) && (check ==> rMaj == maj && rMin == min) && 1 <= |body| <= SSL_MAX_RECORD_LEN && |body| <= room
    requires r.suite.decrypt(r.ctx, body).1.Some? && |r.suite.decrypt(r.ctx, body).1.value| == |body|
    ensures var (ctx, plain) := r.suite.decrypt(r.ctx, body);
            Open(r, check, rMaj, rMin, Header(kind, maj, min, |body|) + body + rest, room)
            == Unprotect(r, rMaj == 3 && rMin == 0, Head(kind, maj, min, |body|, SSL3_HEADER_LEN), ctx, plain.value)
  {
    hide Unprotect;
    var n := |body|;
    var input := Header(kind, maj, min, n) + body + rest;
    Lengths(n);
    assert input[SSL3_HEADER_LEN..SSL3_HEADER_LEN + n] == body;
    assert ReadHead(false, input) == Head(kind, maj, min, n, SSL3_HEADER_LEN);
  }

  /** A sealed record opens as what was sealed, whatever follows it. */
  lemma SealOpens(w: Direction, r: Direction, check: bool, maj: byte, min: byte, rMaj: byte, rMin: byte, kind: byte,
                  data: seq<byte>, rest: seq<byte>, room: nat)
    requires InSync(w, r) && KnownKind(kind) && 1 <= |data| <= SSL_MAX_PLAINTEXT_LEN
    requires (check ==> rMaj == maj && rMin == min) && room >= SSL_MAX_RECORD_LEN
    requires Takes(w.suite, w.ctx, BodySize(w.suite, |data|))
    ensures var (w', wire) := Seal(w, maj, min, kind, data);
            && wire != [] && InSync(w', w')
            && Open(r, check, rMaj, rMin, wire + rest, room) == Opened.Opened(kind, maj, data, w', |wire|)
  {
    hide NextSeq, Unprotect, Protected, Sound, IsNull, PadLen, BodySize, Takes, Allows, Open, Header;
    var plain := Protected(w, kind, data);
    ProtectedSize(w, kind, data);
    Encrypted(w, plain);
    var (ctx, body) := w.suite.encrypt(w.ctx, plain);
    OpenOf(r, check, rMaj, rMin, kind, maj, min, body.value, rest, room);
    UnprotectProtected(w, rMaj == 3 && rMin == 0, Head(kind, maj, min, |plain|, SSL3_HEADER_LEN), ctx, data);
    SealMoves(w, maj, min, kind, data);
  }

  /** So a record that comes a second time, or under another kind, is refused by a reader to whom its body decrypts as
      it did to the first. */
  lemma SecondOpenFails(w: Direction, maj: byte, min: byte, kind: byte, data: seq<byte>, r: Direction, kind': byte, rest: seq<byte>,
                        room: nat)
    requires w.Valid() && w.Secure() && 1 <= |data| <= SSL_MAX_PLAINTEXT_LEN && KnownKind(kind') && room >= SSL_MAX_RECORD_LEN
    requires r.suite == w.suite && |r.seqno| == |w.seqno| && r.key == w.key && (r.seqno != w.seqno || kind' != kind)
    requires w.suite.encrypt(w.ctx, Protected(w, kind, data)).1.Some?
    requires r.suite.decrypt(r.ctx, w.suite.encrypt(w.ctx, Protected(w, kind, data)).1.value).1 == Some(Protected(w, kind, data))
    ensures var wire := Seal(w, maj, min, kind, data).1;
            && |wire| > SSL3_HEADER_LEN
            && var o := Open(r, true, maj, min, [kind'] + wire[1..] + rest, room);
            (o.Failed? && o.alert == BAD_RECORD_MAC) || MacsCollide(w.suite, w.key, w.seqno, kind, data, r.key, r.seqno, kind', data)
  {
    hide NextSeq, Unprotect, Protected, Sound, IsNull, PadLen, BodySize, MacsCollide, Open, Len2;
    var plain := Protected(w, kind, data);
    ProtectedSize(w, kind, data);
    Encrypted(w, plain);
    var body := w.suite.encrypt(w.ctx, plain).1.value;
    OpenOf(r, true, maj, min, kind', maj, min, body, rest, room);
    ReplayRefused(w, kind, data, r, maj == 3 && min == 0, Head(kind', maj, min, |body|, SSL3_HEADER_LEN), r.suite.decrypt(r.ctx, body).0);
    assert [kind'] + Seal(w, maj, min, kind, data).1[1..] == Header(kind', maj, min, |body|) + body;
  }

  /** The records of a sequence of messages, up to the first that the cipher refuses. */
  function SealAll(d: Direction, maj: byte, min: byte, kind: byte, messages: seq<seq<byte>>): (Direction, seq<byte>)
    decreases messages
  {
    if messages == [] then (d, [])
    else
      var (d', wire) := Seal(d, maj, min, kind, messages[0]);
      if wire == [] then (d', [])
      else
        var (d'', more) := SealAll(d', maj, min, kind, messages[1..]);
        (d'', wire + more)
  }

  /** The data of the records in an input, until it is used up or one is not in order. */
  function OpenAll(d: Direction, maj: byte, min: byte, input: seq<byte>, room: nat): (seq<seq<byte>>, Direction)
    decreases |input|
  {
    var o := Open(d, true, maj, min, input, room);
    if o.Opened? then
      var (more, d') := OpenAll(o.next, maj, min, input[o.size..], room);
      ([o.data] + more, d')
    else ([], d)
  }

  /** The encrypted bytes of a sequence of messages. */
  function TotalSize(s: Suite, messages: seq<seq<byte>>): nat
    decreases messages
  {
    if messages == [] then 0 else BodySize(s, |messages[0]|) + TotalSize(s, messages[1..])
  }

  /** For any sequence of records, the peer reads exactly what was written, record by record, and ends with the same
      cipher state and sequence number, if and only if the records fit what is left of the cipher's limit. */
  lemma {:induction false} SessionRoundTrip(w: Direction, r: Direction, maj: byte, min: byte, kind: byte, messages: seq<seq<byte>>,
                                            room: nat)
    requires InSync(w, r) && KnownKind(kind) && Allows(w, 0) && room >= SSL_MAX_RECORD_LEN && maj > 0
    requires forall k | 0 <= k < |messages| :: 1 <= |messages[k]| <= SSL_MAX_PLAINTEXT_LEN
    ensures var (heard, end) := OpenAll(r, maj, min, SealAll(w, maj, min, kind, messages).1, room);
            && (heard == messages <==> Allows(w, TotalSize(w.suite, messages)))
            && (heard == messages ==> end == SealAll(w, maj, min, kind, messages).0)
    decreases messages
  {
    hide Open, Seal, Takes, BodySize;
    if messages == [] {
      OpenNothing(r, maj, min, room);
    } else {
      var (w', wire) := Seal(w, maj, min, kind, messages[0]);
      SealMoves(w, maj, min, kind, messages[0]);
      if wire == [] {
        OpenNothing(r, maj, min, room);
      } else {
        var more := SealAll(w', maj, min, kind, messages[1..]).1;
        SealOpens(w, r, true, maj, min, maj, min, kind, messages[0], more, room);
        SessionRoundTrip(w', w', maj, min, kind, messages[1..], room);
        assert (wire + more)[|wire|..] == more;
        assert [messages[0]] + messages[1..] == messages;
        var heard := OpenAll(w', maj, min, more, room).0;
        assert [messages[0]] + heard == messages ==> heard == messages[1..] by {
          assert ([messages[0]] + heard)[1..] == heard;
        }
      }
    }
  }

  lemma OpenNothing(d: Direction, maj: byte, min: byte, room: nat)
    ensures Open(d, true, maj, min, [], room) == Empty
  {}

  // ----- records in buffers

  method Put(out: array<byte>, at: nat, bytes: seq<byte>)
    requires at + |bytes| <= out.Length
    modifies out
    ensures Placed(out[..], old(out[..]), at, bytes)
  {
    var i := 0;
    while i < |bytes|
      invariant 0 <= i <= |bytes| && out[at..at + i] == bytes[..i]
      invariant forall k | 0 <= k < out.Length && !(at <= k < at + i) :: out[k] == old(out[k])
    {
      out[at + i] := bytes[i];
      i := i + 1;
    }
  }

  datatype Outcome = Written(size: nat) | NoSpace | Stuck

  datatype Received = NothingLeft | NeedMore | OutputFull | Refused(alert: byte)
    | Got(kind: byte, version: byte, size: nat, dataEnd: nat)

  /** How what is returned, the state and the buffer correspond to what the specification says of a direction. */
  ghost predicate Matches(r: Received, o: Opened, at: nat, out: seq<byte>, now: Direction, was: Direction) {
    match o
    case Empty => r == NothingLeft && now == was
    case Partial => r == NeedMore && now == was
    case NoRoom => r == OutputFull && now == was
    case Failed(alert, after) => r == Refused(alert) && now == after
    case Opened(kind, version, data, next, size) =>
      r == Got(kind, version, size, at + |data|) && at + |data| <= |out| && out[at..at + |data|] == data && now == next
  }

  /** One direction of a connection, as an object that writes or reads its records. */
  class Half {
    var suite: Suite
    var ctx: Context
    var key: seq<byte>
    const seqno: array<byte>

    ghost function State(): Direction
      reads this, seqno
    {
      Direction(suite, ctx, key, seqno[..])
    }

    /** A new connection starts with the null suite. */
    constructor (plain: Suite)
      requires IsNull(plain)
      ensures State() == Direction(plain, [], [], Repeat(0, 8)) && State().Valid() && fresh(seqno)
    {
      suite := plain;
      ctx := [];
      key := [];
      seqno := new byte[8](_ => 0);
      new;
      assert seqno[..] == Repeat(0, 8);
    }

    /** Makes a suite the active one, its sequence number at zero. */
    method Activate(s: Suite, mac: seq<byte>, cipherKey: seq<byte>, iv: seq<byte>)
      requires seqno.Length == 8
      modifies this, seqno
      ensures State() == Activated(old(State()), s, mac, cipherKey, iv)
    {
      suite := s;
      var i := 0;
      while i < 8
        invariant 0 <= i <= 8 && forall k | 0 <= k < i :: seqno[k] == 0
        invariant suite == s && key == old(key) && ctx == old(ctx)
      {
        seqno[i] := 0;
        i := i + 1;
      }
      assert seqno[..] == Repeat(0, 8);
      if s.id != SSL_NULL_WITH_NULL_NULL {
        key := mac;
        ctx := s.start(cipherKey, iv);
      }
    }

    /** Writes one record at position `at`, if it fits: header, data, MAC and padding, then encrypted in place.
        A cipher that refuses leaves what was written in the buffer, but before `at` nothing changes. */
    method WriteRecord(maj: byte, min: byte, kind: byte, data: seq<byte>, out: array<byte>, at: nat) returns (r: Outcome)
      requires State().Valid() && out != seqno && at <= out.Length
      modifies `ctx, seqno, out
      ensures State().Valid() && out[..at] == old(out[..at])
      ensures r.NoSpace? <==> RecordSize(suite, |data|) > out.Length - at
      ensures r.NoSpace? ==> State() == old(State()) && out[..] == old(out[..])
      ensures !r.NoSpace? ==> State() == Seal(old(State()), maj, min, kind, data).0
      ensures !r.NoSpace? ==> (r.Stuck? <==> Seal(old(State()), maj, min, kind, data).1 == [])
      ensures r.Written? ==> r.size == RecordSize(suite, |data|) == |Seal(old(State()), maj, min, kind, data).1|
      ensures r.Written? ==> Placed(out[..], old(out[..]), at, Seal(old(State()), maj, min, kind, data).1)
    {
      hide NextSeq, Mac, Sound, IsNull, Placed, PadLen, Protected;
      ghost var d := State();
      var messageSize, padLen := SSL3_HEADER_LEN + |data|, 0;
      if suite.id != SSL_NULL_WITH_NULL_NULL {
        messageSize := messageSize + suite.macSize;
        padLen := PadLen(messageSize - SSL3_HEADER_LEN, suite.blockSize);
        messageSize := messageSize + padLen;
      }
      if out.Length - at < messageSize {
        return NoSpace;
      }
      ProtectedSize(d, kind, data);
      ghost var o0 := out[..];
      var h := Header(kind, maj, min, messageSize - SSL3_HEADER_LEN);
      Put(out, at, h);
      ghost var o1 := out[..];
      Put(out, at + SSL3_HEADER_LEN, data);
      PlacedNext(o1, o0, at, h, out[..], data);
      var done, body := EncryptRecord(kind, data, out, at, padLen, o0, h);
      PlacedBefore(out[..], o0, at, h + body, 0);
      EncryptedSize(d, Protected(d, kind, data));
      r := if done then Written(messageSize) else Stuck;
    }

    /** Appends MAC and padding to the data after the header and encrypts them together. */
    method EncryptRecord(kind: byte, data: seq<byte>, out: array<byte>, at: nat, padLen: nat, ghost o0: seq<byte>,
                         ghost h: seq<byte>)
      returns (done: bool, ghost body: seq<byte>)
      requires State().Valid() && out != seqno && |h| == SSL3_HEADER_LEN && Placed(out[..], o0, at, h + data)
      requires at + SSL3_HEADER_LEN + |Protected(State(), kind, data)| <= out.Length
      requires padLen == if suite.id != SSL_NULL_WITH_NULL_NULL then PadLen(|data| + suite.macSize, suite.blockSize) else 0
      modifies `ctx, seqno, out
      ensures State().Valid() && Placed(out[..], o0, at, h + body)
      ensures var d := old(State()); var (c, y) := d.suite.encrypt(d.ctx, Protected(d, kind, data));
              && State() == d.(ctx := c, seqno := if d.Secure() then NextSeq(d.seqno) else d.seqno)
              && (done <==> y.Some?) && (done ==> body == y.value)
    {
      hide NextSeq, Mac, Sound, IsNull, Placed, PadLen;
      ghost var d := State();
      var c := at + SSL3_HEADER_LEN + |data|;
      body := data;
      if suite.id != SSL_NULL_WITH_NULL_NULL {
        SecureIsSound(d);
        ProtectedSize(d, kind, data);
        PlacedLength(out[..], o0, at, h + data);
        body := AppendMac(kind, data, out, at, c, padLen, o0, h);
        c := c + suite.macSize + padLen;
      }
      done, body := EncryptInPlace(out, at + SSL3_HEADER_LEN, c, o0, at, h, body);
    }

    /** MAC and padding behind the data; the MAC counts the sequence number up. */
    method AppendMac(kind: byte, data: seq<byte>, out: array<byte>, at: nat, c: nat, padLen: nat, ghost o0: seq<byte>,
                     ghost h: seq<byte>)
      returns (ghost body: seq<byte>)
      requires Sound(suite) && seqno.Length == 8 && out != seqno && |h| == SSL3_HEADER_LEN && Placed(out[..], o0, at, h + data)
      requires c == at + SSL3_HEADER_LEN + |data| && c + suite.macSize + padLen <= out.Length
      modifies seqno, out
      ensures seqno[..] == NextSeq(old(seqno[..])) && Placed(out[..], o0, at, h + body)
      ensures body == data + Mac(suite, key, old(seqno[..]), kind, data) + Repeat((padLen + 255) % 256, padLen)
      ensures |body| == |data| + suite.macSize + padLen
    {
      hide NextSeq, Mac, Sound, Placed, Repeat;
      PlacedSlice(out[..], o0, at, h, data);
      assert out[at + SSL3_HEADER_LEN..c] == data;
      var mac := Mac(suite, key, seqno[..], kind, out[at + SSL3_HEADER_LEN..c]);
      MacLength(suite, key, seqno[..], kind, data);
      Increment(seqno);
      ghost var o1 := out[..];
      Put(out, c, mac);
      PlacedNext(o1, o0, at, h + data, out[..], mac);
      var pad := Repeat((padLen + 255) % 256, padLen);
      ghost var o2 := out[..];
      Put(out, c + |mac|, pad);
      PlacedNext(o2, o0, at, h + data + mac, out[..], pad);
      body := data + mac + pad;
      assert h + data + mac + pad == h + body;
    }

    method EncryptInPlace(out: array<byte>, start: nat, c: nat, ghost o0: seq<byte>, ghost at: nat, ghost h: seq<byte>,
                          ghost body: seq<byte>)
      returns (done: bool, ghost now: seq<byte>)
      requires State().Valid() && out != seqno && Placed(out[..], o0, at, h + body) && start == at + |h| && c == start + |body|
      modifies `ctx, out
      ensures Placed(out[..], o0, at, h + now)
      ensures var d := old(State()); var (c, y) := d.suite.encrypt(d.ctx, body);
              ctx == c && (done <==> y.Some?) && now == if done then y.value else body
    {
      hide Sound, IsNull, Placed;
      PlacedLength(out[..], o0, at, h + body);
      PlacedSlice(out[..], o0, at, h, body);
      assert out[start..c] == body;
      EncryptedSize(State(), body);
      var e := suite.encrypt(ctx, out[start..c]);
      ctx := e.0;
      if e.1.None? {
        return false, body;
      }
      ghost var o1 := out[..];
      Put(out, start, e.1.value);
      PlacedOver(o1, o0, at, h, body, out[..], e.1.value);
      return true, e.1.value;
    }

    /** Decodes the record at the front of inp[start..end] into out at position `at`. Nothing before `at` changes. */
    method ReadRecord(checkVersion: bool, maj: byte, min: byte, inp: array<byte>, start: nat, end: nat, out: array<byte>, at: nat)
      returns (r: Received)
      requires State().Valid() && inp != out && out != seqno && inp != seqno && start <= end <= inp.Length && at <= out.Length
      modifies `ctx, seqno, out
      ensures State().Valid() && out[..at] == old(out[..at])
      ensures Matches(r, Open(old(State()), checkVersion, maj, min, old(inp[start..end]), out.Length - at), at, out[..], State(), old(State()))
      ensures r.NothingLeft? || r.NeedMore? || r.OutputFull? ==> out[..] == old(out[..])
    {
      hide Unprotect, Sound, IsNull;
      var input := inp[start..end];
      if end == start {
        return NothingLeft;
      }
      var short := ShortHeader(maj, input);
      if |input| < if short then SSL2_HEADER_LEN else SSL3_HEADER_LEN {
        return NeedMore;
      }
      var h := ReadHead(short, input);
      if !KnownKind(h.kind) {
        return Refused(UNEXPECTED_MESSAGE);
      }
      if checkVersion && (h.maj != maj || h.min != min) {
        return Refused(ILLEGAL_PARAMETER);
      }
      if h.len > SSL_MAX_RECORD_LEN || h.len == 0 {
        return Refused(ILLEGAL_PARAMETER);
      }
      if |input| - h.size < h.len {
        return NeedMore;
      }
      if out.Length - at < h.len {
        return OutputFull;
      }
      var body := input[h.size..h.size + h.len];
      DecryptedSize(State(), body);
      assert Open(State(), checkVersion, maj, min, input, out.Length - at)
          == var (c, plain) := suite.decrypt(ctx, body);
             if plain.None? then Failed(ILLEGAL_PARAMETER, State().(ctx := c)) else Unprotect(State(), maj == 3 && min == 0, h, c, plain.value);
      r := Decrypt(maj == 3 && min == 0, h, body, out, at);
    }

    /** Decrypts a record body into the buffer, and checks its MAC if the connection is secure. */
    method Decrypt(ssl3: bool, h: Head, body: seq<byte>, out: array<byte>, at: nat) returns (r: Received)
      requires State().Valid() && out != seqno && body != [] && |body| == h.len && at + |body| <= out.Length
      requires suite.decrypt(ctx, body).1.Some? ==> |suite.decrypt(ctx, body).1.value| == |body|
      modifies `ctx, seqno, out
      ensures State().Valid() && out[..at] == old(out[..at])
      ensures var d := old(State()); var (c, plain) := d.suite.decrypt(d.ctx, body);
              Matches(r, if plain.None? then Failed(ILLEGAL_PARAMETER, d.(ctx := c)) else Unprotect(d, ssl3, h, c, plain.value), at, out[..], State(), d)
    {
      hide Sound, IsNull, Mac, NextSeq, MacPosition;
      ghost var d := State();
      var e := suite.decrypt(ctx, body);
      ctx := e.0;
      if e.1.None? {
        return Refused(ILLEGAL_PARAMETER);
      }
      Put(out, at, e.1.value);
      assert out[at..at + |body|] == e.1.value;
      if suite.id != SSL_NULL_WITH_NULL_NULL {
        SecureIsSound(d);
        r := CheckMac(ssl3, h, e.1.value, out, at, d);
      } else if |body| > SSL_MAX_PLAINTEXT_LEN {
        r := Refused(BAD_RECORD_MAC);
      } else {
        r := Got(h.kind, h.maj, h.size + |body|, at + |body|);
      }
    }

    /** Finds the MAC, compares it with its own and clears it; the comparison counts the sequence number up. */
    method CheckMac(ssl3: bool, h: Head, plain: seq<byte>, out: array<byte>, at: nat, ghost d: Direction) returns (r: Received)
      requires seqno.Length == 8 && out != seqno && plain != [] && at + |plain| <= out.Length && out[at..at + |plain|] == plain
      requires suite.id != SSL_NULL_WITH_NULL_NULL && State() == d.(ctx := ctx)
      modifies seqno, out
      ensures Matches(r, Unprotect(d, ssl3, h, ctx, plain), at, out[..], State(), d)
      ensures |seqno[..]| == 8 && out[..at] == old(out[..at])
    {
      hide Mac, NextSeq, MacPosition, Placed, Unprotect, Matches;
      if |plain| < suite.macSize {
        TooShort(d, ssl3, h, ctx, plain, at, out[..]);
        return Refused(BAD_RECORD_MAC);
      }
      var p := MacPosition(suite, ssl3, plain);
      var mac := at + p.0;
      var same := VerifyMac(h.kind, out, at, p.0, plain);
      if !same || !p.1 {
        WrongMac(d, ssl3, h, ctx, plain, at, out[..]);
        return Refused(BAD_RECORD_MAC);
      }
      ghost var was := out[..];
      Put(out, mac, Repeat(0, suite.macSize));
      PlacedBefore(out[..], was, mac, Repeat(0, suite.macSize), at);
      RightMac(d, ssl3, h, ctx, plain, at, out[..]);
      if p.0 > SSL_MAX_PLAINTEXT_LEN {
        return Refused(BAD_RECORD_MAC);
      }
      r := Got(h.kind, h.maj, h.size + |plain|, mac);
    }

    /** Compares the MAC behind n bytes of data with the one they should have. */
    method VerifyMac(kind: byte, out: array<byte>, at: nat, n: nat, ghost plain: seq<byte>) returns (same: bool)
      requires seqno.Length == 8 && out != seqno && n + suite.macSize <= |plain| && at + |plain| <= out.Length
      requires out[at..at + |plain|] == plain
      modifies seqno
      ensures same <==> Mac(suite, key, old(seqno[..]), kind, plain[..n]) == plain[n..n + suite.macSize]
      ensures seqno[..] == NextSeq(old(seqno[..])) && out[at..at + n] == plain[..n]
    {
      hide Mac, NextSeq;
      SliceOfSlice(out[..], at, |plain|, 0, n);
      SliceOfSlice(out[..], at, |plain|, n, suite.macSize);
      var expected := Mac(suite, key, seqno[..], kind, out[at..at + n]);
      Increment(seqno);
      same := expected == out[at + n..at + n + suite.macSize];
    }
  }

  lemma TooShort(d: Direction, ssl3: bool, h: Head, ctx: Context, plain: seq<byte>, at: nat, out: seq<byte>)
    requires d.Secure() && plain != [] && |plain| < d.suite.macSize
    ensures Matches(Refused(BAD_RECORD_MAC), Unprotect(d, ssl3, h, ctx, plain), at, out, d.(ctx := ctx), d)
  {}

  lemma WrongMac(d: Direction, ssl3: bool, h: Head, ctx: Context, plain: seq<byte>, at: nat, out: seq<byte>)
    requires d.Secure() && plain != [] && |plain| >= d.suite.macSize
    requires var p := MacPosition(d.suite, ssl3, plain);
             Mac(d.suite, d.key, d.seqno, h.kind, plain[..p.0]) != plain[p.0..p.0 + d.suite.macSize] || !p.1
    ensures Matches(Refused(BAD_RECORD_MAC), Unprotect(d, ssl3, h, ctx, plain), at, out, d.(ctx := ctx, seqno := NextSeq(d.seqno)), d)
  {
    hide Mac, MacPosition, NextSeq;
  }

  lemma RightMac(d: Direction, ssl3: bool, h: Head, ctx: Context, plain: seq<byte>, at: nat, out: seq<byte>)
    requires d.Secure() && plain != [] && |plain| >= d.suite.macSize
    requires var p := MacPosition(d.suite, ssl3, plain);
             && Mac(d.suite, d.key, d.seqno, h.kind, plain[..p.0]) == plain[p.0..p.0 + d.suite.macSize] && p.1
             && at + p.0 <= |out| && out[at..at + p.0] == plain[..p.0]
    ensures var p := MacPosition(d.suite, ssl3, plain);
            var r := if p.0 > SSL_MAX_PLAINTEXT_LEN then Refused(BAD_RECORD_MAC) else Got(h.kind, h.maj, h.size + |plain|, at + p.0);
            Matches(r, Unprotect(d, ssl3, h, ctx, plain), at, out, d.(ctx := ctx, seqno := NextSeq(d.seqno)), d)
  {
    hide Mac, MacPosition, NextSeq;
  }

  lemma EncryptedSize(d: Direction, x: seq<byte>)
    requires d.Valid()
    ensures d.suite.encrypt(d.ctx, x).1.Some? ==> |d.suite.encrypt(d.ctx, x).1.value| == |x|
  {
    assert Sound(d.suite) ==> Encrypts(d.suite, d.ctx, x);
  }

  lemma DecryptedSize(d: Direction, x: seq<byte>)
    requires d.Valid()
    ensures d.suite.decrypt(d.ctx, x).1.Some? ==> |d.suite.decrypt(d.ctx, x).1.value| == |x|
  {}
}
