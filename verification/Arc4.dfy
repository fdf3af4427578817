/** The RC4 stream cipher. */
module Arc4 {
  import opened Numbers
  import opened MpBytes
  import opened Options
  import opened Splices

  const ARC4_MAX_BYTES := 0x4000_0000

  /** The two indices and the permutation. */
  datatype Cipher = Cipher(x: byte, y: byte, table: seq<byte>)

  /** Each of the 256 byte values stands at exactly one position. */
  ghost predicate Permutation(table: seq<byte>) {
    |table| == 256 && forall i, j | 0 <= i < j < 256 :: table[i] != table[j]
  }

  function Swapped(table: seq<byte>, i: nat, j: nat): seq<byte>
    requires i < |table| && j < |table|
  {
    table[i := table[j]][j := table[i]]
  }

  lemma SwapKeepsPermutation(table: seq<byte>, i: nat, j: nat)
    requires Permutation(table) && i < 256 && j < 256
    ensures Permutation(Swapped(table, i, j))
  {}

  function Sum(a: int, b: int): byte {
    (a + b) % 256
  }

  function Xor(a: bv8, b: bv8): bv8 {
    a ^ b
  }

  /** One step of the generator. */
  function Next(c: Cipher): (c': Cipher)
    requires |c.table| == 256
    ensures |c'.table| == 256
  {
    var x := Sum(c.x, 1);
    var y := Sum(c.table[x], c.y);
    Cipher(x, y, Swapped(c.table, x, y))
  }

  /** The byte a state has just generated. */
  function Generated(c: Cipher): byte
    requires |c.table| == 256
  {
    c.table[Sum(c.table[c.x], c.table[c.y])]
  }

  function After(c: Cipher, n: nat): (c': Cipher)
    requires |c.table| == 256
    ensures |c'.table| == 256
    decreases n
  {
    if n == 0 then c else After(Next(c), n - 1)
  }

  /** A message combined with the key stream. */
  function Crypt(c: Cipher, m: seq<bv8>): (r: seq<bv8>)
    requires |c.table| == 256
    ensures |r| == |m|
    decreases m
  {
    if m == [] then [] else [Xor(m[0], Generated(Next(c)) as bv8)] + Crypt(Next(c), m[1..])
  }

  lemma NextKeepsPermutation(c: Cipher)
    requires Permutation(c.table)
    ensures Permutation(Next(c).table)
  {
    var x := Sum(c.x, 1);
    SwapKeepsPermutation(c.table, x, Sum(c.table[x], c.y));
  }

  lemma {:induction false} AfterKeepsPermutation(c: Cipher, n: nat)
    requires Permutation(c.table)
    ensures Permutation(After(c, n).table)
    decreases n
  {
    if n > 0 {
      NextKeepsPermutation(c);
      AfterKeepsPermutation(Next(c), n - 1);
    }
  }

  lemma XorTwice(a: bv8, b: bv8)
    ensures Xor(Xor(a, b), b) == a
  {}

  /** From equal states, processing twice gives the message back. */
  lemma {:induction false} CryptTwice(c: Cipher, m: seq<bv8>)
    requires |c.table| == 256
    ensures Crypt(c, Crypt(c, m)) == m
    decreases m
  {
    hide Xor, Next, Generated;
    if m != [] {
      var key := Generated(Next(c)) as bv8;
      XorTwice(m[0], key);
      CryptTwice(Next(c), m[1..]);
      assert Crypt(c, m)[1..] == Crypt(Next(c), m[1..]);
    }
  }

  lemma {:induction false} AfterAdds(c: Cipher, m: nat, n: nat)
    requires |c.table| == 256
    ensures After(After(c, m), n) == After(c, m + n)
    decreases m
  {
    hide Next;
    if m > 0 { AfterAdds(Next(c), m - 1, n); }
  }

  /** Processing in two calls is processing in one. */
  lemma {:induction false} CryptInParts(c: Cipher, a: seq<bv8>, b: seq<bv8>)
    requires |c.table| == 256
    ensures Crypt(c, a + b) == Crypt(c, a) + Crypt(After(c, |a|), b)
    decreases a
  {
    hide Xor, Next, Generated;
    if a == [] {
      assert a + b == b;
    } else {
      assert (a + b)[1..] == a[1..] + b;
      CryptInParts(Next(c), a[1..], b);
    }
  }

  /** t' is t with the entries at i and j exchanged. */
  ghost predicate Exchanged(t: seq<byte>, t': seq<byte>, i: nat, j: nat)
    requires i < |t| && j < |t|
  {
    |t'| == |t| && t'[i] == t[j] && t'[j] == t[i] && forall k | 0 <= k < |t| && k != i && k != j :: t'[k] == t[k]
  }

  lemma {:induction false} AfterIndex(c: Cipher, n: nat)
    requires |c.table| == 256
    ensures After(c, n).x == (c.x + n) % 256
    decreases n
  {
    hide Swapped;
    if n > 0 {
      AfterIndex(Next(c), n - 1);
      CountOn(c.x, n);
    }
  }

  lemma CountOn(x: nat, n: nat)
    requires x < 256 && n > 0
    ensures ((x + 1) % 256 + (n - 1)) % 256 == (x + n) % 256
  {}

  /** One step: the first index counts up, the second goes on by the entry there, the two entries change places, and the
      byte generated is the entry at their sum. */
  lemma NextTrace(s: Cipher)
    requires |s.table| == 256
    ensures var t := Next(s);
            var x: nat := (s.x as int + 1) % 256; var e: int := s.table[x];
            var y: nat := (s.y as int + e) % 256; var f: int := s.table[y];
            && t.x == x && t.y == y && Exchanged(s.table, t.table, x, y) && Generated(t) == t.table[(e + f) % 256]
  {
    var x := Sum(s.x, 1);
    SwappedAre(s.table, x, Sum(s.table[x], s.y));
  }

  lemma SwappedAre(t: seq<byte>, i: nat, j: nat)
    requires i < |t| && j < |t|
    ensures Exchanged(t, Swapped(t, i, j), i, j)
  {}

  /** Byte i of a message is combined with the byte of step i + 1, whose first index is that of the start counted up as
      often. */
  lemma KeyStream(c: Cipher, m: seq<bv8>, i: nat)
    requires |c.table| == 256 && i < |m|
    ensures After(c, i + 1) == Next(After(c, i)) && After(c, i).x == (c.x + i) % 256
    ensures Crypt(c, m)[i] == Xor(m[i], Generated(After(c, i + 1)) as bv8)
  {
    hide Xor, Crypt, Next, Generated, After;
    AfterIndex(c, i);
    CryptNext(c, m, i);
    Prefix(c, m, i + 1);
    assert Crypt(c, m)[..i + 1][i] == Crypt(c, m)[i];
  }

  /** The first bytes of a message do not depend on the rest. */
  lemma Prefix(c: Cipher, m: seq<bv8>, n: nat)
    requires |c.table| == 256 && n <= |m|
    ensures Crypt(c, m)[..n] == Crypt(c, m[..n])
  {
    CryptInParts(c, m[..n], m[n..]);
    assert m[..n] + m[n..] == m;
  }

  /** A generator and the bytes asked of it so far, in a 32-bit counter. */
  datatype Metered = Metered(cipher: Cipher, count: nat)

  /** One call: past the byte limit nothing is processed, but the bytes are counted even then. */
  function Call(s: Metered, m: seq<bv8>): (Metered, Option<seq<bv8>>)
    requires |s.cipher.table| == 256
  {
    var count := (s.count + |m|) % COUNT_WORD;
    if count > ARC4_MAX_BYTES then (s.(count := count), None)
    else (Metered(After(s.cipher, |m|), count), Some(Crypt(s.cipher, m)))
  }

  /** What one end processed, an end that stood where it did takes back. */
  lemma CallUndone(s: Metered, m: seq<bv8>)
    requires |s.cipher.table| == 256 && Call(s, m).1.Some?
    ensures Call(s, Call(s, m).1.value) == (Call(s, m).0, Some(m))
  {
    hide Crypt, After;
    CryptTwice(s.cipher, m);
  }

  /** Two calls do what one does, and as long as the bytes stay within the limit neither is refused. */
  lemma CallInParts(s: Metered, a: seq<bv8>, b: seq<bv8>)
    requires |s.cipher.table| == 256 && s.count + |a| + |b| <= ARC4_MAX_BYTES
    ensures var (s1, r1) := Call(s, a); var (s2, r2) := Call(s1, b);
            r1.Some? && r2.Some? && Call(s, a + b) == (s2, Some(r1.value + r2.value))
  {
    hide Crypt, After;
    CryptInParts(s.cipher, a, b);
    AfterAdds(s.cipher, |a|, |b|);
  }

  /** One more byte. */
  lemma CryptNext(c: Cipher, m: seq<bv8>, i: nat)
    requires |c.table| == 256 && i < |m|
    ensures var d := Next(After(c, i));
            After(c, i + 1) == d && Crypt(c, m[..i + 1]) == Crypt(c, m[..i]) + [Xor(m[i], Generated(d) as bv8)]
  {
    hide Xor, Next, Generated;
    AfterAdds(c, i, 1);
    AfterOne(After(c, i));
    CryptInParts(c, m[..i], [m[i]]);
    assert m[..i] + [m[i]] == m[..i + 1];
    CryptOne(After(c, i), m[i]);
  }

  lemma AfterOne(c: Cipher)
    requires |c.table| == 256
    ensures After(c, 1) == Next(c)
  {
    hide Next;
    assert After(Next(c), 0) == Next(c);
  }

  lemma CryptOne(c: Cipher, b: bv8)
    requires |c.table| == 256
    ensures Crypt(c, [b]) == [Xor(b, Generated(Next(c)) as bv8)]
  {
    hide Xor, Next, Generated;
    assert Crypt(Next(c), []) == [];
  }

  // ----- key setup

  function Identity(): (t: seq<byte>)
    ensures |t| == 256
  {
    seq(256, i requires 0 <= i < 256 => i)
  }

  /** The table and index2 after n rounds of key setup; index1 is n modulo the key length. */
  function SetupTable(key: seq<byte>, n: nat): (r: (seq<byte>, byte))
    requires key != [] && n <= 256
    ensures |r.0| == 256
  {
    if n == 0 then (Identity(), 0)
    else
      var (t, index2) := SetupTable(key, n - 1);
      var next := Sum(key[(n - 1) % |key|], Sum(t[n - 1], index2));
      (Swapped(t, n - 1, next), next)
  }

  lemma {:induction false} SetupIsPermutation(key: seq<byte>, n: nat)
    requires key != [] && n <= 256
    ensures Permutation(SetupTable(key, n).0)
  {
    if n > 0 {
      SetupIsPermutation(key, n - 1);
      var (t, index2) := SetupTable(key, n - 1);
      SwapKeepsPermutation(t, n - 1, Sum(key[(n - 1) % |key|], Sum(t[n - 1], index2)));
    }
  }

  lemma SetupStart(key: seq<byte>)
    requires key != []
    ensures SetupTable(key, 0).1 == 0 && forall k: nat | k < 256 :: SetupTable(key, 0).0[k] == k
  {}

  /** Round n of key setup goes on by the entry at n and a byte of the key, taken from its start again after its end, and
      exchanges the two entries. */
  lemma SetupTrace(key: seq<byte>, n: nat)
    requires key != [] && n < 256
    ensures var (s, j) := SetupTable(key, n); var (t, i) := SetupTable(key, n + 1); var e: int, k: int := s[n], key[n % |key|];
            i == (k + e + j) % 256 && Exchanged(s, t, n, i)
  {
    hide Swapped, Identity, Exchanged;
    var (s, j) := SetupTable(key, n);
    ThreeSum(key[n % |key|], s[n], j);
    SwappedAre(s, n, Sum(key[n % |key|], Sum(s[n], j)));
  }

  lemma ThreeSum(a: int, b: int, c: int)
    ensures Sum(a, Sum(b, c)) == (a + b + c) % 256
  {}

  class Arc4Context {
    var x: byte
    var y: byte
    var byteCount: nat
    const table: array<byte>

    ghost function State(): Cipher
      reads this, table
    {
      Cipher(x, y, table[..])
    }

    ghost function Meter(): Metered
      reads this, table
    {
      Metered(State(), byteCount)
    }

    ghost predicate Valid()
      reads this, table
    {
      Permutation(table[..]) && byteCount < COUNT_WORD
    }

    constructor (key: seq<byte>)
      requires key != []
      ensures Valid() && byteCount == 0 && State() == Cipher(0, 0, SetupTable(key, 256).0) && fresh(table)
    {
      byteCount := 0;
      x := 0;
      y := 0;
      table := new byte[256];
      new;
      var counter := 0;
      while counter < 256
        invariant 0 <= counter <= 256 && x == 0 && y == 0 && byteCount == 0
        invariant forall k | 0 <= k < counter :: table[k] == k
      {
        table[counter] := counter;
        counter := counter + 1;
      }
      MixKey(key);
      SetupIsPermutation(key, 256);
    }

    method MixKey(key: seq<byte>)
      requires key != [] && table.Length == 256 && table[..] == Identity()
      modifies table
      ensures table[..] == SetupTable(key, 256).0
    {
      var index1, index2: byte := 0, 0;
      var counter := 0;
      while counter < 256
        invariant 0 <= counter <= 256 && index1 == counter % |key|
        invariant SetupTable(key, counter) == (table[..], index2)
      {
        ghost var was := table[..];
        index2 := Sum(key[index1], Sum(table[counter], index2));
        table[counter], table[index2] := table[index2], table[counter];
        assert table[..] == Swapped(was, counter, index2);
        NextIndex(counter, |key|);
        index1 := (index1 + 1) % |key|;
        counter := counter + 1;
      }
    }

    /** Processes len bytes, also in place, unless the byte limit is passed; calls are counted even then,
        in a 32-bit counter. */
    method Process(inp: array<bv8>, from: nat, out: array<bv8>, to: nat, len: nat) returns (res: int)
      requires Valid() && from + len <= inp.Length && to + len <= out.Length && (inp != out || from == to) && len <= 32767
      requires inp as object != table && out as object != table
      modifies `x, `y, `byteCount, table, out
      ensures Valid()
      ensures var (t, r) := Call(old(Meter()), old(inp[from..from + len]));
              && Meter() == t && res == (if r.None? then -1 else len)
              && (if r.None? then out[..] == old(out[..]) else Placed(out[..], old(out[..]), to, r.value))
    {
      hide After, Crypt, Placed, Permutation;
      byteCount := (byteCount + len) % COUNT_WORD;
      if byteCount > ARC4_MAX_BYTES {
        return -1;
      }
      Generate(inp, from, out, to, len);
      res := len;
    }

    method Generate(inp: array<bv8>, from: nat, out: array<bv8>, to: nat, len: nat)
      requires Permutation(table[..]) && from + len <= inp.Length && to + len <= out.Length && (inp != out || from == to)
      requires inp as object != table && out as object != table
      modifies `x, `y, table, out
      ensures Permutation(table[..]) && State() == After(old(State()), len)
      ensures Placed(out[..], old(out[..]), to, Crypt(old(State()), old(inp[from..from + len])))
    {
      hide Permutation, Crypt, After, Placed, Streamed;
      ghost var c0, all, o0 := State(), inp[..], out[..];
      ghost var m := all[from..from + len];
      assert inp[from..from + len] == m;
      assert |c0.table| == 256 by { PermutationLength(c0.table); }
      AfterKeepsPermutation(c0, len);
      StreamedStart(o0, to, c0, m);
      var counter := 0;
      while counter < len
        invariant 0 <= counter <= len && table.Length == 256 && (inp != out ==> inp[..] == all)
        invariant Streamed(out[..], o0, to, c0, m, counter, State())
      {
        ProcessByte(inp, from, out, to, counter, all, o0, c0, m);
        counter := counter + 1;
      }
      StreamedEnd(out[..], o0, to, c0, m, State());
    }

    /** The byte at position i, with all before it processed. */
    method ProcessByte(inp: array<bv8>, from: nat, out: array<bv8>, to: nat, i: nat,
                       ghost all: seq<bv8>, ghost o0: seq<bv8>, ghost c0: Cipher, ghost m: seq<bv8>)
      requires table.Length == 256 && inp as object != table && out as object != table && i < |m| && |all| == inp.Length && to + |m| <= out.Length
      requires from + |m| <= |all| && m == all[from..from + |m|]
      requires if inp == out then from == to && all == o0 else inp[..] == all
      requires Streamed(out[..], o0, to, c0, m, i, State())
      modifies `x, `y, table, out
      ensures inp != out ==> inp[..] == all
      ensures Streamed(out[..], o0, to, c0, m, i + 1, State())
    {
      hide Next, Xor, Generated, Streamed;
      ghost var was, c := out[..], State();
      StreamedUnread(was, o0, to, c0, m, i, c);
      assert inp[from + i] == m[i];
      var key := Step();
      out[to + i] := Xor(inp[from + i], key);
      StreamedStep(was, o0, to, c0, m, i, c);
      assert out[..] == was[to + i := Xor(m[i], key)];
    }

    /** One step of the generator in place. */
    method Step() returns (key: bv8)
      requires table.Length == 256
      modifies `x, `y, table
      ensures State() == Next(old(State())) && key == Generated(State()) as bv8
    {
      hide Sum;
      ghost var was := table[..];
      x := Sum(x, 1);
      y := Sum(table[x], y);
      table[x], table[y] := table[y], table[x];
      assert table[..] == Swapped(was, x, y);
      var xorIndex := Sum(table[x], table[y]);
      key := table[xorIndex] as bv8;
    }
  }

  lemma PermutationLength(table: seq<byte>)
    requires Permutation(table)
    ensures |table| == 256
  {}

  /** The first i bytes of m are processed into o0 at `to`, and c is where the generator stands. */
  ghost predicate Streamed(out: seq<bv8>, o0: seq<bv8>, to: nat, c0: Cipher, m: seq<bv8>, i: nat, c: Cipher) {
    && |c0.table| == 256 && i <= |m| && to + |m| <= |o0| && c == After(c0, i)
    && Placed(out, o0, to, Crypt(c0, m[..i]))
  }

  lemma StreamedStart(o0: seq<bv8>, to: nat, c0: Cipher, m: seq<bv8>)
    requires |c0.table| == 256 && to + |m| <= |o0|
    ensures Streamed(o0, o0, to, c0, m, 0, c0)
  {
    PlacedNothing(o0, to);
  }

  lemma StreamedUnread(out: seq<bv8>, o0: seq<bv8>, to: nat, c0: Cipher, m: seq<bv8>, i: nat, c: Cipher)
    requires Streamed(out, o0, to, c0, m, i, c) && i < |m|
    ensures |out| == |o0| && out[to + i] == o0[to + i]
  {
    PlacedBehind(out, o0, to, Crypt(c0, m[..i]), 1);
    assert out[to + i..to + i + 1][0] == out[to + i] && o0[to + i..to + i + 1][0] == o0[to + i];
  }

  lemma StreamedStep(out: seq<bv8>, o0: seq<bv8>, to: nat, c0: Cipher, m: seq<bv8>, i: nat, c: Cipher)
    requires Streamed(out, o0, to, c0, m, i, c) && i < |m|
    ensures |c.table| == 256 && |out| == |o0|
    ensures Streamed(out[to + i := Xor(m[i], Generated(Next(c)) as bv8)], o0, to, c0, m, i + 1, Next(c))
  {
    hide Xor, Next, Generated, Crypt, After;
    CryptNext(c0, m, i);
    var b := Xor(m[i], Generated(Next(c)) as bv8);
    PlacedOne(out, to + i, b);
    PlacedNext(out, o0, to, Crypt(c0, m[..i]), out[to + i := b], [b]);
  }

  lemma StreamedEnd(out: seq<bv8>, o0: seq<bv8>, to: nat, c0: Cipher, m: seq<bv8>, c: Cipher)
    requires Streamed(out, o0, to, c0, m, |m|, c)
    ensures c == After(c0, |m|) && Placed(out, o0, to, Crypt(c0, m))
  {
    assert m[..|m|] == m;
  }

  lemma NextIndex(n: nat, k: nat)
    requires k > 0
    ensures (n % k + 1) % k == (n + 1) % k
  {
    var q, r := n / k, n % k;
    DivMod(n, k);
    if r + 1 == k {
      Distribute(q, 1, k);
      DivModUnique(n + 1, k, q + 1, 0);
      DivModUnique(k, k, 1, 0);
    } else {
      DivModUnique(n + 1, k, q, r + 1);
      DivModUnique(r + 1, k, 0, r + 1);
    }
  }
}
