/** Buffers with a part of them overwritten. */
module Splices {
  /** c is c0 with `part` written at position `at`. */
  ghost predicate Placed<T>(c: seq<T>, c0: seq<T>, at: nat, part: seq<T>) {
    at + |part| <= |c0| && c == c0[..at] + part + c0[at + |part|..]
  }

  lemma PlacedNothing<T>(c0: seq<T>, at: nat)
    requires at <= |c0|
    ensures Placed(c0, c0, at, [])
  {}

  lemma PlacedLength<T>(c: seq<T>, c0: seq<T>, at: nat, part: seq<T>)
    requires Placed(c, c0, at, part)
    ensures |c| == |c0| && at + |part| <= |c0|
  {}

  /** Two parts written one behind the other. */
  lemma PlacedNext<T>(c: seq<T>, c0: seq<T>, at: nat, a: seq<T>, c': seq<T>, b: seq<T>)
    requires Placed(c, c0, at, a) && Placed(c', c, at + |a|, b)
    ensures Placed(c', c0, at, a + b)
  {
    var i := at + |a|;
    assert c[..i] == c0[..at] + a && c[i..] == c0[i..];
    assert c[i + |b|..] == c[i..][|b|..] && c0[i + |b|..] == c0[i..][|b|..];
    assert c0[..at] + a + b == c0[..at] + (a + b);
  }

  /** The end of a part written over by another of the same length. */
  lemma PlacedOver<T>(c: seq<T>, c0: seq<T>, at: nat, a: seq<T>, b: seq<T>, c': seq<T>, b': seq<T>)
    requires Placed(c, c0, at, a + b) && |b'| == |b| && Placed(c', c, at + |a|, b')
    ensures Placed(c', c0, at, a + b')
  {
    var i := at + |a|;
    assert c[..i] == c0[..at] + a;
    assert c[i + |b|..] == c0[i + |b|..];
    assert c' == c0[..at] + a + b' + c0[i + |b|..];
    assert c0[..at] + a + b' == c0[..at] + (a + b');
  }

  lemma PlacedSlice<T>(c: seq<T>, c0: seq<T>, at: nat, a: seq<T>, b: seq<T>)
    requires Placed(c, c0, at, a + b)
    ensures |c| == |c0| && c[at + |a|..at + |a| + |b|] == b
  {}

  /** What was written is there, and nothing else has changed. */
  lemma PlacedWhole<T>(c: seq<T>, c0: seq<T>, at: nat, part: seq<T>)
    requires Placed(c, c0, at, part)
    ensures |c| == |c0| && c[at..at + |part|] == part
    ensures forall k | 0 <= k < |c| && !(at <= k < at + |part|) :: c[k] == c0[k]
  {}

  /** What lies behind the part written. */
  lemma PlacedBehind<T>(c: seq<T>, c0: seq<T>, at: nat, part: seq<T>, n: nat)
    requires Placed(c, c0, at, part) && at + |part| + n <= |c0|
    ensures |c| == |c0| && c[at + |part|..at + |part| + n] == c0[at + |part|..at + |part| + n]
  {
    var i := at + |part|;
    assert c[i..] == c0[i..];
    assert c[i..][..n] == c[i..i + n] && c0[i..][..n] == c0[i..i + n];
  }

  /** What lies before it, from any earlier position. */
  lemma PlacedBefore<T>(c: seq<T>, c0: seq<T>, at: nat, part: seq<T>, from: nat)
    requires Placed(c, c0, at, part) && from <= at
    ensures |c| == |c0| && at <= |c| && c[from..at] == c0[from..at] && c[..from] == c0[..from]
  {
    assert c[..at] == c0[..at];
    assert c[..at][from..] == c[from..at] && c0[..at][from..] == c0[from..at];
    assert c[..at][..from] == c[..from] && c0[..at][..from] == c0[..from];
  }

  /** One element is a part of length one. */
  lemma PlacedOne<T>(c: seq<T>, at: nat, x: T)
    requires at < |c|
    ensures Placed(c[at := x], c, at, [x])
  {}

  lemma SliceOfSlice<T>(s: seq<T>, a: nat, len: nat, i: nat, n: nat)
    requires a + len <= |s| && i + n <= len
    ensures s[a..a + len][i..i + n] == s[a + i..a + i + n]
  {
    var t := s[a..a + len];
    var u, v := t[i..i + n], s[a + i..a + i + n];
    assert forall k | 0 <= k < n :: u[k] == v[k] by {
      forall k | 0 <= k < n
        ensures u[k] == v[k]
      {
        assert u[k] == t[i + k];
      }
    }
  }
}
