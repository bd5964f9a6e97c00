/** Byte strings as the C code sees them: memcpy into a buffer, the little-endian
    32-bit words that hold every on-disk integer, and NUL-terminated names. */
module Bytes {

  type byte = x: int | 0 <= x < 256

  type int32 = x: int | -0x8000_0000 <= x < 0x8000_0000

  /** `memcpy(b + at, s, |s|)`. */
  function Splice(b: seq<byte>, at: nat, s: seq<byte>): (r: seq<byte>)
    requires at + |s| <= |b|
    ensures |r| == |b|
    ensures forall k :: 0 <= k < |b| ==> r[k] == if at <= k < at + |s| then s[k - at] else b[k]
  {
    b[..at] + s + b[at + |s|..]
  }

  /** `*(int *)(b + at)` for a two's complement, little-endian int. */
  function WordAt(b: seq<byte>, at: nat): int32
    requires at + 4 <= |b|
  {
    var u: int := b[at] as int + 0x100 * b[at + 1] as int + 0x1_0000 * b[at + 2] as int + 0x100_0000 * b[at + 3] as int;
    if u < 0x8000_0000 then u else u - 0x1_0000_0000
  }

  /** The four bytes of an int in memory. */
  function WordBytes(w: int32): (r: seq<byte>)
    ensures |r| == 4
  {
    var u: int := if w < 0 then w + 0x1_0000_0000 else w;
    [u % 0x100, u / 0x100 % 0x100, u / 0x1_0000 % 0x100, u / 0x100_0000]
  }

  lemma WordRoundTrip(w: int32)
    ensures WordAt(WordBytes(w), 0) == w
  {
    var u: int := if w < 0 then w + 0x1_0000_0000 else w;
    var q1, q2 := u / 0x100, u / 0x1_0000;
    assert q2 == q1 / 0x100;
    assert u / 0x100_0000 == q2 / 0x100;
  }

  /** A word depends on its four bytes only. */
  lemma WordOfSlice(b: seq<byte>, lo: nat, hi: nat, at: nat)
    requires lo <= hi <= |b| && at + 4 <= hi - lo
    ensures WordAt(b[lo..hi], at) == WordAt(b, lo + at)
  {
    assert forall k :: 0 <= k < hi - lo ==> b[lo..hi][k] == b[lo + k];
  }

  /** Writing a word and reading any word that is the same or disjoint. */
  lemma WordAfterSplice(b: seq<byte>, at: nat, w: int32, at': nat)
    requires at + 4 <= |b| && at' + 4 <= |b|
    requires at' == at || at' + 4 <= at || at + 4 <= at'
    ensures WordAt(Splice(b, at, WordBytes(w)), at') == if at' == at then w else WordAt(b, at')
  {
    WordRoundTrip(w);
  }

  /** The index of the first NUL at or after i, or |q|. */
  function NulAt(q: seq<byte>, i: nat): (r: nat)
    requires i <= |q|
    ensures i <= r <= |q|
    decreases |q| - i
  {
    if i == |q| || q[i] == 0 then i else NulAt(q, i + 1)
  }

  /** The C string that starts at the first byte of `q`: everything before the first NUL. */
  function CString(q: seq<byte>): seq<byte> {
    q[..NulAt(q, 0)]
  }

  lemma {:induction false} NulAtIs(q: seq<byte>, i: nat, n: nat)
    requires i <= n < |q| && q[n] == 0 && forall k :: i <= k < n ==> q[k] != 0
    ensures NulAt(q, i) == n
    decreases n - i
  {
    if i < n {
      NulAtIs(q, i + 1, n);
    }
  }

  lemma CStringOfTerminated(name: seq<byte>, rest: seq<byte>)
    requires 0 !in name
    ensures CString(name + [0] + rest) == name
  {
    var q := name + [0] + rest;
    assert forall k :: 0 <= k < |name| ==> q[k] == name[k] && name[k] in name;
    NulAtIs(q, 0, |name|);
  }

  function Zeros(n: nat): (r: seq<byte>)
    ensures |r| == n && forall k :: 0 <= k < n ==> r[k] == 0
  {
    seq(n, _ => 0)
  }
}
