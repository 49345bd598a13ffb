/** Bytes, little-endian machine words, and overwriting a stretch of a byte sequence. */
module Bytes {

  newtype byte = x: int | 0 <= x < 256

  /** The sequence `s` with the bytes from `at` on overwritten by `data`. */
  function Patch(s: seq<byte>, at: nat, data: seq<byte>): (r: seq<byte>)
    requires at + |data| <= |s|
    ensures |r| == |s|
    ensures forall i :: 0 <= i < |s| ==> r[i] == if at <= i < at + |data| then data[i - at] else s[i]
  {
    s[..at] + data + s[at + |data|..]
  }

  /** Overwriting does not change a slice that it does not meet. */
  lemma PatchElsewhere(s: seq<byte>, at: nat, data: seq<byte>, lo: nat, hi: nat)
    requires at + |data| <= |s|
    requires lo <= hi <= |s|
    requires hi <= at || at + |data| <= lo
    ensures Patch(s, at, data)[lo..hi] == s[lo..hi]
  {
  }

  /** Reading back exactly the overwritten slice gives the data. */
  lemma PatchReadBack(s: seq<byte>, at: nat, data: seq<byte>)
    requires at + |data| <= |s|
    ensures Patch(s, at, data)[at..at + |data|] == data
  {
  }

  function Pow256(n: nat): (p: nat)
    ensures p > 0
  {
    if n == 0 then 1 else 256 * Pow256(n - 1)
  }

  /** The value of a little-endian word. */
  function FromLE(b: seq<byte>): nat
  {
    if b == [] then 0 else b[0] as nat + 256 * FromLE(b[1..])
  }

  /** The low `w` bytes of `v`, least significant first. */
  function ToLE(v: nat, w: nat): (b: seq<byte>)
    ensures |b| == w
  {
    if w == 0 then [] else [(v % 256) as byte] + ToLE(v / 256, w - 1)
  }

  lemma {:induction false} WordRoundTrip(v: nat, w: nat)
    requires v < Pow256(w)
    ensures FromLE(ToLE(v, w)) == v
  {
    if w > 0 {
      WordRoundTrip(v / 256, w - 1);
      assert ToLE(v, w)[1..] == ToLE(v / 256, w - 1);
    }
  }

  /** A word is zero exactly when every one of its bytes is. */
  lemma {:induction false} WordIsZero(b: seq<byte>)
    ensures FromLE(b) == 0 <==> forall i :: 0 <= i < |b| ==> b[i] == 0
  {
    if b != [] {
      WordIsZero(b[1..]);
      assert forall i :: 0 < i < |b| ==> b[i] == b[1..][i - 1];
    }
  }
}
