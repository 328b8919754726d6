/** Shared vocabulary of the ring-buffer model: bytes, optional pointers,
    and the sequence facts the engine's contracts are stated in. */
module Bytes {

  /** An unsigned 8-bit value, as stored in the ring's backing array. */
  type byte = b: int | 0 <= b < 256

  /** 2^32: the modulus of the engine's `uint32_t` arithmetic. */
  const TwoTo32: int := 0x1_0000_0000

  /** A C pointer argument that may be NULL. */
  datatype Option<+T> = None | Some(value: T)

  function Min(a: int, b: int): (m: int)
    ensures m <= a && m <= b
    ensures m == a || m == b
  {
    if a <= b then a else b
  }

  /** `n` zero bytes: what a write from a NULL source stores. */
  function Zeros(n: nat): (z: seq<byte>)
    ensures |z| == n
    ensures forall i :: 0 <= i < n ==> z[i] == 0
  {
    seq(n, _ => 0)
  }

  /** Number of occurrences of `b` in `s`, as an independent reference. */
  function Occurrences(s: seq<byte>, b: byte): nat
  {
    multiset(s)[b]
  }

  /** Index of the first occurrence of `b` in `s`. */
  function FirstIndex(s: seq<byte>, b: byte): (i: nat)
    requires b in s
    ensures i < |s| && s[i] == b
    ensures forall j :: 0 <= j < i ==> s[j] != b
  {
    if s[0] == b then 0 else 1 + FirstIndex(s[1..], b)
  }

  /** `Occurrences` is zero exactly when the byte is absent. */
  lemma OccurrencesZero(s: seq<byte>, b: byte)
    ensures Occurrences(s, b) == 0 <==> b !in s
  {
  }

  /** Counting over a prefix grows by one step at a time. */
  lemma OccurrencesSnoc(s: seq<byte>, x: byte, b: byte)
    ensures Occurrences(s + [x], b) == Occurrences(s, b) + (if x == b then 1 else 0)
  {
    assert multiset(s + [x]) == multiset(s) + multiset{x};
  }
}
