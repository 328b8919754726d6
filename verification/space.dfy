/** `loribu_used_space` and `loribu_available_space`.

    Both compute `(head - tail) % size` in `uint32_t`. When the indices have
    wrapped (`head < tail`) the subtraction first wraps modulo 2^32, so the
    result is the true byte count only when `size` divides 2^32. The
    functions below model the code as written; `UsedSpaceCorrected` and
    `AvailableSpaceCorrected` add `size` before subtracting, which is exact. */
module Space {
  import opened Bytes
  import opened RingBuffer

  /** `uint32_t` subtraction: the difference wrapped modulo 2^32. */
  function Sub32(a: nat, b: nat): (d: nat)
    requires a < TwoTo32 && b < TwoTo32
    ensures d < TwoTo32
    ensures b <= a ==> d == a - b
    ensures a < b ==> d == a - b + TwoTo32
  {
    ModUnique(a - b, TwoTo32, if b <= a then 0 else -1, if b <= a then a - b else a - b + TwoTo32);
    (a - b) % TwoTo32
  }

  /** `uint32_t` addition: the sum wrapped modulo 2^32. */
  function Add32(a: nat, b: nat): (s: nat)
    requires a < TwoTo32 && b < TwoTo32
    ensures s < TwoTo32
    ensures a + b < TwoTo32 ==> s == a + b
  {
    ModSmall(a + b, TwoTo32);
    (a + b) % TwoTo32
  }

  /** `loribu_used_space`, as written. */
  function UsedSpace(rb: Ring): (n: nat)
    requires rb.Valid()
    ensures n < rb.Size()
  {
    Sub32(rb.head, rb.tail) % rb.Size()
  }

  /** `loribu_available_space`, as written: `size - used - 1` in `uint32_t`.
      The subtractions never wrap, so used and available space always add up
      to the usable capacity, whatever `UsedSpace` returns. */
  function AvailableSpace(rb: Ring): (n: nat)
    requires rb.Valid()
    ensures n + UsedSpace(rb) == rb.Size() - 1
  {
    Sub32(Sub32(rb.Size(), UsedSpace(rb)), 1)
  }

  /** The as-written byte count is exact exactly when the indices have not
      wrapped or the size divides 2^32. */
  lemma UsedSpaceExact(rb: Ring)
    requires rb.Valid()
    ensures UsedSpace(rb) == |rb.Contents()| <==> rb.tail <= rb.head || TwoTo32 % rb.Size() == 0
  {
    var n := rb.Size();
    var len := |rb.Contents()|;
    if rb.tail <= rb.head {
      ModUnique(rb.head - rb.tail, n, 0, rb.head - rb.tail);
    } else {
      var x := rb.head - rb.tail + TwoTo32;
      assert len == rb.head - rb.tail + n && 0 < len < n;
      if TwoTo32 % n == 0 {
        var m := TwoTo32 / n;
        assert TwoTo32 == n * m;
        assert x == n * (m - 1) + len;
        ModUnique(x, n, m - 1, len);
      }
      if x % n == len {
        var m := x / n;
        assert x == n * m + len;
        assert TwoTo32 == n * (m + 1);
        ModUnique(TwoTo32, n, m + 1, 0);
      }
    }
  }

  /** Corrected `loribu_used_space`: `(head + size - tail) % size`, which
      stays exact after wrap-around for every size. */
  function UsedSpaceCorrected(rb: Ring): (n: nat)
    requires rb.Valid()
    ensures n == |rb.Contents()|
  {
    var d := Sub32(Add32(rb.head, rb.Size()), rb.tail);
    ModSmall(d, rb.Size());
    d % rb.Size()
  }

  /** Corrected `loribu_available_space`: the number of bytes a write can
      still store. */
  function AvailableSpaceCorrected(rb: Ring): (n: nat)
    requires rb.Valid()
    ensures n == rb.Room()
    ensures n + UsedSpaceCorrected(rb) == rb.Size() - 1
    ensures n == 0 <==> rb.IsFull()
  {
    Sub32(Sub32(rb.Size(), UsedSpaceCorrected(rb)), 1)
  }

  /** The as-written and corrected byte counts agree exactly when the
      indices have not wrapped or the size divides 2^32. */
  lemma UsedSpaceAgrees(rb: Ring)
    requires rb.Valid()
    ensures UsedSpace(rb) == UsedSpaceCorrected(rb) <==> rb.tail <= rb.head || TwoTo32 % rb.Size() == 0
    ensures AvailableSpace(rb) == AvailableSpaceCorrected(rb) <==> rb.tail <= rb.head || TwoTo32 % rb.Size() == 0
  {
    UsedSpaceExact(rb);
  }

  /** A 17-byte ring with `tail == 5` and `head == 2` holds 14 bytes and has
      room for 2 more, but the as-written queries report 15 used and 1
      available. */
  lemma UsedSpaceWrapCounterexample()
    ensures Ring(Zeros(17), 2, 5).Valid()
    ensures |Ring(Zeros(17), 2, 5).Contents()| == 14 && Ring(Zeros(17), 2, 5).Room() == 2
    ensures UsedSpace(Ring(Zeros(17), 2, 5)) == 15
    ensures AvailableSpace(Ring(Zeros(17), 2, 5)) == 1
  {
    var rb := Ring(Zeros(17), 2, 5);
    assert Sub32(2, 5) == 4294967293;
  }
}
