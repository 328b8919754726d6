/** The ring buffer's state and its logical contents.

    The backing array has `Size()` slots; `head` is the next write slot and
    `tail` the next read slot. Both advance by one modulo the size. The ring
    is empty when `head == tail` and full when `tail` is one slot past `head`,
    so one slot is always left unused. */
module RingBuffer {
  import opened Bytes

  /** Largest size the model admits (exclusive): `search` returns its offset
      as an `int32_t`, so offsets must stay below 2^31. */
  const MaxSize: int := 0x8000_0000

  datatype Ring = Ring(buf: seq<byte>, head: nat, tail: nat) {

    /** The `size` field of the C structure: the length of the backing array. */
    function Size(): nat
    {
      |buf|
    }

    /** Well-formed state: a non-empty array and both indices inside it. */
    predicate Valid()
    {
      1 <= |buf| < MaxSize && head < |buf| && tail < |buf|
    }

    /** `RB_IS_FULL`: the slot after `head` is `tail`. */
    predicate IsFull()
      requires Valid()
    {
      tail == Next(head, |buf|)
    }

    /** `RB_IS_EMPTY`. */
    predicate IsEmpty()
    {
      head == tail
    }

    /** Number of bytes between `tail` (inclusive) and `head` (exclusive),
        walking forward around the array. */
    function Len(): (n: nat)
      requires Valid()
      ensures n < |buf|
    {
      if tail <= head then head - tail else head + |buf| - tail
    }

    /** Physical slot of the `k`-th logical byte; `Slot(Len())` is `head`. */
    function Slot(k: nat): (i: nat)
      requires Valid() && k <= Len()
      ensures i < |buf|
      ensures k == Len() ==> i == head
    {
      if tail + k < |buf| then tail + k else tail + k - |buf|
    }

    /** Free slots left before the ring is full. */
    function Room(): (n: nat)
      requires Valid()
      ensures n + Len() == |buf| - 1
    {
      |buf| - 1 - Len()
    }

    /** The logical contents, oldest byte first. */
    function Contents(): (c: seq<byte>)
      requires Valid()
      ensures |c| == Len()
    {
      seq(Len(), k requires 0 <= k < Len() => buf[Slot(k)])
    }
  }

  /** `RB_INC`: advance an index by one slot, wrapping to zero at the end of
      the array (the C code writes `(idx + 1) % size`; see `ModularForm`). */
  function Next(i: nat, size: nat): (j: nat)
    requires i < size
    ensures j < size
    ensures j == 0 <==> i == size - 1
  {
    if i + 1 < size then i + 1 else 0
  }

  /** The wrap-free definitions above agree with the C code's modular
      arithmetic: `RB_INC` is `(idx + 1) % size`, the byte count is
      `(head - tail) mod size`, and the `k`-th logical byte sits at
      `buf[(tail + k) % size]`. */
  lemma ModularForm(rb: Ring)
    requires rb.Valid()
    ensures Next(rb.head, rb.Size()) == (rb.head + 1) % rb.Size()
    ensures Next(rb.tail, rb.Size()) == (rb.tail + 1) % rb.Size()
    ensures rb.Len() == (rb.head - rb.tail + rb.Size()) % rb.Size()
    ensures forall k :: 0 <= k < |rb.Contents()| ==>
      rb.Contents()[k] == rb.buf[(rb.tail + k) % rb.Size()]
  {
    var n := rb.Size();
    ModSmall(rb.head + 1, n);
    ModSmall(rb.tail + 1, n);
    ModSmall(rb.head - rb.tail + n, n);
    forall k | 0 <= k < |rb.Contents()|
      ensures rb.Contents()[k] == rb.buf[(rb.tail + k) % n]
    {
      ModSmall(rb.tail + k, n);
    }
  }

  /** A fresh ring over a backing array: both indices zero, as set by
      `loribu_create`. */
  function Create(buf: seq<byte>): (r: Ring)
    requires 1 <= |buf| < MaxSize
    ensures r.Valid() && r.buf == buf
    ensures r.Contents() == []
  {
    Ring(buf, 0, 0)
  }

  /** For `0 <= x < 2n`, `x % n` is `x` or `x - n`. */
  lemma ModSmall(x: int, n: int)
    requires 0 <= x < 2 * n
    ensures x % n == if x < n then x else x - n
  {
    if x < n {
      ModUnique(x, n, 0, x);
    } else {
      ModUnique(x, n, 1, x - n);
    }
  }

  /** Euclidean division has a unique remainder. */
  lemma ModUnique(x: int, n: int, q: int, r: int)
    requires 0 < n && 0 <= r < n && x == n * q + r
    ensures x % n == r
  {
    var q', r' := x / n, x % n;
    assert x == n * q' + r';
    if q' < q {
      MulMonotone(n, q' + 1, q);
    } else if q < q' {
      MulMonotone(n, q + 1, q');
    }
  }

  /** The index `k` slots past `i`, wrapping at most once: where `k`
      applications of `RB_INC` take an index (see `OffsetMod`). */
  function Offset(i: nat, k: nat, size: nat): (j: nat)
    requires i < size && k < size
    ensures j < size
  {
    if i + k < size then i + k else i + k - size
  }

  /** `Offset` is the C code's `(i + k) % size`, and one more `RB_INC` moves
      it one slot further. */
  lemma OffsetMod(i: nat, k: nat, size: nat)
    requires i < size && k < size
    ensures Offset(i, k, size) == (i + k) % size
    ensures k + 1 < size ==> Next(Offset(i, k, size), size) == Offset(i, k + 1, size)
  {
    ModSmall(i + k, size);
  }

  lemma MulMonotone(n: int, a: int, b: int)
    requires 0 < n && a <= b
    ensures n * a <= n * b
  {
  }

  /** One step of the write loop: store `b` at `head`, then `RB_INC(rb, head)`. */
  function Push(rb: Ring, b: byte): Ring
    requires rb.Valid()
  {
    Ring(rb.buf[rb.head := b], Next(rb.head, |rb.buf|), rb.tail)
  }

  /** One step of the read loops: `RB_INC(rb, tail)`. */
  function Pop(rb: Ring): Ring
    requires rb.Valid()
  {
    Ring(rb.buf, rb.head, Next(rb.tail, |rb.buf|))
  }

  /** Storing at `head` in a ring that is not full appends one byte to the
      contents and leaves `tail` alone. */
  lemma PushAppends(rb: Ring, b: byte)
    requires rb.Valid() && !rb.IsFull()
    ensures Push(rb, b).Valid()
    ensures Push(rb, b).Contents() == rb.Contents() + [b]
  {
    var r := Push(rb, b);
    assert r.Len() == rb.Len() + 1;
    var c, c' := rb.Contents(), r.Contents();
    forall k | 0 <= k < |c'|
      ensures c'[k] == (c + [b])[k]
    {
      if k < |c| {
        assert r.Slot(k) == rb.Slot(k);
        assert rb.Slot(k) != rb.head;
      } else {
        assert r.Slot(k) == rb.head;
      }
    }
  }

  /** Advancing `tail` of a non-empty ring drops the oldest byte, which is the
      byte at `tail`. */
  lemma PopDrops(rb: Ring)
    requires rb.Valid() && !rb.IsEmpty()
    ensures Pop(rb).Valid()
    ensures rb.Contents()[0] == rb.buf[rb.tail]
    ensures Pop(rb).Contents() == rb.Contents()[1..]
  {
    var r := Pop(rb);
    assert r.Len() == rb.Len() - 1;
    assert rb.Slot(0) == rb.tail;
    forall k | 0 <= k < r.Len()
      ensures r.Contents()[k] == rb.Contents()[k + 1]
    {
      assert r.Slot(k) == rb.Slot(k + 1);
    }
  }

  /** `PopDrops` stated against a fixed snapshot `c` of which `bytes` leading
      bytes have already been consumed. */
  lemma PopStep(rb: Ring, c: seq<byte>, bytes: nat)
    requires rb.Valid() && !rb.IsEmpty() && bytes <= |c| && rb.Contents() == c[bytes..]
    ensures bytes < |c| && rb.buf[rb.tail] == c[bytes]
    ensures Pop(rb).Valid() && Pop(rb).Contents() == c[bytes + 1..]
    ensures c[..bytes + 1] == c[..bytes] + [c[bytes]]
  {
    PopDrops(rb);
  }

  /** Walking forward from the `k`-th logical byte reaches the next one, and
      only the slot past the last byte is `head`. */
  lemma SlotStep(rb: Ring, k: nat)
    requires rb.Valid() && k <= rb.Len()
    ensures rb.Slot(k) == rb.head <==> k == rb.Len()
    ensures k < rb.Len() ==> Next(rb.Slot(k), rb.Size()) == rb.Slot(k + 1)
    ensures k < rb.Len() ==> rb.Contents()[k] == rb.buf[rb.Slot(k)]
  {
  }

  /** The full test of `RB_IS_FULL` holds exactly when no room is left. */
  lemma FullIff(rb: Ring)
    requires rb.Valid()
    ensures rb.IsFull() <==> |rb.Contents()| == rb.Size() - 1
  {
  }

  /** The empty test of `RB_IS_EMPTY` holds exactly when nothing is stored. */
  lemma EmptyIff(rb: Ring)
    requires rb.Valid()
    ensures rb.IsEmpty() <==> |rb.Contents()| == 0
  {
  }
}
