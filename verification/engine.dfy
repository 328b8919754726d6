/** The ring-buffer engine's operations (`loribu_*`, and their identical
    `ringbuff_*` counterparts). Each operation takes the ring as a value and
    returns the new state beside its C return value; queries return no state,
    so they cannot change it. A NULL pointer argument is `None`. */
module Engine {
  import opened Bytes
  import opened RingBuffer

  /** The bytes a write stores: a prefix of the source, or zeros when the
      source pointer is NULL. */
  function Payload(data: Option<seq<byte>>, n: nat): (p: seq<byte>)
    requires data.Some? ==> n <= |data.value|
    ensures |p| == n
  {
    if data.Some? then data.value[..n] else Zeros(n)
  }

  /** `loribu_write`: stores bytes at `head` until `dataSize` bytes are
      stored or the ring is full. */
  method Write(rb: Ring, data: Option<seq<byte>>, dataSize: nat) returns (r: Ring, bytes: nat)
    requires rb.Valid()
    requires data.Some? ==> dataSize <= |data.value|
    ensures r.Valid() && r.Size() == rb.Size() && r.tail == rb.tail
    ensures bytes == Min(dataSize, rb.Room())
    ensures r.head == Offset(rb.head, bytes, rb.Size())
    ensures r.Contents() == rb.Contents() + Payload(data, bytes)
    ensures bytes < dataSize ==> r.IsFull()
  {
    r := rb;
    bytes := 0;
    var remaining: nat := dataSize;
    var pos := 0;  // offset of `pdata` from `data`
    while remaining > 0 && !r.IsFull()
      invariant r.Valid() && r.Size() == rb.Size() && r.tail == rb.tail
      invariant bytes + remaining == dataSize
      invariant pos == if data.Some? then bytes else 0
      invariant r.Contents() == rb.Contents() + Payload(data, bytes)
      invariant r.head == Offset(rb.head, bytes, rb.Size())
      decreases remaining
    {
      var b: byte := if data.Some? then data.value[pos] else 0;
      PushAppends(r, b);
      r := Push(r, b);
      if data.Some? {
        pos := pos + 1;
      }
      remaining := remaining - 1;
      bytes := bytes + 1;
      assert Payload(data, bytes) == Payload(data, bytes - 1) + [b];
    }
    FullIff(r);
  }

  /** `loribu_read`: takes bytes from `tail` until `size` bytes are taken or
      the ring is empty. `out` is what lands in the destination; with a NULL
      destination the bytes are only discarded. */
  method Read(rb: Ring, dest: bool, size: nat) returns (r: Ring, bytes: nat, out: seq<byte>)
    requires rb.Valid()
    ensures r.Valid() && r.buf == rb.buf && r.head == rb.head
    ensures bytes == Min(size, |rb.Contents()|)
    ensures r.tail == Offset(rb.tail, bytes, rb.Size())
    ensures r.Contents() == rb.Contents()[bytes..]
    ensures out == if dest then rb.Contents()[..bytes] else []
  {
    r := rb;
    bytes := 0;
    out := [];
    var remaining: nat := size;
    while remaining > 0 && !r.IsEmpty()
      invariant r.Valid() && r.buf == rb.buf && r.head == rb.head
      invariant bytes + remaining == size && bytes <= |rb.Contents()|
      invariant r.tail == Offset(rb.tail, bytes, rb.Size())
      invariant r.Contents() == rb.Contents()[bytes..]
      invariant out == if dest then rb.Contents()[..bytes] else []
      decreases remaining
    {
      PopDrops(r);
      var b := r.buf[r.tail];
      r := Pop(r);
      if dest {
        out := out + [b];
      }
      remaining := remaining - 1;
      bytes := bytes + 1;
      assert rb.Contents()[..bytes] == rb.Contents()[..bytes - 1] + [b];
      assert r.Contents() == rb.Contents()[bytes..];
    }
    EmptyIff(r);
  }

  /** `loribu_count`: walks from `tail` to `head` tallying `byte`. */
  method Count(rb: Ring, b: byte) returns (count: nat)
    requires rb.Valid()
    ensures count == Occurrences(rb.Contents(), b)
    ensures count == 0 <==> b !in rb.Contents()
  {
    ghost var c := rb.Contents();
    count := 0;
    var tail, head := rb.tail, rb.head;
    ghost var k := 0;
    while tail != head
      invariant k <= |c| && tail == rb.Slot(k)
      invariant count == Occurrences(c[..k], b)
      decreases |c| - k
    {
      var data := rb.buf[tail];
      tail := Next(tail, |rb.buf|);
      if data == b {
        count := count + 1;
      }
      SlotStep(rb, k);
      OccurrencesSnoc(c[..k], data, b);
      assert c[..k + 1] == c[..k] + [data];
      k := k + 1;
    }
    SlotStep(rb, k);
    assert c[..k] == c;
    OccurrencesZero(c, b);
  }

  /** `loribu_read_until`: if `token` occurs in the contents, reads through
      its first occurrence, bounded by `bufferSize`; with a NULL destination
      the bound is the ring's size, so the whole prefix is drained. When the
      token is absent nothing is read. */
  method ReadUntil(rb: Ring, dest: bool, bufferSize: nat, token: byte)
    returns (r: Ring, bytes: nat, out: seq<byte>)
    requires rb.Valid()
    ensures r.Valid() && r.buf == rb.buf && r.head == rb.head
    ensures token !in rb.Contents() ==> bytes == 0 && r == rb && out == []
    ensures token in rb.Contents() ==>
      bytes == (if dest then Min(bufferSize, FirstIndex(rb.Contents(), token) + 1)
                else FirstIndex(rb.Contents(), token) + 1)
    ensures r.Contents() == rb.Contents()[bytes..]
    ensures out == if dest then rb.Contents()[..bytes] else []
  {
    var bound: nat := if dest then bufferSize else rb.Size();
    var occurrences := Count(rb, token);
    if occurrences > 0 {
      r, bytes, out := ReadThrough(rb, dest, bound, token, FirstIndex(rb.Contents(), token));
    } else {
      r, bytes, out := rb, 0, [];
    }
  }

  /** The reading loop of `loribu_read_until`: takes bytes from `tail`, at
      most `bound` of them, stopping right after the first `token`. */
  method ReadThrough(rb: Ring, dest: bool, bound: nat, token: byte, ghost i: nat)
    returns (r: Ring, bytes: nat, out: seq<byte>)
    requires rb.Valid() && i < |rb.Contents()| && rb.Contents()[i] == token
    requires forall j :: 0 <= j < i ==> rb.Contents()[j] != token
    ensures r.Valid() && r.buf == rb.buf && r.head == rb.head
    ensures bytes == Min(bound, i + 1)
    ensures r.Contents() == rb.Contents()[bytes..]
    ensures out == if dest then rb.Contents()[..bytes] else []
  {
    ghost var c := rb.Contents();
    r := rb;
    bytes := 0;
    out := [];
    var remaining: nat := bound;
    while remaining > 0 && !r.IsEmpty()
      invariant r.Valid() && r.buf == rb.buf && r.head == rb.head
      invariant bytes <= i
      invariant remaining + bytes == bound
      invariant r.Contents() == c[bytes..]
      invariant dest ==> out == c[..bytes]
      invariant !dest ==> out == []
      decreases remaining
    {
      PopStep(r, c, bytes);
      var data := r.buf[r.tail];
      r := Pop(r);
      remaining := remaining - 1;
      bytes := bytes + 1;
      if dest {
        out := out + [data];
      }
      if data == token {
        return;
      }
    }
    EmptyIff(r);
  }

  /** `loribu_flush`: both indices back to zero; the bytes stay in place. */
  function Flush(rb: Ring): (r: Ring)
    requires rb.Valid()
    ensures r.Valid() && r.buf == rb.buf && r.head == 0 && r.tail == 0
    ensures r.IsEmpty() && r.Contents() == []
    ensures r.IsFull() <==> r.Size() == 1
  {
    Ring(rb.buf, 0, 0)
  }

  /** Flushing an already flushed ring changes nothing. */
  lemma FlushIdempotent(rb: Ring)
    requires rb.Valid()
    ensures Flush(Flush(rb)) == Flush(rb)
  {
  }

  /** `loribu_peek`: copies up to `peekSize` leading bytes without consuming
      them. `peekSize` is a `uint8_t`. */
  method Peek(rb: Ring, peekSize: nat) returns (out: seq<byte>)
    requires rb.Valid() && peekSize < 256
    ensures out == rb.Contents()[..Min(peekSize, |rb.Contents()|)]
  {
    ghost var c := rb.Contents();
    out := [];
    var remaining: nat := peekSize;
    var tail, head := rb.tail, rb.head;
    ghost var k := 0;
    while remaining > 0 && tail != head
      invariant k == |out| && k <= |c| && tail == rb.Slot(k)
      invariant remaining + k == peekSize
      invariant out == c[..k]
      decreases remaining
    {
      SlotStep(rb, k);
      out := out + [rb.buf[tail]];
      tail := Next(tail, |rb.buf|);
      remaining := remaining - 1;
      assert c[..k + 1] == c[..k] + [c[k]];
      k := k + 1;
    }
    SlotStep(rb, k);
  }
}
