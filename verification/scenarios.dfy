/** The repository's usage scenarios, replayed against the model: each
    method chains engine operations on a concrete ring and states the
    results the scenario asserts. */
module Scenarios {
  import opened Bytes
  import opened RingBuffer
  import opened Engine
  import opened ByteSearch
  import opened Space

  /** "hello world" without its terminating NUL. */
  const HelloWorld: seq<byte> := [104, 101, 108, 108, 111, 32, 119, 111, 114, 108, 100]

  /** "hello dear world". */
  const HelloDearWorld: seq<byte> :=
    [104, 101, 108, 108, 111, 32, 100, 101, 97, 114, 32, 119, 111, 114, 108, 100]

  /** First-in first-out: bytes written into a ring come back, in order and
      unchanged, after the bytes already stored, from a read covering both;
      that read leaves the ring empty. */
  method WriteThenRead(rb: Ring, data: seq<byte>) returns (r: Ring, written: nat, read: nat, out: seq<byte>)
    requires rb.Valid() && |data| <= rb.Room()
    ensures written == |data| && read == |rb.Contents()| + |data|
    ensures out == rb.Contents() + data
    ensures r.Valid() && r.Size() == rb.Size() && r.Contents() == []
  {
    r, written := Write(rb, Some(data), |data|);
    assert data[..written] == data;
    r, read, out := Read(r, true, |rb.Contents()| + |data|);
  }

  /** A write of "hello world" with its NUL into a fresh 512-byte ring stores
      all 12 bytes, and a read of 12 returns them and empties the ring. */
  method WriteRead(init: seq<byte>) returns (rb: Ring, n: nat, m: nat, out: seq<byte>)
    requires |init| == 512
    ensures rb.Valid() && rb.Size() == 512 && rb.Contents() == []
    ensures n == 12 && m == 12 && out == HelloWorld + [0]
  {
    var data := HelloWorld + [0];
    rb := Create(init);
    rb, n := Write(rb, Some(data), 12);
    assert data[..12] == data;
    rb, m, out := Read(rb, true, n);
  }

  /** After `WriteRead`, writes of 11 and 12 bytes of "hello world" leave the
      only NUL as the 23rd byte, so `read_until` on NUL returns all 23. */
  method WriteReadUntil(init: seq<byte>) returns (n: nat, m: nat, out: seq<byte>)
    requires |init| == 512
    ensures n == 23 && m == 23
    ensures out == HelloWorld + HelloWorld + [0]
  {
    var rb, _, _, _ := WriteRead(init);
    rb, n := WriteTwice(rb);
    m, out := ReadToNul(rb);
  }

  /** `read_until` on NUL with a 128-byte destination, on a ring holding the
      twice-written text: all 23 bytes come out. */
  method ReadToNul(rb: Ring) returns (m: nat, out: seq<byte>)
    requires rb.Valid() && rb.Contents() == HelloWorld + HelloWorld + [0]
    ensures m == 23 && out == HelloWorld + HelloWorld + [0]
  {
    ghost var c := rb.Contents();
    NulFirstAt22(c);
    var r;
    r, m, out := ReadUntil(rb, true, 128, 0);
    assert m == 23;
    assert c[..23] == c;
  }

  /** The two writes of `WriteReadUntil`: 11 bytes of "hello world", then
      12 with its NUL, into an empty 512-byte ring. */
  method WriteTwice(rb: Ring) returns (r: Ring, n: nat)
    requires rb.Valid() && rb.Size() == 512 && rb.Contents() == []
    ensures r.Valid() && r.Contents() == HelloWorld + HelloWorld + [0]
    ensures n == 23
  {
    var data := HelloWorld + [0];
    var n1, n2;
    r, n1 := Write(rb, Some(data), 11);
    assert data[..11] == HelloWorld;
    r, n2 := Write(r, Some(data), 12);
    assert data[..12] == data;
    n := n1 + n2;
  }

  /** The only NUL of the twice-written text is its 23rd byte. */
  lemma NulFirstAt22(c: seq<byte>)
    requires c == HelloWorld + HelloWorld + [0]
    ensures 0 in c && FirstIndex(c, 0) == 22 && |c| == 23
  {
    assert c[22] == 0;
    assert forall j :: 0 <= j < 22 ==> c[j] != 0;
  }

  /** Flushing discards the stored bytes: a read after `flush` returns
      nothing. */
  method FlushThenRead(init: seq<byte>) returns (n: nat, m: nat)
    requires |init| == 512
    ensures n == 12 && m == 0
  {
    var data := HelloWorld + [0];
    var rb := Create(init);
    rb, n := Write(rb, Some(data), 12);
    rb := Flush(rb);
    var out;
    rb, m, out := Read(rb, true, n);
  }

  /** A fresh 17-byte ring after a write of "hello dear world": the
      write stores all 16 bytes and fills the ring. */
  method Filled(init: seq<byte>) returns (rb: Ring)
    requires |init| == 17
    ensures rb.Valid() && rb.Size() == 17 && rb.head == 16 && rb.tail == 0
    ensures rb.Contents() == HelloDearWorld
  {
    var n;
    rb := Create(init);
    rb, n := Write(rb, Some(HelloDearWorld), 16);
    assert HelloDearWorld[..16] == HelloDearWorld;
  }

  /** The full, empty, used-space and available-space queries on the filled
      ring, and the full and empty queries after a flush. */
  method InfoSpace(init: seq<byte>)
    returns (full: bool, empty: bool, used: nat, available: nat, fullAfter: bool, emptyAfter: bool)
    requires |init| == 17
    ensures full && !empty
    ensures used == 16 && available == 0
    ensures !fullAfter && emptyAfter
  {
    var rb := Filled(init);
    FullIff(rb);
    full, empty := rb.IsFull(), rb.IsEmpty();
    UsedSpaceExact(rb);
    used, available := UsedSpace(rb), AvailableSpace(rb);
    rb := Flush(rb);
    fullAfter, emptyAfter := rb.IsFull(), rb.IsEmpty();
  }

  /** `count` on the filled ring: three 'l' bytes and no 'x'. */
  method InfoCount(init: seq<byte>) returns (countL: nat, countX: nat)
    requires |init| == 17
    ensures countL == 3 && countX == 0
  {
    var rb := Filled(init);
    countL := Count(rb, 108);
    ThreeLs();
    countX := Count(rb, 120);
    NoX();
  }

  /** "hello dear world" holds three 'l' bytes. */
  lemma ThreeLs()
    ensures Occurrences(HelloDearWorld, 108) == 3
  {
    assert multiset(HelloDearWorld)[108] == 3;
  }

  /** "hello dear world" holds no 'x'. */
  lemma NoX()
    ensures 120 !in HelloDearWorld
  {
  }

  /** `peek` of 5 bytes on the filled ring yields "hello". */
  method InfoPeek(init: seq<byte>) returns (peeked: seq<byte>)
    requires |init| == 17
    ensures peeked == [104, 101, 108, 108, 111]
  {
    var rb := Filled(init);
    peeked := Peek(rb, 5);
  }

  /** `search` on the filled ring finds "dear" at offset 6 and no "sad". */
  method InfoSearch(init: seq<byte>) returns (dear: int, sad: int)
    requires |init| == 17
    ensures dear == 6 && sad == -1
  {
    var rb := Filled(init);
    dear := Search(rb, Some([100, 101, 97, 114]));
    DearAt6();
    sad := Search(rb, Some([115, 97, 100]));
    NoSad();
  }

  /** "dear" starts at offset 6 of "hello dear world". */
  lemma DearAt6()
    ensures NaiveSearch(HelloDearWorld, [100, 101, 97, 114]) == 6
  {
  }

  /** "sad" does not occur in "hello dear world": its first byte is absent,
      and any match the search reports starts with that byte. */
  lemma NoSad()
    ensures NaiveSearch(HelloDearWorld, [115, 97, 100]) == -1
  {
    SearchSound(HelloDearWorld, [115, 97, 100]);
    assert 115 !in HelloDearWorld;
  }

  /** A 17-byte ring brought to `tail == 5`, `head == 2` by ordinary writes
      and reads holds 14 bytes, yet `used_space` reports 15 and
      `available_space` 1 while a further write still stores 2 bytes. The
      corrected queries report 14 and 2. */
  method WrappedSpace(init: seq<byte>)
    returns (stored: nat, used: nat, available: nat, written: nat,
             usedCorrected: nat, availableCorrected: nat)
    requires |init| == 17
    ensures stored == 14 && used == 15 && available == 1 && written == 2
    ensures usedCorrected == 14 && availableCorrected == 2
  {
    var rb := Create(init);
    var n, out;
    rb, n := Write(rb, None, 5);
    rb, n, out := Read(rb, false, 5);
    rb, n := Write(rb, None, 14);
    assert rb.head == 2 && rb.tail == 5;
    stored := |rb.Contents()|;
    used, available := UsedSpace(rb), AvailableSpace(rb);
    usedCorrected, availableCorrected := UsedSpaceCorrected(rb), AvailableSpaceCorrected(rb);
    assert Sub32(2, 5) == 4294967293;
    rb, written := Write(rb, None, 3);
  }
}
