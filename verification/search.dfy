/** `loribu_search`: the naive byte-sequence search over the ring contents.

    The C loop scans for the pattern's first byte, then compares the
    following bytes. On a mismatch it resumes scanning AFTER the mismatched
    byte (`count += a`), not one byte after the candidate start, so it can
    miss matches that overlap a failed candidate. `ScanFrom`/`MatchFrom`
    state that behaviour on the linear contents; `RestartScan`/`RestartMatch`
    are the corrected search that resumes one byte after the candidate. */
module ByteSearch {
  import opened Bytes
  import opened RingBuffer

  /** `p` occurs in `c` starting at offset `k`. */
  predicate Occurs(c: seq<byte>, p: seq<byte>, k: nat)
  {
    k + |p| <= |c| && c[k..k + |p|] == p
  }

  /** The outer scan of `loribu_search`, as written, from logical offset
      `pos`: look for `p[0]`; give up at the end of the contents. */
  function ScanFrom(c: seq<byte>, p: seq<byte>, pos: nat): (r: int)
    requires 1 <= |p| && pos <= |c|
    ensures r == -1 || pos <= r < |c|
    decreases |c| - pos
  {
    if pos == |c| then -1
    else if c[pos] != p[0] then ScanFrom(c, p, pos + 1)
    else MatchFrom(c, p, pos, 1)
  }

  /** The comparison loop of `loribu_search`, as written: `p[..j]` already
      matches at candidate `q`; on a mismatch at `q + j` the scan resumes at
      `q + j + 1`. */
  function MatchFrom(c: seq<byte>, p: seq<byte>, q: nat, j: nat): (r: int)
    requires 1 <= j <= |p| && q + j <= |c|
    ensures r == -1 || q <= r < |c|
    decreases |c| - q - j
  {
    if j == |p| then q
    else if q + j == |c| then -1
    else if c[q + j] != p[j] then ScanFrom(c, p, q + j + 1)
    else MatchFrom(c, p, q, j + 1)
  }

  /** The offset `loribu_search` returns for pattern `p` over contents `c`. */
  function NaiveSearch(c: seq<byte>, p: seq<byte>): int
    requires 1 <= |p|
  {
    ScanFrom(c, p, 0)
  }

  /** `loribu_search` on the ring itself: the nested loops of the C code,
      walking physical indices from `tail` to `head`. A NULL pattern gives
      -1; otherwise the result is the as-written search over the contents. */
  method Search(rb: Ring, pattern: Option<seq<byte>>) returns (r: int)
    requires rb.Valid()
    requires pattern.Some? ==> 1 <= |pattern.value|
    ensures pattern.None? ==> r == -1
    ensures pattern.Some? ==> r == NaiveSearch(rb.Contents(), pattern.value)
  {
    if pattern.None? {
      return -1;
    }
    var p := pattern.value;
    ghost var c := rb.Contents();
    ghost var R := ScanFrom(c, p, 0);
    var tail, head := rb.tail, rb.head;
    var count: nat := 0;
    while tail != head
      invariant count <= |c|
      invariant (tail == rb.Slot(count) && ScanFrom(c, p, count) == R) || (tail == head && R == -1)
      decreases |c| - count
    {
      SlotStep(rb, count);
      ghost var start := count;
      var data;
      data, tail, count := SkipTo(rb, p[0], tail, count);
      ScanSkip(c, p, start, count - 1);
      if data == p[0] && |p| == 1 {
        return count - 1;
      }
      SlotStep(rb, count);
      // with a one-byte pattern the scan above stops early only on a match,
      // so the comparison loop runs only for longer patterns
      if tail != head {
        var matched;
        matched, tail, count := MatchRest(rb, p, count - 1, tail);
        if matched {
          return count - 1;
        }
      }
    }
    SlotStep(rb, count);
    return -1;
  }

  /** The do-while loop of `loribu_search` that looks for the pattern's first
      byte: starting at the `count`-th logical byte (physical index `tail`),
      it reads at least one byte and stops after reading `first` or on
      reaching `head`. */
  method SkipTo(rb: Ring, first: byte, tail: nat, count: nat)
    returns (data: byte, tail': nat, count': nat)
    requires rb.Valid() && count < |rb.Contents()| && tail == rb.Slot(count)
    ensures count < count' <= |rb.Contents()| && tail' == rb.Slot(count')
    ensures data == rb.Contents()[count' - 1]
    ensures data == first || count' == |rb.Contents()|
    ensures forall k :: count <= k < count' - 1 ==> rb.Contents()[k] != first
  {
    ghost var c := rb.Contents();
    SlotStep(rb, count);
    data := rb.buf[tail];
    tail' := Next(tail, |rb.buf|);
    count' := count + 1;
    while data != first && tail' != rb.head
      invariant count < count' <= |c| && tail' == rb.Slot(count')
      invariant data == c[count' - 1]
      invariant forall k :: count <= k < count' - 1 ==> c[k] != first
      decreases |c| - count'
    {
      SlotStep(rb, count');
      data := rb.buf[tail'];
      tail' := Next(tail', |rb.buf|);
      count' := count' + 1;
    }
    SlotStep(rb, count');
  }

  /** The comparison loop of `loribu_search`: the candidate at logical offset
      `q` matched the pattern's first byte, and `tail` is the physical index
      of the byte after it. Compares following bytes with `p[1..]`; on a
      mismatch the scan position moves past the mismatched byte. */
  method MatchRest(rb: Ring, p: seq<byte>, q: nat, tail: nat)
    returns (matched: bool, tail': nat, count': nat)
    requires rb.Valid() && 2 <= |p| && q < |rb.Contents()| && tail == rb.Slot(q + 1)
    ensures matched ==> count' == q + 1 && MatchFrom(rb.Contents(), p, q, 1) == q
    ensures !matched ==> q < count' <= |rb.Contents()|
    ensures !matched ==>
      (tail' == rb.Slot(count') && ScanFrom(rb.Contents(), p, count') == MatchFrom(rb.Contents(), p, q, 1)) ||
      (tail' == rb.head && MatchFrom(rb.Contents(), p, q, 1) == -1)
  {
    ghost var c := rb.Contents();
    ghost var M := MatchFrom(c, p, q, 1);
    count' := q + 1;
    tail' := tail;
    var i: nat := |p| - 1;
    var a: nat := 1;
    while tail' != rb.head
      invariant 1 <= a < |p| && i + a == |p| && q + a <= |c| && tail' == rb.Slot(q + a)
      invariant count' == q + 1
      invariant MatchFrom(c, p, q, a) == M
      decreases |c| - a
    {
      SlotStep(rb, q + a);
      var data := rb.buf[tail'];
      tail' := Next(tail', |rb.buf|);
      if data != p[a] {
        count' := count' + a;
        return false, tail', count';
      }
      a := a + 1;
      i := i - 1;
      if i == 0 {
        return true, tail', count';
      }
    }
    SlotStep(rb, q + a);
    matched := false;
  }

  /** Skipping bytes that differ from the pattern's first byte does not change
      the outcome of the scan. */
  lemma {:induction false} ScanSkip(c: seq<byte>, p: seq<byte>, pos: nat, pos': nat)
    requires 1 <= |p| && pos <= pos' <= |c|
    requires forall k :: pos <= k < pos' ==> c[k] != p[0]
    ensures ScanFrom(c, p, pos) == ScanFrom(c, p, pos')
    decreases pos' - pos
  {
    if pos < pos' {
      ScanSkip(c, p, pos + 1, pos');
    }
  }

  /** Soundness of the as-written search: a non-negative result from the
      scan at `pos` is a true match at or after `pos`. */
  lemma {:induction false} ScanSound(c: seq<byte>, p: seq<byte>, pos: nat)
    requires 1 <= |p| && pos <= |c|
    ensures ScanFrom(c, p, pos) >= 0 ==>
      pos <= ScanFrom(c, p, pos) && Occurs(c, p, ScanFrom(c, p, pos))
    decreases |c| - pos
  {
    if pos == |c| {
    } else if c[pos] != p[0] {
      ScanSound(c, p, pos + 1);
    } else {
      MatchSound(c, p, pos, 1);
    }
  }

  lemma {:induction false} MatchSound(c: seq<byte>, p: seq<byte>, q: nat, j: nat)
    requires 1 <= j <= |p| && q + j <= |c| && c[q..q + j] == p[..j]
    ensures MatchFrom(c, p, q, j) >= 0 ==>
      q <= MatchFrom(c, p, q, j) && Occurs(c, p, MatchFrom(c, p, q, j))
    decreases |c| - q - j
  {
    if j == |p| {
      assert p[..j] == p;
    } else if q + j == |c| {
    } else if c[q + j] != p[j] {
      ScanSound(c, p, q + j + 1);
    } else {
      ExtendMatch(c, p, q, j);
      MatchSound(c, p, q, j + 1);
    }
  }

  /** Whatever offset `loribu_search` reports holds the pattern. */
  lemma SearchSound(c: seq<byte>, p: seq<byte>)
    requires 1 <= |p|
    ensures NaiveSearch(c, p) >= 0 ==> Occurs(c, p, NaiveSearch(c, p))
    ensures NaiveSearch(c, p) < |c|
  {
    ScanSound(c, p, 0);
  }

  /** For a one-byte pattern the scan from `pos` finds the first occurrence
      of that byte at or after `pos`, and -1 exactly when there is none. */
  lemma {:induction false} SingleByteScan(c: seq<byte>, b: byte, pos: nat)
    requires pos <= |c|
    ensures ScanFrom(c, [b], pos) == -1 <==> b !in c[pos..]
    ensures ScanFrom(c, [b], pos) >= 0 ==>
      pos <= ScanFrom(c, [b], pos) < |c| && c[ScanFrom(c, [b], pos)] == b &&
      forall k :: pos <= k < ScanFrom(c, [b], pos) ==> c[k] != b
    decreases |c| - pos
  {
    if pos < |c| {
      assert c[pos..] == [c[pos]] + c[pos + 1..];
      if c[pos] != b {
        SingleByteScan(c, b, pos + 1);
      }
    }
  }

  /** For a one-byte pattern `loribu_search` returns the first occurrence of
      the byte, and -1 exactly when `loribu_count` of that byte is zero. */
  lemma SingleByteSearch(c: seq<byte>, b: byte)
    ensures NaiveSearch(c, [b]) == -1 <==> Occurrences(c, b) == 0
    ensures Occurrences(c, b) > 0 ==> NaiveSearch(c, [b]) == FirstIndex(c, b)
  {
    SingleByteScan(c, b, 0);
    assert c[0..] == c;
    OccurrencesZero(c, b);
    if b in c {
      var r := NaiveSearch(c, [b]);
      var f := FirstIndex(c, b);
      assert r >= 0 && c[r] == b;
    }
  }

  /** The as-written search misses a match that overlaps a failed candidate:
      searching "ab" in "aab" reports -1 although "ab" starts at offset 1. */
  lemma OverlapMissed()
    ensures Occurs([97, 97, 98], [97, 98], 1)
    ensures NaiveSearch([97, 97, 98], [97, 98]) == -1
  {
    var c: seq<byte> := [97, 97, 98];
    var p: seq<byte> := [97, 98];
    assert c[1..3] == p;
    calc {
      NaiveSearch(c, p);
      MatchFrom(c, p, 0, 1);
      ScanFrom(c, p, 2);
      ScanFrom(c, p, 3);
      -1;
    }
  }

  /** The as-written search can also skip an earlier occurrence and report a
      later one: searching "aab" in "aaabaab" reports 4 although "aab" first
      starts at offset 1, where the corrected search finds it. */
  lemma LaterMatchReported()
    ensures Occurs([97, 97, 97, 98, 97, 97, 98], [97, 97, 98], 1)
    ensures NaiveSearch([97, 97, 97, 98, 97, 97, 98], [97, 97, 98]) == 4
    ensures FirstMatch([97, 97, 97, 98, 97, 97, 98], [97, 97, 98]) == 1
  {
    var c: seq<byte> := [97, 97, 97, 98, 97, 97, 98];
    var p: seq<byte> := [97, 97, 98];
    assert c[1..4] == p;
    calc {
      NaiveSearch(c, p);
      MatchFrom(c, p, 0, 2);
      ScanFrom(c, p, 3);
      MatchFrom(c, p, 4, 1);
      MatchFrom(c, p, 4, 3);
      4;
    }
    calc {
      FirstMatch(c, p);
      RestartMatch(c, p, 0, 2);
      RestartScan(c, p, 1);
      RestartMatch(c, p, 1, 3);
      1;
    }
  }

  /** The corrected outer scan: identical, except that a failed candidate
      resumes the scan one byte after the candidate start. */
  function RestartScan(c: seq<byte>, p: seq<byte>, pos: nat): (r: int)
    requires 1 <= |p| && pos <= |c|
    ensures r == -1 || pos <= r < |c|
    decreases |c| - pos, 1, 0
  {
    if pos == |c| then -1
    else if c[pos] != p[0] then RestartScan(c, p, pos + 1)
    else RestartMatch(c, p, pos, 1)
  }

  function RestartMatch(c: seq<byte>, p: seq<byte>, q: nat, j: nat): (r: int)
    requires 1 <= j <= |p| && q + j <= |c|
    ensures r == -1 || q <= r < |c|
    decreases |c| - q, 0, |c| - q - j
  {
    if j == |p| then q
    else if q + j == |c| then -1
    else if c[q + j] != p[j] then RestartScan(c, p, q + 1)
    else RestartMatch(c, p, q, j + 1)
  }

  /** The search the header documents: the offset of the first occurrence. */
  function FirstMatch(c: seq<byte>, p: seq<byte>): int
    requires 1 <= |p|
  {
    RestartScan(c, p, 0)
  }

  /** `r` is the first occurrence of `p` in `c` at or after `pos`, or -1 when
      there is none. */
  ghost predicate FirstFrom(c: seq<byte>, p: seq<byte>, pos: nat, r: int)
  {
    if r == -1 then forall k :: pos <= k ==> !Occurs(c, p, k)
    else pos <= r && Occurs(c, p, r) && forall k :: pos <= k < r ==> !Occurs(c, p, k)
  }

  /** A candidate ruled out at `pos` does not change the first occurrence. */
  lemma FirstFromSkip(c: seq<byte>, p: seq<byte>, pos: nat, r: int)
    requires FirstFrom(c, p, pos + 1, r) && !Occurs(c, p, pos)
    ensures FirstFrom(c, p, pos, r)
  {
  }

  /** The corrected scan from `pos` returns the first occurrence at or after
      `pos`, and -1 exactly when there is none. */
  lemma {:induction false} RestartScanFirst(c: seq<byte>, p: seq<byte>, pos: nat)
    requires 1 <= |p| && pos <= |c|
    ensures FirstFrom(c, p, pos, RestartScan(c, p, pos))
    decreases |c| - pos, 1, 0
  {
    if pos == |c| {
    } else if c[pos] != p[0] {
      MismatchExcludes(c, p, pos, 0);
      RestartScanFirst(c, p, pos + 1);
      FirstFromSkip(c, p, pos, RestartScan(c, p, pos + 1));
    } else {
      RestartMatchFirst(c, p, pos, 1);
    }
  }

  lemma {:induction false} RestartMatchFirst(c: seq<byte>, p: seq<byte>, q: nat, j: nat)
    requires 1 <= j <= |p| && q + j <= |c| && c[q..q + j] == p[..j]
    ensures FirstFrom(c, p, q, RestartMatch(c, p, q, j))
    decreases |c| - q, 0, |c| - q - j
  {
    if j == |p| {
      assert p[..j] == p;
    } else if q + j == |c| {
    } else if c[q + j] != p[j] {
      MismatchExcludes(c, p, q, j);
      RestartScanFirst(c, p, q + 1);
      FirstFromSkip(c, p, q, RestartScan(c, p, q + 1));
    } else {
      ExtendMatch(c, p, q, j);
      RestartMatchFirst(c, p, q, j + 1);
    }
  }

  /** One more matching byte extends a matched prefix. */
  lemma ExtendMatch(c: seq<byte>, p: seq<byte>, q: nat, j: nat)
    requires j < |p| && q + j < |c| && c[q..q + j] == p[..j] && c[q + j] == p[j]
    ensures c[q..q + j + 1] == p[..j + 1]
  {
    assert c[q..q + j + 1] == c[q..q + j] + [c[q + j]];
    assert p[..j + 1] == p[..j] + [p[j]];
  }

  /** One mismatching byte rules out a match at that candidate. */
  lemma MismatchExcludes(c: seq<byte>, p: seq<byte>, q: nat, j: nat)
    requires j < |p| && q + j < |c| && c[q + j] != p[j]
    ensures !Occurs(c, p, q)
  {
    if q + |p| <= |c| {
      assert c[q..q + |p|][j] == c[q + j];
    }
  }

  /** The corrected search returns the first occurrence, and -1 exactly when
      the pattern does not occur. */
  lemma FirstMatchCorrect(c: seq<byte>, p: seq<byte>)
    requires 1 <= |p|
    ensures FirstMatch(c, p) == -1 <==> forall k :: !Occurs(c, p, k)
    ensures FirstMatch(c, p) >= 0 ==>
      Occurs(c, p, FirstMatch(c, p)) && forall k :: 0 <= k < FirstMatch(c, p) ==> !Occurs(c, p, k)
  {
    RestartScanFirst(c, p, 0);
    var r := FirstMatch(c, p);
    if r >= 0 {
      assert Occurs(c, p, r as nat);
    }
  }

  /** The as-written search never reports an offset before the first
      occurrence, and agrees with the corrected one on one-byte patterns. */
  lemma AsWrittenVersusFirst(c: seq<byte>, p: seq<byte>)
    requires 1 <= |p|
    ensures NaiveSearch(c, p) >= 0 ==> 0 <= FirstMatch(c, p) <= NaiveSearch(c, p)
    ensures |p| == 1 ==> NaiveSearch(c, p) == FirstMatch(c, p)
  {
    SearchSound(c, p);
    FirstMatchCorrect(c, p);
    var r, f := NaiveSearch(c, p), FirstMatch(c, p);
    if r >= 0 {
      assert Occurs(c, p, r as nat);
      assert f >= 0;
    }
    if |p| == 1 {
      assert p == [p[0]];
      SingleByteSearch(c, p[0]);
    }
  }

  /** Corrected `loribu_search` over the ring: tries every start offset in
      turn, comparing the pattern byte by byte from the slot of that offset,
      and returns the first offset where the whole pattern matches. */
  method SearchCorrected(rb: Ring, pattern: Option<seq<byte>>) returns (r: int)
    requires rb.Valid()
    requires pattern.Some? ==> 1 <= |pattern.value|
    ensures pattern.None? ==> r == -1
    ensures pattern.Some? ==> r == FirstMatch(rb.Contents(), pattern.value)
  {
    if pattern.None? {
      return -1;
    }
    var p := pattern.value;
    ghost var c := rb.Contents();
    var len := rb.Len();
    var k: nat := 0;
    while k + |p| <= len
      invariant forall k' :: 0 <= k' < k ==> !Occurs(c, p, k')
      decreases len - k
    {
      var matched := MatchesAt(rb, p, k);
      if matched {
        FirstUnique(c, p, k);
        return k;
      }
      k := k + 1;
    }
    FirstMatchCorrect(c, p);
    assert forall k' :: !Occurs(c, p, k');
    return -1;
  }

  /** Whether the pattern matches the contents at logical offset `k`, read
      slot by slot from the ring. */
  method MatchesAt(rb: Ring, p: seq<byte>, k: nat) returns (matched: bool)
    requires rb.Valid() && k + |p| <= rb.Len()
    ensures matched <==> Occurs(rb.Contents(), p, k)
  {
    ghost var c := rb.Contents();
    var j: nat := 0;
    while j < |p| && rb.buf[rb.Slot(k + j)] == p[j]
      invariant j <= |p| && c[k..k + j] == p[..j]
      decreases |p| - j
    {
      assert c[k + j] == rb.buf[rb.Slot(k + j)];
      ExtendMatch(c, p, k, j);
      j := j + 1;
    }
    if j < |p| {
      assert c[k + j] == rb.buf[rb.Slot(k + j)];
      MismatchExcludes(c, p, k, j);
    } else {
      assert p[..j] == p;
    }
    matched := j == |p|;
  }

  /** An occurrence with none before it is the first match. */
  lemma FirstUnique(c: seq<byte>, p: seq<byte>, k: nat)
    requires 1 <= |p| && Occurs(c, p, k)
    requires forall k' :: 0 <= k' < k ==> !Occurs(c, p, k')
    ensures FirstMatch(c, p) == k
  {
    FirstMatchCorrect(c, p);
  }
}
