# loribu ring-buffer engine in Dafny

A model of the loribu fixed-capacity circular byte buffer and proofs about
it. The model covers the engine: the index arithmetic (`RB_INC`,
`RB_IS_FULL`, `RB_IS_EMPTY`), write, read, read-until-token, flush, the
space queries, count, peek and the byte-sequence search.

`src/ringbuff.c` is a second copy of the same engine. Lines 167-358 of
`src/ringbuff.c` match lines 195-386 of `src/loribu.c` line for line, 28
lines earlier, with `ringbuff_` in place of `loribu_`. Its macros at lines
46-48 match lines 66-68. One model therefore covers both. The only textual
difference is that the copy names its used-space query
`ringbuffer_used_space`. The model treats it as the same operation.

Files and modules:

- `bytes.dfy` (`Bytes`): bytes, NULL-able pointers (`Option`), `Min`,
  `Zeros`, and the sequence vocabulary the contracts use. `Occurrences` is a
  multiset count and `FirstIndex` is the first position of a byte.
- `ring.dfy` (`RingBuffer`): the `Ring` state. It holds the backing array
  `buf` (its length is the C `size` field) and the `head` and `tail`
  indices. `Contents()` is the logical byte sequence from `tail` up to
  `head`, oldest first. It is the abstraction every contract is stated in.
  `Push` and `Pop` are the single loop steps of write and read. The lemmas
  relate them to `Contents()`.
- `engine.dfy` (`Engine`): write, read, read_until, flush, count and peek.
  Each one is a method or function whose loop follows the C loop. It takes
  the ring as a value and returns the new ring beside the C return value.
  Queries return no ring, so they cannot change the state.
- `search.dfy` (`ByteSearch`): `loribu_search` over the ring. Beside it are
  two reference functions on plain sequences:
  - `NaiveSearch` follows the C rule for resuming after a mismatch.
  - `FirstMatch` is the corrected search that the header documents.
- `space.dfy` (`Space`): `loribu_used_space` and `loribu_available_space`
  in their 32-bit unsigned arithmetic, as written and corrected.
- `scenarios.dfy` (`Scenarios`): the repository's test programs, replayed as
  chains of model operations whose results are stated in `ensures`.

Where the code departs from the promises in its own header, the model
follows the code:

- **Search result.** The header promises the offset of the first occurrence
  (`src/loribu.h:238-240`). On a mismatch, however, the code resumes after
  the mismatching byte (`count += a`, `src/loribu.c:374`, with `tail`
  already past that byte), not one byte after the candidate's start.
  `NaiveSearch` models the code. The consequences are listed under
  Findings.
- **Used space.** The header promises the number of unread bytes
  (`src/loribu.h:173`). The code evaluates `head - tail` in `uint32_t`
  before taking `% size`, and after wrap-around that differs from the byte
  count; see Findings.
- **Size 1.** A ring of size 1 is both full and empty. The full test
  `tail == (head + 1) % 1` and the empty test `head == tail` both hold, so
  it stores nothing. `Engine.Flush` states this case.

`loribu_is_full` and `loribu_is_empty` return the values of the macros
`RB_IS_FULL` and `RB_IS_EMPTY`. They are modelled by the predicates
`IsFull` and `IsEmpty` of `Ring`, which `RingBuffer.FullIff` and
`RingBuffer.EmptyIff` relate to the stored byte count. `RB_INC` is
`RingBuffer.Next`, and the single steps of the write and read loops are
`Push` and `Pop`, described by `RingBuffer.PushAppends` and
`RingBuffer.PopDrops`.

## Model

| member | source | states |
|---|---|---|
| RingBuffer.Next | src/loribu.c:68 | `RB_INC`: the advanced index stays below `size`, and it is 0 exactly when the index was the last slot; `RingBuffer.ModularForm` shows it equals `(idx + 1) % size`. |
| RingBuffer.ModularForm | src/loribu.c:66-68 | The wrap-free index step, byte count and slot of the k-th byte are equal to the C forms `(idx + 1) % size`, `(head - tail) mod size` and `buf[(tail + k) % size]`. |
| RingBuffer.OffsetMod | src/loribu.c:68 | The index k slots past i, as used in the write and read contracts, is the C form `(i + k) % size`, and one more `RB_INC` moves it one slot further. |
| RingBuffer.FullIff | src/loribu.c:66 | The full test holds exactly when the ring stores `size - 1` bytes, because one slot is always left free. |
| RingBuffer.EmptyIff | src/ringbuff.c:47 | The empty test holds exactly when the ring stores no bytes. |
| RingBuffer.Create | src/loribu.c:154-163 | A fresh ring over any non-empty backing array is well formed and holds no bytes. |
| RingBuffer.PushAppends | src/loribu.c:205-206 | Storing at `head` and advancing `head` in a ring that is not full appends exactly that byte to the contents. |
| RingBuffer.PopDrops | src/loribu.c:228-229 | In a ring that is not empty, the byte at `tail` is the oldest byte, and advancing `tail` removes exactly that byte from the front. |
| RingBuffer.PopStep | src/loribu.c:258-259 | Taking one byte from a ring whose contents are a suffix of a snapshot yields the next snapshot byte and leaves the next suffix. |
| RingBuffer.SlotStep | src/loribu.c:310-313 | Walking `tail` forward one slot visits the logical bytes in order, and it reaches `head` exactly after the last stored byte. |
| Engine.Write | src/loribu.c:195-216 | Write stores `min(data_size, free room)` bytes after the old contents, in order. The stored bytes are a prefix of the data, or zeros when the data pointer is NULL. `head` advances by that count, and `tail` is untouched. A short count means the ring is now full. |
| Engine.Read | src/loribu.c:218-239 | Read removes `min(size, stored)` bytes from the front, and `tail` advances by that count. A non-NULL destination receives exactly those bytes in order. A NULL destination only discards them. |
| Engine.Count | src/loribu.c:301-320 | Count equals the number of occurrences of the byte in the contents. It is zero exactly when the byte is absent. |
| Engine.ReadUntil | src/ringbuff.c:213-245 | Read-until changes nothing and returns 0 when the token is absent. Otherwise it removes bytes through the first token. With a destination, the count is capped by `buffer_size`. With a NULL destination, the whole prefix through the token is drained. |
| Engine.ReadThrough | src/loribu.c:255-269 | The read-until loop removes `min(bound, index of first token + 1)` bytes from the front and hands exactly those bytes to a non-NULL destination. |
| Engine.Flush | src/loribu.c:275-279 | A flush zeroes both indices, so the ring holds no bytes, and the backing array is unchanged. It also reports full exactly when its size is 1. |
| Engine.FlushIdempotent | src/loribu.h:152-160 | Flushing twice leaves the same state as flushing once. |
| Engine.Peek | src/loribu.c:322-336 | Peek yields the first `min(peek_size, stored)` bytes of the contents, in order. |
| ByteSearch.Search | src/loribu.c:338-386 | The ring search returns -1 for a NULL pattern. Otherwise it returns exactly the result of the reference scan `NaiveSearch` on the contents. |
| ByteSearch.SkipTo | src/loribu.c:354-359 | The do-while skips to the next byte equal to the pattern's first byte, or to the end of the contents. No skipped byte equals the first byte. |
| ByteSearch.MatchRest | src/loribu.c:364-382 | The inner loop either confirms a whole match at the candidate, or leaves `tail` where the reference scan resumes. |
| ByteSearch.ScanSkip | src/loribu.c:355-359 | Skipping bytes that differ from the pattern's first byte does not change the scan's result. |
| ByteSearch.SearchSound | src/loribu.h:235-248 | Any offset the as-written search reports is a real occurrence of the pattern inside the contents. |
| ByteSearch.SingleByteSearch | src/loribu.c:361-362 | For a one-byte pattern, the search finds the first position of that byte, and returns -1 exactly when the byte is absent. |
| ByteSearch.OverlapMissed | src/loribu.c:372-376 | As written, searching "ab" in "aab" returns -1 although "ab" occurs at offset 1. |
| ByteSearch.LaterMatchReported | src/loribu.c:372-376 | As written, searching "aab" in "aaabaab" returns 4 although the first occurrence is at offset 1, which the corrected search returns. |
| ByteSearch.FirstMatchCorrect | src/loribu.h:236-246 | The corrected search returns the first occurrence of the pattern, and returns -1 exactly when the pattern does not occur. |
| ByteSearch.AsWrittenVersusFirst | src/loribu.c:338-386 | Whenever the as-written search reports an offset, a first occurrence exists at or before it. The two searches agree on one-byte patterns. |
| ByteSearch.SearchCorrected | src/loribu.h:235-248 | The corrected ring search returns the first occurrence in the contents, or -1 when there is none or the pattern is NULL. |
| ByteSearch.MatchesAt | src/loribu.c:366-376 | Comparing the pattern byte by byte from the slot of offset k succeeds exactly when the pattern occurs at k. |
| ByteSearch.FirstUnique | src/loribu.h:239-240 | An occurrence with none before it is the offset the corrected search returns. |
| Space.UsedSpace | src/loribu.c:281-284 | As written, `((head - tail) mod 2^32) % size`: always below `size`, but not always the stored byte count (see `Space.UsedSpaceExact`). |
| Space.AvailableSpace | src/loribu.c:286-289 | The as-written available and used space always add up to `size - 1`. |
| Space.UsedSpaceExact | src/loribu.c:281-284 | The as-written used space equals the stored byte count exactly when the indices have not wrapped or the size divides 2^32. |
| Space.UsedSpaceAgrees | src/ringbuff.c:253-261 | The as-written and corrected space queries agree exactly under the same condition. |
| Space.UsedSpaceWrapCounterexample | src/loribu.c:283 | With size 17, `head == 2` and `tail == 5`, the ring holds 14 bytes with room for 2. The as-written queries report 15 used and 1 available. |
| Space.UsedSpaceCorrected | src/loribu.h:170-179 | The corrected used space, `(head + size - tail) % size` in `uint32_t`, equals the stored byte count for every size. |
| Space.AvailableSpaceCorrected | src/loribu.h:181-190 | The corrected available space equals the free room. It adds up with the corrected used space to `size - 1`, and it is zero exactly when the ring is full. |
| Scenarios.WriteThenRead | test/write_read.c:11-16 | Bytes written into a ring come back unchanged and in order, after the old contents, from a read covering both, and that read leaves the ring empty. |
| Scenarios.WriteRead | test/01-write_read.c:17-22 | Writing the 12 bytes of "hello world" with its NUL into a fresh 512-byte ring stores 12, and reading 12 returns them. |
| Scenarios.WriteReadUntil | test/01-write_read.c:24-27 | Two further writes of 11 and 12 bytes total 23, and read-until on the NUL returns those 23 bytes. |
| Scenarios.WriteTwice | test/01-write_read.c:24-25 | Into the emptied ring, writes of 11 and 12 bytes store 23 bytes: "hello world" twice, then the NUL. |
| Scenarios.ReadToNul | test/01-write_read.c:26-27 | Read-until on the NUL with a 128-byte destination returns all 23 stored bytes. |
| Scenarios.NulFirstAt22 | test/01-write_read.c:25-26 | The first NUL of the twice-written text is its 23rd byte. |
| Scenarios.FlushThenRead | test/02-flush.c:13-20 | After a write of 12 bytes and a flush, a read returns nothing. |
| Scenarios.InfoSpace | test/03-info.c:18-26 | A 17-byte ring holding "hello dear world" is full and not empty, with 16 used and 0 available. After a flush it is empty and not full. |
| Scenarios.InfoCount | test/03-info.c:29-30 | On that ring, the count of 'l' is 3 and the count of 'x' is 0. |
| Scenarios.ThreeLs | test/03-info.c:29 | "hello dear world" holds three 'l' bytes. |
| Scenarios.InfoPeek | test/03-info.c:33-36 | Peeking 5 bytes on that ring yields "hello". |
| Scenarios.InfoSearch | test/03-info.c:40-41 | On that ring, searching "dear" returns 6 and searching "sad" returns -1. |
| Scenarios.DearAt6 | test/03-info.c:40 | The reference scan finds "dear" at offset 6 of "hello dear world". |
| Scenarios.NoSad | test/03-info.c:41 | The reference scan reports no "sad" in "hello dear world". |
| Scenarios.WrappedSpace | src/loribu.c:281-289 | A 17-byte ring reaches `tail == 5`, `head == 2` through writes and reads. It holds 14 bytes, yet used space reports 15 and available space reports 1, while a 3-byte write still stores 2. The corrected queries report 14 and 2. |

## Left out

- Construction and destruction are not modelled: `loribu_create`, `loribu_destroy` and the static instance pool (`rb_take`, `rb_give`). They are allocation bookkeeping. `RingBuffer.Create` models only the initial index values. An allocation failure is outside the model.
- Sizes outside `1 <= size < 2^31` are not modelled. A zero size divides by zero in every `% size` in the C code. Sizes of 2^31 or more overflow the `int32_t` offset that search returns.
- Memory safety is not modelled: raw pointers, aliasing between the destination and the ring's array, and the caller's destination capacity. `loribu_peek` does not check its destination size, and `loribu_read` trusts `size`. The model hands the copied bytes back as a sequence.
- Engine.Write: requires that a non-NULL source holds at least `data_size` bytes. In C, a shorter source is an out-of-bounds read.
- ByteSearch.Search: requires a pattern of at least one byte. With a pattern size of 0 the C code reads `*s` beyond the pattern and starts its counter `i` at `2^32 - 1`.
- Engine.Peek: `peek_size` is a `uint8_t`, so the model requires `peekSize < 256`. It also does not model the destination-size caveat in the header.
- Engine.ReadUntil: does not state how `tail` moves. The moved `tail` is implied by the contents it leaves, and `Engine.Read` states it explicitly.
- Concurrency is not modelled. The engine makes no atomicity promise.
- The build configuration and the test harness are not modelled. The test programs call `loribu_create_from` and a one-argument `loribu_create`, which differ from the two-argument `loribu_create` in `src/loribu.c`. The scenarios start from `RingBuffer.Create` over a backing array of the tests' size.

## Findings

| source | as written | input that shows it | evidently intended | confidence | as-written member | corrected member |
|---|---|---|---|---|---|---|
| src/loribu.c:281-289 | `(head - tail) % size` in `uint32_t`: after wrap-around, `head - tail` wraps modulo 2^32 before `% size` | size 17, `tail == 5`, `head == 2`, which ordinary writes and reads reach: used space is 15 and available space 1, but 14 bytes are stored and a write still stores 2 | the number of stored bytes, `(head + size - tail) % size`; exact only by chance when size divides 2^32, as with the tests' 512 | high; not executed | Space.UsedSpaceWrapCounterexample | Space.UsedSpaceCorrected |
| src/loribu.c:372-376 | on a mismatch, the search resumes after the mismatching byte, not after the candidate's first byte | "ab" in "aab" returns -1 though it occurs at 1; "aab" in "aaabaab" returns 4 though it first occurs at 1 | the header's offset of the first occurrence, -1 only when absent | high; not executed | ByteSearch.OverlapMissed | ByteSearch.SearchCorrected |
