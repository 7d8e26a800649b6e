# Disruptor ring buffer: layout, slot indexing and bookkeeping

This project models the sequential core of the `ring_buffer<N, R, T>` header
(`include/disruptor.h`). That header is a fixed-capacity ring shared by
several writer threads and R registered reader threads. The model covers the
parts that are plain arithmetic and bookkeeping:

- **Cache-line layout.** The templates `power_of_2`, `next_power_of_2` and
  `padding_size` compute how many padding bytes go after each counter and each
  slot, so that it fills a cache line. In `layout.dfy` they are recursive
  functions over 64-bit words, and the byte size of the padded type is the
  parameter `s`. `power_of_2` shifts in `size_t`, so the bit is lost after
  position 63. `next_power_of_2` searches exponents 0, 1, … and stops at 63,
  answering 2^63 there. Its answer is therefore not above n once
  n ≥ 2^63: the padding `padding_size` computes is 0 at s = 2^63, and for
  s > 2^63 its `size_t` subtraction wraps (`Layout.PaddingSize` states what it
  gives in each case).
- **Slot indexing.** `slots.dfy` holds the capacity check
  `(N & (N - 1)) == 0`, the mask `SIZE_MASK = N - 1` and the index
  `SIZE_MASK & sequence`. Bitwise AND is defined bit by bit on naturals in
  `bits.dfy`. Subtraction and addition wrap modulo 2^64 as `size_t` and
  `uint_fast64_t` do.
- **Construction and readiness.** `ringbuffer.dfy` holds the ring as an
  immutable record: slots, reader records, `head`, `tail` and `num_readers`.
  It has `create()`, `ready()` and `get()`. The effect of one write through
  the pointer `get` hands out is `Store`.

The model follows the header as written, with one exception. The header
cannot compile at one line, and there the model takes the intent the header's
own comments show:

- `create()` assigns `r.sequence` for every reader record (line 113), but a
  reader record has only `begin`, `end` and `rb`, so that line does not
  compile. The evident fix is `r.end.sequence = VACANT`: the comment at line 92
  says writers check each reader's `end`, so `end` is the cursor that must start
  VACANT. The model sets `end` to VACANT. `begin` and the back-reference stay
  zero, as the `memset` left them.

Two consequences of the header as written are easy to miss:

- `padding_size` pads a type of 64 bytes or more up to the next power of two
  strictly above its size. So a 64-byte payload takes 128 bytes, and a
  129-byte payload takes 256, not the next multiple of 64 (192). The strict
  "above" keeps every padding array non-empty (`Layout.PaddingSize`).
- The header never requires R > 0. With R = 0 a freshly created ring is
  ready at once (`RingBuffer.CreatedRingReadiness`). `reader readers[0]` is
  itself ill-formed in ISO C++, so this case exists only where the GCC/Clang
  zero-length-array extension accepts it.

## Model

| member | source | states |
|---|---|---|
| `Layout.PowerOf2` | include/disruptor.h:21-27 | For n ≤ 63 the value is 2^n. From n = 64 on, the `size_t` shift has pushed the bit out and the value is 0. |
| `Layout.NextPowerOf2From` | include/disruptor.h:29-36 | `next_power_of_2<n, x>` and its x = 63 specialisation: the search from exponent x answers a power of two, which is either above n or the cut-off value 2^63. |
| `Layout.NextPowerOf2FromSpec` | include/disruptor.h:29-36 | Suppose the search starts at an exponent with every smaller exponent already too small. Then its answer is a power of two. The answer is above n whenever n < 2^63. It is the cut-off value 2^63 exactly when n ≥ 2^62, i.e. when no exponent below 63 works. |
| `Layout.NextPowerOf2FromLeast` | include/disruptor.h:29-36 | Under the same start condition, the answer is no larger than any power of two above n. |
| `Layout.NextPowerOf2` | include/disruptor.h:29-36 | `next_power_of_2<n>` is the least power of two strictly above n for every n < 2^63 (so 0 ↦ 1 and 64 ↦ 128). It is 2^63 exactly when n ≥ 2^62. |
| `Layout.PaddingSize` | include/disruptor.h:38-42 | For 0 < s < 64, s plus the padding is one cache line. For 64 ≤ s < 2^63, s plus the padding is the least power of two above s, which is a multiple of 64. For every 0 < s < 2^63 the padding is positive. At s = 2^63 it is 0, and above that the subtraction wraps. |
| `Layout.CellSize` | include/disruptor.h:47-79 | The bytes of a padded cell (`count_t`, `cursor_t`, `timeout_t`, `entry`): for every size 0 < s < 2^63 the cell is larger than the value and a whole number of 64-byte cache lines. |
| `Layout.CountersFillOneLine` | include/disruptor.h:47-65 | A cell whose value is 0 < s < 64 bytes is exactly one 64-byte line: this is `count_t`, `cursor_t`, `timeout_t` and a slot of a word-sized payload, whatever size below 64 the platform gives the wrapped type. |
| `Layout.PaddingExamples` | test/test_disruptor.cpp:11-16 | Concrete padding: 8 ↦ 56 and 16 ↦ 48 (the asserted one-line cells), 64 ↦ 64 (cell of 128), 65 ↦ 63 and 129 ↦ 127 (cell of 256). |
| `Slots.CapacityCheck` | include/disruptor.h:71 | The compile-time test `(N & (N - 1)) == 0`, with `N - 1` computed in `size_t`. |
| `Slots.CapacityCheckAccepts` | include/disruptor.h:71 | `(N & (N - 1)) == 0` holds exactly when N is 0 or a power of two. |
| `Slots.ZeroCapacityPassesCheck` | include/disruptor.h:71-72 | N = 0 passes the check. Its mask is the all-ones word, so `SIZE_MASK & sequence` is the sequence number itself, which is past the end of a ring with no slots. |
| `Slots.ValidCapacityIsPowerOfTwo` | include/disruptor.h:71 | The corrected capacity condition (check passed and N > 0) holds exactly for the powers of two. |
| `Slots.SizeMask` | include/disruptor.h:72 | `SIZE_MASK = N - 1` is N - 1 for N > 0 and the all-ones word 2^64 - 1 for N = 0. |
| `Slots.MaskIndex` | include/disruptor.h:118-125 | `SIZE_MASK & sequence` never exceeds the mask or the sequence number, so for every N > 0 (a power of two or not) it indexes inside `buffer[N]`. |
| `Slots.MaskIsModulo` | include/disruptor.h:118-125 | For a valid capacity, `SIZE_MASK & sequence` is the slot the sequence number occupies once whole laps of N are taken away (its remainder mod N), so it is below N and `get` stays inside `buffer[N]`. |
| `Slots.SameSlotAfterLap` | include/disruptor.h:123-125 | Sequence numbers s and s + N, with 64-bit wrap-around, map to the same slot. |
| `Slots.WindowDistinct` | include/disruptor.h:91-94 | Any N consecutive sequence numbers map to pairwise distinct slots, even across the 2^64 wrap. |
| `Slots.WindowCoversRing` | include/disruptor.h:91-94 | Every slot is the slot of some offset in any window of N consecutive sequence numbers. |
| `Slots.NoUnreadSlotReused` | include/disruptor.h:92-94 | Before the 2^64 wrap: if the claimed sequence number is at most N past the slowest reader's last consumed one, its slot differs from the slot of every sequence number that reader has yet to consume. |
| `Slots.NoUnreadSlotReusedAcrossWrap` | include/disruptor.h:92-94 | The same bound across the 2^64 wrap: counted as offsets from the last consumed sequence number, a claim at offset d ≤ N never shares a slot with an unconsumed offset 0 < k < d. |
| `Slots.OverrunReusesUnreadSlot` | include/disruptor.h:92-94 | The bound is tight: a claim more than N ahead lands on the slot of an unconsumed sequence number. |
| `RingBuffer.Create` | include/disruptor.h:106-116 | `create()` gives nothing exactly when the allocation fails. Otherwise it gives a ring of N slots and R reader records with head, tail and reader count 0, every slot zeroed, and every reader record VACANT. |
| `RingBuffer.Ready` | include/disruptor.h:98-100 | `ready()` is `num_readers == R`. |
| `RingBuffer.CreatedRingReadiness` | include/disruptor.h:98-116 | A freshly created ring has no claimed reader record and a consistent reader count. It is ready exactly when R = 0, so for R > 0 `ready()` is false after creation. |
| `RingBuffer.ReadyIffAllClaimed` | include/disruptor.h:95-100 | While the reader count matches the claimed records, `ready()` holds exactly when none of the R reader records is VACANT. |
| `RingBuffer.Get` | include/disruptor.h:118-125 | `get(sequence)` (and `get(cursor)` on the cursor's value) returns the slot left after taking whole laps of N away from the sequence number. |
| `RingBuffer.GetAfterLap` | include/disruptor.h:123-125 | `get` returns the same slot for sequence numbers one lap apart. |
| `RingBuffer.Store` | include/disruptor.h:118-121 | A write through the slot pointer for one sequence number makes it read the new value. Every sequence number on another slot reads as before. Cursors and reader records are unchanged. |
| `RingBuffer.WriteKeepsUnreadEntries` | include/disruptor.h:92-94 | Before the 2^64 wrap: a writer that keeps its claim within N of the slowest reader's last consumed sequence number leaves every entry that reader has yet to consume intact. |
| `RingBuffer.WriteKeepsUnreadEntriesAcrossWrap` | include/disruptor.h:92-94 | The same guarantee across the 2^64 wrap: a write at offset d ≤ N from the last consumed sequence number leaves the entry at every unconsumed offset 0 < k < d intact. |

## Left out

- Threads, `std::atomic` memory orderings, compare-and-swap, fetch-and-add, and spin or sleep waiting. These are the concurrent protocol, not the sequential core.
- Reader registration, batch reading, and spin and blocking writes (`create_reader`, `block_read`, `spin_write`, `block_write`). The header does not define them. So the `Consistent` invariant, which says the reader count equals the claimed records, is a hypothesis of `RingBuffer.ReadyIffAllClaimed` and is not derived from registration code.
- `posix_memalign`, `memset` and the page alignment. Allocation success is a boolean parameter, and the zeroed payload is the parameter `zero`.
- Platform `sizeof`/`alignof` values, `alignas`, and how C++ lays out structs (for example, the three-line reader record). Byte sizes are parameters.
- The `TIMEOUT` constant, the `LIKELY__`/`UNLIKELY__` macros and `PAGE_SIZE`. They are timing, compiler hints and allocation alignment.
- The reader record's back-pointer `rb`. It is modelled only as set or unset (`attached`).
- The relaxed atomic load in `get(const cursor_t*)`. The model takes the cursor's value.
- The test driver's threads, its wall-clock timing and its throughput figures.

## Findings

| source | as written | input that shows it | evidently intended | confidence | as-written member | corrected member |
|---|---|---|---|---|---|---|
| include/disruptor.h:71 | `static_assert((N & (N - 1)) == 0)` accepts N = 0, since `0 - 1` in `size_t` is all ones and `0 & x == 0` | N = 0: the check passes, `SIZE_MASK` is 2^64 - 1, and `get(5)` indexes `buffer[5]` of a zero-slot array (`entry buffer[0]` is itself ill-formed in ISO C++, so this is reachable only where the GCC/Clang zero-length-array extension accepts it) | N must be a positive power of two | medium; not executed | `Slots.ZeroCapacityPassesCheck` | `Slots.ValidCapacityIsPowerOfTwo` |
