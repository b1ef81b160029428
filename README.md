# LinuxAsyncCopying — a Dafny model of the pipelined AIO copy driver

The program copies a file with POSIX asynchronous I/O. It uses N control
blocks (`aiocb`). Each control block ("slot") owns one block-sized region of
a single `malloc`ed arena. A shared `offset` cursor hands out file offsets one
block at a time. Each pass of the main loop does two things:

1. It waits for every slot's read. A slot whose read returned bytes issues an
   asynchronous write of exactly those bytes, at the same offset, from the
   same region. A slot whose read returned 0 is at end of file and costs one
   `ops_in_progress`.
2. It waits for every slot's write. A slot whose write returned bytes reads
   the next block at the cursor, and the cursor moves on by one block.

The loop runs while `ops_in_progress > 0`. The measuring variant is meant to
run the same copy over a grid of eight block sizes by eight slot counts. As
written, its row loop advances the row index twice per row. It therefore runs
only four of the eight block sizes, writes four CSV rows, and fills 32 of the
64 cells of its table of times.

Files:

- `aio.dfy` (module `Aio`) — the AIO layer: bytes, control blocks, and file
  contents as `seq<byte>`. The class `AioContext` holds the global control
  block table as an `array<Aiocb>`. It has the three routines
  `aio_read_setup`, `aio_write_setup` and `wait_for_aio_operations`.
  - Completion is abstract. A read of `len` bytes at `off` returns
    `min(len, S - off)`, or 0 at or past end of file. A write returns its
    length and places its bytes at its offset.
  - The model applies a transfer when the block is submitted. The driver
    never looks at a slot before waiting for it, and outstanding blocks never
    share a region, so the order is not observable.
  - I/O errors are a parameter: a set of offsets at which reads fail and a
    set at which writes fail. Such an operation returns -1, and the wait then
    ends the program.
- `arith.dfy` (module `Arith`) — helper facts about multiplication and
  division.
- `async_copy.dfy` (module `AsyncCopy`) — the driver of `main` in
  `async_copy.c`, as imperative methods over the control block array and the
  arena `array<byte>`:
  - the first batch of reads;
  - the read half and the write half of a pass;
  - the whole run (`RunCopy`);
  - the program (`CopyMain`).

  The loop invariant (`Loop`) and the state between the halves (`Mid`) record
  which slots are busy and what each holds. They also record that retired
  slots stay retired, where the cursor is, how much of the destination
  already equals the source, and the value of `ops_in_progress`.
- `measuring.dfy` (module `Measuring`) — the sweep of
  `measuring/async_copy_measuring.c`. Every grid point the sweep reaches is
  one `RunCopy`: that file's copy loop (lines 107-139) and its helper routines (lines 15-59) are
  the same as those of `async_copy.c`, including exiting on a -1 result. The
  CSV file is a sequence of tokens and the time table is an `array2`. Times
  are not modelled: a time field or a table cell records which run produced
  it.

What a completed run promises:

Here B is the block size and `Blocks(S, B)` is the number of blocks of the
source, `ceil(S / B)`, or 0 when B is 0.

- When the block size is non-zero, the destination is the source written
  over the start of the old destination file. When it is 0, every read
  returns 0 bytes, nothing is written, and the destination is the old file.
- The cursor ends at `(N + Blocks(S, B)) * B`.
- `ops_in_progress` ends at `FinalOps(Blocks(S, B), N)`. That is 0 when
  `Blocks(S, B)` is a multiple of N, which includes an empty source and a
  block size of 0. Otherwise it is the negative `(Blocks(S, B) mod N) - N`.
  A retired slot keeps its 0-byte read result and is counted again on every
  later pass, so the counter need not stop at 0.
- A run completes exactly when no read among the first `N + Blocks(S, B)`
  block offsets and no write among the first `Blocks(S, B)` block offsets
  fails.

Two behaviours of the program that are easy to miss:

- The counter can end below zero, and the final offset is one batch past the
  last block, not the smallest block multiple that covers the file.
- In the sweep, `bs_index++` inside the `fprintf` of line 93 moves the index
  after the block size is read but before `execution_times[op_index][bs_index]`
  is written (line 144). Only rows 0, 2, 4 and 6 are run. Their labels are
  `bs_index * block_sizes[bs_index] / 1024`. Their times land in columns 1, 3,
  5 and 7.

## Model

| member | source | states |
|---|---|---|
| Aio.SizeMul | measuring/async_copy_measuring.c:72 | a size_t product is taken modulo 2^64 and equals the exact product when that fits |
| Aio.ReadCount | async_copy.c:173-174 | a read returns at most the bytes asked for; it returns bytes exactly when it starts before end of file and asks for some; it never reaches past end of file; it is short only at end of file |
| Aio.WriteAt | async_copy.c:177 | after a write, the file holds the data at the offset and keeps every other byte (a gap reads as zeros); its length is the larger of the old end and the end of the data |
| Aio.WriteAtExtends | async_copy.c:177 | writing the next stretch of the source at the end of an already copied prefix extends the copied prefix |
| Aio.WriteAtEmpty | async_copy.c:140 | copying into a newly created, empty file yields exactly the source |
| Aio.WriteAtKeepsTail | async_copy.c:140 | writing a shorter source over a longer file keeps the file's length and its old tail, so the result is not the source |
| Aio.WriteAtTwice | measuring/async_copy_measuring.c:99 | repeating a copy onto a file that already holds it changes nothing |
| Aio.AioContext.ReadBlockResult | async_copy.c:32 | the completion ReadBlock gives an aio_read: it records the request, returns -1 exactly at a failing offset, and otherwise returns at most the bytes asked for, 0 exactly at or past end of file or for an empty request |
| Aio.AioContext.WriteBlockResult | async_copy.c:52 | the completion WriteBlock gives an aio_write: it records the request, returns -1 exactly at a failing offset, and otherwise returns the full byte count |
| Aio.AioContext.constructor | async_copy.c:17 | the global table starts with 64 zeroed control blocks over the given files and error sets |
| Aio.AioContext.ReadSetup | async_copy.c:25-37 | block i becomes a read at the offset into buffer[buf..]; the bytes it returns are the source bytes at that offset; nothing else in the buffer and no other block changes |
| Aio.AioContext.WriteSetup | async_copy.c:45-57 | block i becomes a write of the given bytes at the offset; the destination then holds them there; no other block changes |
| Aio.AioContext.WaitForAioOperations | async_copy.c:65-80 | the wait lets the program go on exactly when none of blocks 0..n-1 returned -1 |
| AsyncCopy.KbToBytes | async_copy.c:124-125 | the KB input times 1024 on a size_t: below 2^64, exact when the product fits, always a whole number of KB |
| AsyncCopy.RegionsDisjoint | async_copy.c:149-162 | region i lies inside the block_size * N allocation, and the regions of two distinct slots do not overlap |
| AsyncCopy.LiveSlots | async_copy.c:172-183 | the slots whose read at the cursor finds data are a prefix of the busy slots |
| AsyncCopy.ReadIntoSlot | async_copy.c:191 | a read for slot i at the cursor lands in region i only; every slot's region still mirrors the source at its offset |
| AsyncCopy.InitialReads | async_copy.c:159-164 | after the first batch, slot i holds a read of block i into region i, and the cursor is N * block_size |
| AsyncCopy.ReadResultLive | async_copy.c:173-183 | in a pass, a slot's read result is positive exactly when it is a live slot; every other slot reports 0 from a read |
| AsyncCopy.WriteBack | async_copy.c:173-177 | a read that returned bytes_read > 0 becomes a write of exactly bytes_read bytes at the same offset from the same region; the copied prefix grows by those bytes |
| AsyncCopy.ReadStep | async_copy.c:172-183 | one slot of the read half: a live slot is written back and the counter is kept; a dead slot costs one ops_in_progress |
| AsyncCopy.HandleReadCompletions | async_copy.c:172-184 | after the read half, the live slots write back their blocks and the dead slots stay retired reads of 0 and every block from the first dead slot to the end of the table is left as it was; the destination holds the source up to the end of the live blocks; the counter drops by the number of dead slots |
| AsyncCopy.HandleWriteCompletions | async_copy.c:186-194 | after the write half, each slot that wrote data holds a read of the next block at the shared cursor, in slot order; retired slots issue nothing; the cursor advances by exactly block_size per read issued |
| AsyncCopy.ReadWaitClean | async_copy.c:171 | the read wait succeeds exactly when none of the reads issued so far is at a failing offset |
| AsyncCopy.WriteWaitClean | async_copy.c:185 | the write wait succeeds exactly when none of the writes issued so far is at a failing offset |
| AsyncCopy.LiveFacts | async_copy.c:174 | the last live slot starts before end of file, and the first dead one does not |
| AsyncCopy.PassArith | async_copy.c:168-195 | one pass keeps the counting invariant: how many blocks are copied and issued, where the cursor is, the copied prefix, and ops_in_progress either equal to the busy slots or final; the counter or the remaining distance decreases |
| AsyncCopy.PassLive | async_copy.c:172-193 | in a pass after t full batches where the first p > 0 slots find data: the last copied block starts before end of file; a pass with fewer than N live slots reaches end of file; the cursor is t + 1 full batches in; the copied prefix reaches the cursor or end of file |
| AsyncCopy.PassDead | async_copy.c:179-183 | in a pass where no slot finds data, ops_in_progress falls to its final value, 0 or negative |
| AsyncCopy.CountsAfterReads | async_copy.c:172-184 | after the read half, the counters satisfy the state between the halves; the copied prefix reaches the cursor or end of file; the run progresses |
| AsyncCopy.LoopExit | async_copy.c:168-195 | once ops_in_progress is no longer positive, the destination holds the whole source at its start (nothing changed for an empty block), the cursor is (N + Blocks(S, B)) * B, the counter is final, and no operation issued failed |
| AsyncCopy.ReadHalf | async_copy.c:171-184 | the read wait either ends the run because some read failed, or leads to the state between the halves with the counter or the remaining distance decreased |
| AsyncCopy.WriteHalf | async_copy.c:185-194 | the write wait either ends the run because some write failed, or leads back to the loop invariant with p more blocks copied |
| AsyncCopy.RunCopy | async_copy.c:149-195 | the run terminates; it completes exactly when no read among the first N + Blocks(S, B) offsets and no write among the first Blocks(S, B) offsets fails; a completed run has the source over the start of the old destination when the block size is non-zero and the old destination otherwise, the cursor at (N + Blocks(S, B)) * B and the final counter FinalOps(Blocks(S, B), N); with no slots nothing happens |
| AsyncCopy.CopyMain | async_copy.c:124-195 | the program copies with the KB input converted to bytes; it completes exactly when no operation fails; a completed copy with a non-empty block has the source over the start of the old destination, and one with an empty block or no slots leaves it alone |
| AsyncCopy.CopyTruncating | async_copy.c:140 | with the destination truncated on open, a completed copy with a non-empty block leaves exactly the source |
| AsyncCopy.LeftoverTail | async_copy.c:140 | without truncation, copying the one-byte source [1] over the two-byte file [7, 7] leaves [1, 7], which is not the source |
| Measuring.BlockSizes | measuring/async_copy_measuring.c:72 | eight block sizes; their values are stated by BlockSizesFirst and BlockSizesExact |
| Measuring.RowLabel | measuring/async_copy_measuring.c:93 | the label fits a size_t in KB, and without wrap-around it is the row index times the block size, rounded down to whole KB |
| Measuring.RowShape | measuring/async_copy_measuring.c:93-152 | one CSV line of 10 fields: the label, then the times of the runs with the row's block size and the eight slot counts in order, then the line end |
| Measuring.Operations | measuring/async_copy_measuring.c:73 | eight slot counts, strictly increasing, each between 1 and MAX_IO_OPERATIONS, so every table index stays in bounds |
| Measuring.BlockSizesFirst | measuring/async_copy_measuring.c:72 | the first block size is the base; a zero base makes every block size zero |
| Measuring.BlockSizesExact | measuring/async_copy_measuring.c:72 | without wrap-around, the eight block sizes are exactly base times 1 to 8 |
| Measuring.SweepPass | measuring/async_copy_measuring.c:89-93 | pass h of the outer loop appends the row of index 2h to the CSV so far |
| Measuring.CellStep | measuring/async_copy_measuring.c:144 | after the row of index b, column b + 1 holds that row's runs; earlier columns keep their values; later ones are still unwritten |
| Measuring.DestinationStep | measuring/async_copy_measuring.c:98-99 | reopening the destination without truncation for every run leaves it as the first copy made it |
| Measuring.RowRuns | measuring/async_copy_measuring.c:93-152 | one CSV line: the label, the eight runs in the order of the slot counts, each time in the given column of the table and appended to the line, then the line end; the destination is as one copy leaves it; other columns are unchanged |
| Measuring.Sweep | measuring/async_copy_measuring.c:68-153 | a sweep without I/O errors completes; its CSV is the header and the rows of indices 0, 2, 4 and 6; the odd columns hold the runs of the block size to their left; the even columns are unwritten; the destination is the source over the old file when the block size is non-zero, and the old file otherwise |
| Measuring.SweepRows | measuring/async_copy_measuring.c:89-93 | the CSV is the header followed by the rows of block size indices 0, 2, 4 and 6: 41 fields |
| Measuring.RowLabels | measuring/async_copy_measuring.c:93 | without wrap-around, the four row labels are 0, 6, 20 and 42 times the KB input |
| Measuring.FullUpToShape | measuring/async_copy_measuring.c:89-93 | the intended CSV after r rows has the header and r rows of 10 fields, and row k starts with block size k in KB |
| Measuring.FullRowLabels | measuring/async_copy_measuring.c:93 | without wrap-around, the intended row b is labelled (b + 1) times the KB input |
| Measuring.SweepSkipsBlockSizes | measuring/async_copy_measuring.c:89-93 | for a non-zero KB input, the sweep writes 41 fields where 81 were meant, labels its first row 0 instead of kb, and never writes column 0 |
| Measuring.SweepAllBlockSizes | measuring/async_copy_measuring.c:89-153 | the corrected sweep writes one row per block size, labelled with that block size in KB, and fills every cell of the table with its own grid point's run |

## Left out

- The real AIO calls (`aio_read`, `aio_write`, `aio_error`, `aio_return`) are abstract completions. The `usleep` busy-wait in the wait routine is replaced by its outcome.
- Operating-system concurrency of outstanding operations is not modelled. A transfer takes effect when it is submitted; this is unobservable because the driver waits before it looks.
- Submission failures (`aio_read`/`aio_write` returning -1, which makes the setup routines exit) are not modelled. Only completion results of -1 are, through the error sets.
- Failures of `open`, `malloc` and `fopen`, and the `scanf` and `printf`/`fprintf` calls, are left out as I/O plumbing. I/O errors of the copy operations themselves are modelled by the error sets. In the measuring file the results of `open` and `malloc` are not even checked.
- `clock_gettime` and the floating-point elapsed time are left out, since they are clock and floating point. A CSV time field and a table cell hold the run they time.
- The final print loop of the measuring file (lines 157-164) is left out; it only prints. It reads unwritten table cells, and it prints `block_sizes[j] / 1024 / block_size`, which is 0 for every j unless the sizes wrap, and divides by zero when the KB input is 0.
- `measuring/build_graphs.py` is not part of this model; it only plots the CSV file.
- The control block table is global in the source and reused across the measuring runs. Each run here gets a fresh table. The reuse is unobservable because every slot a run looks at was set up by that run first.
- The destination after an aborted run is left out: the program exits there, and the contracts say nothing about that state.
- Partial writes (`bytes_written < bytes_read`) are left out; the source does not handle them either.
- `aio_return` is taken to report a block's stored result on every call. The program calls it twice per operation: in the wait (async_copy.c:73, measuring/async_copy_measuring.c:52) and again in the handling loops (async_copy.c:173 and 187, measuring/async_copy_measuring.c:119 and 132). On a retired 0-byte block it calls it again on every later pass. POSIX allows only one `aio_return` per operation, and a later call may fail. The model follows the implementations that return the stored value, and termination and completeness rest on that.
- Aio.AioContext.WriteSetup: a write at a failing offset still places its data. The run ends at the next wait anyway, so only the aborted state, which is not modelled, would differ.
- AsyncCopy.RunCopy: the slot count is a `nat` of at most 64. A negative `num_async_ops`, or one above 64, which overruns `aiocb_list`, is not modelled.
- AsyncCopy.RunCopy: the arena size `block_size * num_async_ops` and the offsets are unbounded integers, not wrapped `size_t`/`off_t`. The block size itself is wrapped, in `KbToBytes`.
- Measuring.Sweep: states only that a sweep without I/O errors completes, not which error sets make it abort. That is stated per run and per row by `AsyncCopy.RunCopy` and `AsyncCopy.CopyMain`.
- Measuring.RowRuns: states only that a row without I/O errors completes, for the same reason.
- Measuring.SweepAllBlockSizes: states only that a sweep without I/O errors completes, for the same reason.
- Aio.AioContext.WaitForAioOperations: the source stores `aio_return`'s `ssize_t` in an `int ret` (async_copy.c:73, measuring/async_copy_measuring.c:52) and compares the narrowed value with -1. The model compares the full result. The two differ only for a transfer of 2^32 - 1 bytes or more, which would wrap to -1.
- Aio.ReadCount: "short only at end of file" ignores the operating system's cap on the bytes one call transfers. That cap matters only for blocks of 2 GiB or more.
- Measuring.BlockSizes: its own contract gives only the length; the values are stated by `Measuring.BlockSizesFirst` and `Measuring.BlockSizesExact`.

## Findings

| source | as written | input that shows it | evidently intended | confidence | as-written member | corrected member |
|---|---|---|---|---|---|---|
| async_copy.c:140 | the destination is opened with `O_WRONLY` and `O_CREAT` and no `O_TRUNC`, so a longer old destination keeps its tail after the copy | source [1] over an existing destination [7, 7] gives [1, 7] | the destination equals the source | not executed | AsyncCopy.LeftoverTail | AsyncCopy.CopyTruncating |
| measuring/async_copy_measuring.c:93 | `bs_index++` inside the `fprintf` argument advances the loop index a second time; only rows 0, 2, 4 and 6 run, labelled 0, 6kb, 20kb and 42kb, with their times stored one column to the right | KB input 1: 41 CSV fields with first label 0, and column 0 of the table never written | eight rows labelled kb to 8kb, each row's times in its own column | not executed | Measuring.SweepSkipsBlockSizes | Measuring.SweepAllBlockSizes |
