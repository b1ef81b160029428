// The measuring variant of the copier (measuring/async_copy_measuring.c): one
// base block size read in KB, a grid of eight block sizes by eight slot
// counts, one full copy per grid point, and a CSV file with one row per block
// size.  Times are not modelled: a CSV time field and a cell of the time table
// record which run produced them.

module Measuring {
  import opened Aio
  import opened AsyncCopy
  import Arith

  /** The slot counts of the sweep (async_copy_measuring.c:73). */
  function Operations(): (r: seq<nat>)
    ensures |r| == 8
    ensures forall k :: 0 <= k < 8 ==> 0 < r[k] <= MAX_IO_OPERATIONS
    ensures forall j, k :: 0 <= j < k < 8 ==> r[j] < r[k]
  {
    [1, 2, 4, 8, 12, 16, 32, 64]
  }

  /**
   * The block sizes of the sweep (async_copy_measuring.c:72): the base block
   * size times 1 to 8, each product a size_t.
   */
  function BlockSizes(base: nat): (r: seq<nat>)
    ensures |r| == 8
  {
    seq(8, k requires 0 <= k => SizeMul(base, k + 1))
  }

  /** One copy run: its block size in bytes and its number of slots. */
  datatype Run = Run(blockSize: nat, numAsyncOps: nat)

  /** A cell of double execution_times[8][8]: unwritten, or the time of a run. */
  datatype Option<T> = None | Some(value: T)

  /** The fields of execution_times.csv, in order. */
  datatype CsvToken = Header | Label(kb: nat) | Time(run: Run) | EndOfRow

  /**
   * The first field of a row (async_copy_measuring.c:93): the row index,
   * before the post-increment, times the row's block size, over 1024.
   */
  function RowLabel(bsIndex: nat, blockSize: nat): (kb: nat)
    ensures kb * 1024 < SIZE_MODULUS
    ensures bsIndex * blockSize < SIZE_MODULUS ==> kb * 1024 <= bsIndex * blockSize < kb * 1024 + 1024
  {
    SizeMul(bsIndex, blockSize) / 1024
  }

  /** The eight time fields of a row, one per slot count, for the given block size. */
  function Times(blockSize: nat): seq<CsvToken>
  {
    seq(8, o requires 0 <= o < 8 => Time(Run(blockSize, Operations()[o])))
  }

  /** The row the sweep writes for block size index b: label, eight times, end of line. */
  function Row(base: nat, b: nat): seq<CsvToken>
    requires b < 8
  {
    [Label(RowLabel(b, BlockSizes(base)[b]))] + Times(BlockSizes(base)[b]) + [EndOfRow]
  }

  /**
   * A row is 10 fields: its label, the eight times of the runs with the row's
   * block size in the order of the slot counts, and the line end.
   */
  lemma RowShape(base: nat, b: nat)
    requires b < 8
    ensures |Times(BlockSizes(base)[b])| == 8
    ensures |Row(base, b)| == 10 && Row(base, b)[0] == Label(RowLabel(b, BlockSizes(base)[b])) && Row(base, b)[9] == EndOfRow
    ensures forall k :: 1 <= k < 9 ==> Row(base, b)[k] == Time(Run(BlockSizes(base)[b], Operations()[k - 1]))
  {
  }

  /**
   * The file after the first h passes of the outer loop: the loop header adds
   * one to the index and the (bs_index++) in the label adds another, so pass h
   * writes the row of index 2h.
   */
  function SweepUpTo(base: nat, h: nat): seq<CsvToken>
    requires h <= 4
  {
    if h == 0 then [Header] else SweepUpTo(base, h - 1) + Row(base, 2 * (h - 1))
  }

  /** The whole file the sweep writes: the four passes the loop makes. */
  function SweepCsv(base: nat): seq<CsvToken>
  {
    SweepUpTo(base, 4)
  }

  /**
   * The time-table cell (op, b) as the sweep leaves it: only the columns 1, 3,
   * 5 and 7 the incremented index reaches are written, each with the run of
   * the block size one to its left.
   */
  function SweepCell(base: nat, op: nat, b: nat): Option<Run>
    requires op < 8 && b < 8
  {
    if b == 1 || b == 3 || b == 5 || b == 7 then Some(Run(BlockSizes(base)[b - 1], Operations()[op])) else None
  }

  /**
   * The destination after every run so far: each run copies the source over
   * the start of the file, so once a run with a non-empty block has happened
   * the file no longer changes.
   */
  function SweepDestination(base: nat, source: seq<byte>, destination0: seq<byte>): seq<byte>
  {
    if base == 0 then destination0 else WriteAt(destination0, 0, source)
  }

  /** A block size of 0 stays 0 at every multiple, otherwise the first multiple is the base. */
  lemma BlockSizesFirst(base: nat)
    requires base < SIZE_MODULUS
    ensures BlockSizes(base)[0] == base
    ensures base == 0 ==> forall k :: 0 <= k < 8 ==> BlockSizes(base)[k] == 0
  {
  }

  /** Pass h of the outer loop appends the row of index 2h to the file so far. */
  lemma SweepPass(base: nat, half: nat, csv: seq<CsvToken>, labelKb: nat, blockSize: nat)
    requires half < 4 && csv == SweepUpTo(base, half)
    requires blockSize == BlockSizes(base)[2 * half] && labelKb == RowLabel(2 * half, blockSize)
    ensures csv + ([Label(labelKb)] + Times(blockSize) + [EndOfRow]) == SweepUpTo(base, half + 1)
  {
  }

  /** An even index below 8 is at most 6, so the index after it is still a column. */
  lemma EvenBelowEight(i: nat, half: nat)
    requires i == 2 * half && i < 8
    ensures half < 4 && i + 1 < 8
  {
  }

  /**
   * The table after row b (b even) has run: column b + 1 holds the row's runs,
   * the columns before b are as the earlier rows left them, the rest unwritten.
   */
  lemma CellStep(base: nat, b: nat, half: nat, op: nat, c: nat)
    requires b < 8 && b == 2 * half && op < 8 && c < 8
    ensures (if c < b + 2 then SweepCell(base, op, c) else None) ==
            if c == b + 1 then Some(Run(BlockSizes(base)[b], Operations()[op]))
            else if c < b then SweepCell(base, op, c) else None
  {
  }

  /**
   * One more row of copies with block size index row leaves the destination
   * as the sweep so far left it: the first row's copy puts the source over the
   * original file, and later copies repeat it.
   */
  lemma DestinationStep(base: nat, row: nat, source: seq<byte>, destination0: seq<byte>,
                        before: seq<byte>, after: seq<byte>)
    requires base < SIZE_MODULUS && row < 8
    requires before == if row == 0 then destination0 else SweepDestination(base, source, destination0)
    requires after == if BlockSizes(base)[row] == 0 then before else WriteAt(before, 0, source)
    ensures after == SweepDestination(base, source, destination0)
  {
    BlockSizesFirst(base);
    if row > 0 && base > 0 {
      WriteAtTwice(destination0, source);
    }
  }

  /**
   * One line of the CSV file (async_copy_measuring.c:93-152): the given label,
   * then one copy per slot count, each over the destination the previous one
   * left, each time stored in the given column of the table and appended to
   * the line, then the line end.  Repeating a copy changes nothing, so the
   * line leaves the destination as one run would.
   */
  method RowRuns(labelKb: nat, blockSize: nat, column: nat, csv: seq<CsvToken>,
                 source: seq<byte>, destination: seq<byte>,
                 readErrors: set<nat>, writeErrors: set<nat>, executionTimes: array2<Option<Run>>)
    returns (outcome: Outcome, csvOut: seq<CsvToken>, destinationOut: seq<byte>)
    requires column < 8 && executionTimes.Length0 == 8 && executionTimes.Length1 == 8
    modifies executionTimes
    ensures readErrors == {} && writeErrors == {} ==> outcome == Completed
    ensures outcome == Completed ==> csvOut == csv + ([Label(labelKb)] + Times(blockSize) + [EndOfRow])
    ensures outcome == Completed ==>
              destinationOut == if blockSize == 0 then destination else WriteAt(destination, 0, source)
    ensures outcome == Completed ==>
              forall o :: 0 <= o < 8 ==> executionTimes[o, column] == Some(Run(blockSize, Operations()[o]))
    ensures forall o, c :: 0 <= o < 8 && 0 <= c < 8 && c != column ==> executionTimes[o, c] == old(executionTimes[o, c])
  {
    var operations := Operations();
    csvOut := csv + [Label(labelKb)];
    ghost var fields := [];
    destinationOut := destination;
    for op := 0 to 8
      invariant fields == seq(op, o requires 0 <= o < op => Time(Run(blockSize, operations[o])))
      invariant csvOut == csv + [Label(labelKb)] + fields
      invariant destinationOut == if op == 0 || blockSize == 0 then destination else WriteAt(destination, 0, source)
      invariant forall o :: 0 <= o < op ==> executionTimes[o, column] == Some(Run(blockSize, operations[o]))
      invariant forall o, c :: 0 <= o < 8 && 0 <= c < 8 && c != column ==> executionTimes[o, c] == old(executionTimes[o, c])
    {
      var run, offset, ops;
      run, destinationOut, offset, ops :=
        RunCopy(source, destinationOut, readErrors, writeErrors, blockSize, operations[op]);
      if run == Aborted {
        outcome := Aborted;
        return;
      }
      if op > 0 && blockSize > 0 {
        WriteAtTwice(destination, source);
      }
      executionTimes[op, column] := Some(Run(blockSize, operations[op]));
      csvOut := csvOut + [Time(Run(blockSize, operations[op]))];
      fields := fields + [Time(Run(blockSize, operations[op]))];
    }
    assert fields == Times(blockSize);
    csvOut := csvOut + [EndOfRow];
    assert csvOut == csv + ([Label(labelKb)] + fields + [EndOfRow]);
    outcome := Completed;
  }

  /**
   * The sweep (async_copy_measuring.c:68-153): for each row index, write the
   * label (whose bs_index++ moves the index on), run the row with the block
   * size read before the increment, storing times at the incremented index,
   * then end the line.  An I/O error in any run ends the program.  A completed
   * sweep has written SweepCsv, filled the odd columns of the table with the
   * runs of the block size one to their left, and left the destination as
   * SweepDestination says.
   */
  method Sweep(kb: nat, source: seq<byte>, destination0: seq<byte>, readErrors: set<nat>, writeErrors: set<nat>)
    returns (outcome: Outcome, csv: seq<CsvToken>, executionTimes: array2<Option<Run>>, destination: seq<byte>)
    ensures fresh(executionTimes)
    ensures executionTimes.Length0 == 8 && executionTimes.Length1 == 8
    ensures readErrors == {} && writeErrors == {} ==> outcome == Completed
    ensures outcome == Completed ==> csv == SweepCsv(KbToBytes(kb))
    ensures outcome == Completed ==>
              forall op, b :: 0 <= op < 8 && 0 <= b < 8 ==> executionTimes[op, b] == SweepCell(KbToBytes(kb), op, b)
    ensures outcome == Completed ==> destination == SweepDestination(KbToBytes(kb), source, destination0)
  {
    var base := KbToBytes(kb);
    var blockSizes := BlockSizes(base);
    executionTimes := new Option<Run>[8, 8]((op, b) => None);
    csv := [Header];
    destination := destination0;
    var bsIndex := 0;
    ghost var half := 0;
    while bsIndex < 8
      invariant 0 <= bsIndex <= 8 && bsIndex == 2 * half
      invariant csv == SweepUpTo(base, half)
      invariant forall op, b :: 0 <= op < 8 && 0 <= b < 8 ==>
                  executionTimes[op, b] == if b < bsIndex then SweepCell(base, op, b) else None
      invariant destination == if bsIndex == 0 then destination0 else SweepDestination(base, source, destination0)
      decreases 8 - bsIndex
    {
      ghost var row := bsIndex;
      EvenBelowEight(row, half);
      var blockSize := blockSizes[bsIndex];
      var labelKb := RowLabel(bsIndex, blockSize);
      bsIndex := bsIndex + 1;
      label BeforeRow:
      ghost var before := destination;
      SweepPass(base, half, csv, labelKb, blockSize);
      outcome, csv, destination :=
        RowRuns(labelKb, blockSize, bsIndex, csv, source, destination, readErrors, writeErrors, executionTimes);
      if outcome == Aborted {
        return;
      }
      DestinationStep(base, row, source, destination0, before, destination);
      forall op, b | 0 <= op < 8 && 0 <= b < 8
        ensures executionTimes[op, b] == if b < row + 2 then SweepCell(base, op, b) else None
      {
        CellStep(base, row, half, op, b);
        if b != row + 1 {
          assert executionTimes[op, b] == old@BeforeRow(executionTimes[op, b]);
        }
      }
      bsIndex := bsIndex + 1;
      half := half + 1;
    }
    outcome := Completed;
  }
  // ---------------------------------------------------------------------------
  // What the sweep writes, stated outright.
  // ---------------------------------------------------------------------------

  /** Without wrap-around the block sizes are exactly the base times 1 to 8. */
  lemma BlockSizesExact(base: nat)
    requires 8 * base < SIZE_MODULUS
    ensures |BlockSizes(base)| == 8
    ensures forall k :: 0 <= k < 8 ==> BlockSizes(base)[k] == (k + 1) * base
  {
    forall k | 0 <= k < 8
      ensures BlockSizes(base)[k] == (k + 1) * base
    {
      Arith.MulMono(k + 1, 8, base);
    }
  }

  /** The file is the header and the rows of indices 0, 2, 4 and 6: 41 fields. */
  lemma SweepRows(base: nat)
    ensures SweepCsv(base) == [Header] + Row(base, 0) + Row(base, 2) + Row(base, 4) + Row(base, 6)
    ensures |SweepCsv(base)| == 41
  {
    assert SweepUpTo(base, 1) == [Header] + Row(base, 0);
    assert SweepUpTo(base, 2) == [Header] + Row(base, 0) + Row(base, 2);
    assert SweepUpTo(base, 3) == [Header] + Row(base, 0) + Row(base, 2) + Row(base, 4);
  }

  /**
   * Without wrap-around the four row labels are 0, 6, 20 and 42 times the KB
   * input: index times (index + 1) times the base, over 1024.
   */
  lemma RowLabels(kb: nat)
    requires 64 * 1024 * kb < SIZE_MODULUS
    ensures Row(KbToBytes(kb), 0)[0] == Label(0)
    ensures Row(KbToBytes(kb), 2)[0] == Label(6 * kb)
    ensures Row(KbToBytes(kb), 4)[0] == Label(20 * kb)
    ensures Row(KbToBytes(kb), 6)[0] == Label(42 * kb)
  {
    var base := KbToBytes(kb);
    assert base == 1024 * kb;
    BlockSizesExact(base);
    assert SizeMul(2, 3 * base) == 6 * kb * 1024;
    assert SizeMul(4, 5 * base) == 20 * kb * 1024;
    assert SizeMul(6, 7 * base) == 42 * kb * 1024;
  }

  // ---------------------------------------------------------------------------
  // The sweep as evidently intended: every block size gets a row labelled with
  // that block size in KB (the header says BlockSize(KB)), and its times go to
  // the table column of that block size.
  // ---------------------------------------------------------------------------

  /** The intended row for block size index b. */
  function FullRow(base: nat, b: nat): seq<CsvToken>
    requires b < 8
  {
    [Label(BlockSizes(base)[b] / 1024)] + Times(BlockSizes(base)[b]) + [EndOfRow]
  }

  /** The intended file after the first r passes, one row per block size index. */
  function FullUpTo(base: nat, r: nat): seq<CsvToken>
    requires r <= 8
  {
    if r == 0 then [Header] else FullUpTo(base, r - 1) + FullRow(base, r - 1)
  }

  /** The intended file. */
  function FullSweepCsv(base: nat): seq<CsvToken>
  {
    FullUpTo(base, 8)
  }

  /** The intended time-table cell: every cell holds the run of its own grid point. */
  function FullSweepCell(base: nat, op: nat, b: nat): Option<Run>
    requires op < 8 && b < 8
  {
    Some(Run(BlockSizes(base)[b], Operations()[op]))
  }

  /**
   * After r passes the intended file holds the header and r rows of 10 fields,
   * and row k starts with the label of block size k.
   */
  lemma {:induction false} FullUpToShape(base: nat, r: nat)
    requires r <= 8
    ensures |FullUpTo(base, r)| == 1 + 10 * r && FullUpTo(base, r)[0] == Header
    ensures forall k :: 0 <= k < r ==> FullUpTo(base, r)[1 + 10 * k] == Label(BlockSizes(base)[k] / 1024)
  {
    if r > 0 {
      FullUpToShape(base, r - 1);
      var prefix := FullUpTo(base, r - 1);
      assert FullUpTo(base, r) == prefix + FullRow(base, r - 1);
      assert |FullRow(base, r - 1)| == 10;
      assert FullUpTo(base, r)[1 + 10 * (r - 1)] == FullRow(base, r - 1)[0];
      forall k | 0 <= k < r - 1
        ensures FullUpTo(base, r)[1 + 10 * k] == Label(BlockSizes(base)[k] / 1024)
      {
        assert FullUpTo(base, r)[1 + 10 * k] == prefix[1 + 10 * k];
      }
    }
  }

  /** m times a block of kb KB, over 1024, is m * kb. */
  lemma KbMultiple(kb: nat, m: nat)
    ensures m * (kb * 1024) / 1024 == m * kb
  {
    assert m * (kb * 1024) == (m * kb) * 1024;
    Arith.ModOfMultiplePlus(m * kb, 1024, 0);
  }

  /** Without wrap-around the intended row b is labelled (b + 1) times the KB input. */
  lemma FullRowLabels(kb: nat)
    requires 8 * 1024 * kb < SIZE_MODULUS
    ensures forall b :: 0 <= b < 8 ==> FullRow(KbToBytes(kb), b)[0] == Label((b + 1) * kb)
  {
    var base := KbToBytes(kb);
    BlockSizesExact(base);
    forall b | 0 <= b < 8
      ensures FullRow(base, b)[0] == Label((b + 1) * kb)
    {
      KbMultiple(kb, b + 1);
    }
  }

  /**
   * The sweep as written loses half the grid: for a non-zero KB input its file
   * has 41 fields where the intended one has 81, its first label is 0 where a
   * block size of kb KB was meant, and column 0 of the table is never written.
   */
  lemma SweepSkipsBlockSizes(kb: nat)
    requires 0 < kb && 64 * 1024 * kb < SIZE_MODULUS
    ensures |SweepCsv(KbToBytes(kb))| == 41 && |FullSweepCsv(KbToBytes(kb))| == 81
    ensures SweepCsv(KbToBytes(kb))[1] == Label(0) && FullSweepCsv(KbToBytes(kb))[1] == Label(kb)
    ensures forall op :: 0 <= op < 8 ==> SweepCell(KbToBytes(kb), op, 0) == None != FullSweepCell(KbToBytes(kb), op, 0)
  {
    var base := KbToBytes(kb);
    SweepRows(base);
    RowLabels(kb);
    FullRowLabels(kb);
    FullUpToShape(base, 8);
    assert SweepCsv(base)[1] == Row(base, 0)[0];
  }

  /**
   * The corrected sweep: the loop header alone advances the index, each row is
   * labelled with its block size in KB, and its times go to its own column.
   * A completed sweep has written FullSweepCsv and every cell of the table.
   */
  method SweepAllBlockSizes(kb: nat, source: seq<byte>, destination0: seq<byte>,
                            readErrors: set<nat>, writeErrors: set<nat>)
    returns (outcome: Outcome, csv: seq<CsvToken>, executionTimes: array2<Option<Run>>, destination: seq<byte>)
    ensures fresh(executionTimes)
    ensures executionTimes.Length0 == 8 && executionTimes.Length1 == 8
    ensures readErrors == {} && writeErrors == {} ==> outcome == Completed
    ensures outcome == Completed ==> csv == FullSweepCsv(KbToBytes(kb))
    ensures outcome == Completed ==>
              forall op, b :: 0 <= op < 8 && 0 <= b < 8 ==> executionTimes[op, b] == FullSweepCell(KbToBytes(kb), op, b)
    ensures outcome == Completed ==> destination == SweepDestination(KbToBytes(kb), source, destination0)
  {
    var base := KbToBytes(kb);
    var blockSizes := BlockSizes(base);
    executionTimes := new Option<Run>[8, 8]((op, b) => None);
    csv := [Header];
    destination := destination0;
    outcome := Completed;
    for bsIndex := 0 to 8
      invariant outcome == Completed
      invariant csv == FullUpTo(base, bsIndex)
      invariant forall op, b :: 0 <= op < 8 && 0 <= b < 8 ==>
                  executionTimes[op, b] == if b < bsIndex then FullSweepCell(base, op, b) else None
      invariant destination == if bsIndex == 0 then destination0 else SweepDestination(base, source, destination0)
    {
      var blockSize := blockSizes[bsIndex];
      label BeforeRow:
      ghost var before := destination;
      outcome, csv, destination :=
        RowRuns(blockSize / 1024, blockSize, bsIndex, csv, source, destination, readErrors, writeErrors, executionTimes);
      if outcome == Aborted {
        return;
      }
      DestinationStep(base, bsIndex, source, destination0, before, destination);
      forall op, b | 0 <= op < 8 && 0 <= b < 8
        ensures executionTimes[op, b] == if b < bsIndex + 1 then FullSweepCell(base, op, b) else None
      {
        if b != bsIndex {
          assert executionTimes[op, b] == old@BeforeRow(executionTimes[op, b]);
        }
      }
    }
  }
}
