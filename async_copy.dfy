// The slot-based pipelined copy driver of async_copy.c: N control blocks,
// each with its own region of one arena, a shared read cursor, a batch barrier
// in which every read result is handled before any write result, and the
// ops_in_progress counter that ends the loop.

module AsyncCopy {
  import opened Aio
  import Arith

  /** How a copy run ends: the loop finished, or an I/O error made the program exit. */
  datatype Outcome = Completed | Aborted

  /**
   * block_size *= 1024 on a size_t (async_copy.c:124-125): the KB figure in
   * bytes, modulo 2^64; always a whole number of KB.
   */
  function KbToBytes(kb: nat): (bytes: nat)
    ensures bytes < SIZE_MODULUS
    ensures kb * 1024 < SIZE_MODULUS ==> bytes == kb * 1024
    ensures bytes % 1024 == 0
  {
    var q := (kb * 1024) / SIZE_MODULUS;
    assert kb * 1024 == q * SIZE_MODULUS + SizeMul(kb, 1024);
    assert SizeMul(kb, 1024) == (kb - q * 0x40_0000_0000_0000) * 1024;
    Arith.ModOfMultiplePlus(kb - q * 0x40_0000_0000_0000, 1024, 0);
    SizeMul(kb, 1024)
  }

  /** The number of blockSize blocks that hold size bytes (none when blocks are empty). */
  function Blocks(size: nat, blockSize: nat): nat
  {
    if blockSize == 0 then 0 else (size + blockSize - 1) / blockSize
  }

  /**
   * The value ops_in_progress stops at after w blocks were copied by n slots:
   * 0 when w is a multiple of n (no block at all included), otherwise
   * negative because retired slots are counted again.
   */
  function FinalOps(w: nat, n: nat): int
    requires n > 0
  {
    if w % n == 0 then 0 else w % n - n
  }

  /** The file offset of the k-th block. */
  function Offset(k: nat, blockSize: nat): nat
  {
    k * blockSize
  }

  /** None of the first count block offsets is one at which the operation fails. */
  ghost predicate Clean(errors: set<nat>, blockSize: nat, count: nat)
  {
    forall k :: 0 <= k < count ==> Offset(k, blockSize) !in errors
  }

  /** A longer clean run of offsets contains every shorter one. */
  lemma CleanMono(errors: set<nat>, blockSize: nat, c1: nat, c2: nat)
    requires c1 <= c2
    ensures Clean(errors, blockSize, c2) ==> Clean(errors, blockSize, c1)
  {
  }

  /** Every block that starts before the end of the file is among the first Blocks(size, blockSize). */
  lemma BlocksBound(size: nat, blockSize: nat, w: nat)
    requires blockSize > 0
    requires w == 0 || (w - 1) * blockSize < size
    ensures w <= Blocks(size, blockSize)
  {
    var q := Blocks(size, blockSize);
    var r := (size + blockSize - 1) % blockSize;
    assert size + blockSize - 1 == q * blockSize + r;
    if w > q {
      Arith.MulMono(q, w - 1, blockSize);
    }
  }

  // ---------------------------------------------------------------------------
  // The arena: slot i owns buffer + i * block_size (async_copy.c:149, 162, 191).
  // ---------------------------------------------------------------------------

  /**
   * Region i lies inside the block_size * n allocation, and regions of distinct
   * slots do not overlap.
   */
  lemma RegionsDisjoint(i: nat, j: nat, blockSize: nat, n: nat)
    requires i < n && j < n
    ensures i * blockSize + blockSize <= n * blockSize
    ensures i != j ==> i * blockSize + blockSize <= j * blockSize || j * blockSize + blockSize <= i * blockSize
  {
    Arith.MulMono(i + 1, n, blockSize);
    if i < j {
      Arith.MulMono(i + 1, j, blockSize);
    } else if j < i {
      Arith.MulMono(j + 1, i, blockSize);
    }
  }

  /** Slot k's block uses region k and moves no more than one block of bytes. */
  ghost predicate InRegion(cb: Aiocb, k: nat, blockSize: nat)
  {
    cb.buf == k * blockSize && DataLength(cb) <= blockSize
  }

  /** The bytes a block's last operation filled (or is writing) are the source's bytes at its offset. */
  ghost predicate SlotMirrors(cb: Aiocb, arena: seq<byte>, source: seq<byte>)
  {
    var n := DataLength(cb);
    n > 0 ==>
      0 <= cb.buf && cb.buf + n <= |arena| && 0 <= cb.offset && cb.offset + n <= |source| &&
      arena[cb.buf .. cb.buf + n] == source[cb.offset .. cb.offset + n]
  }

  /** The arena has block_size * n bytes and every slot's region mirrors the source. */
  ghost predicate Arena(cbs: seq<Aiocb>, arena: seq<byte>, source: seq<byte>, blockSize: nat, n: nat)
  {
    n <= |cbs| && |arena| == n * blockSize &&
    (forall k :: 0 <= k < n ==> InRegion(cbs[k], k, blockSize)) &&
    (forall k :: 0 <= k < n ==> SlotMirrors(cbs[k], arena, source))
  }

  /**
   * Refilling region i with the source bytes at offset keeps the arena
   * consistent once slot i's block records that read.
   */
  lemma ArenaAfterRead(cbs: seq<Aiocb>, before: seq<byte>, after: seq<byte>, source: seq<byte>,
                       blockSize: nat, n: nat, i: nat, cb: Aiocb)
    requires i < n <= |cbs| && |before| == |after| == n * blockSize
    requires forall k :: 0 <= k < n && k != i ==> InRegion(cbs[k], k, blockSize) || DataLength(cbs[k]) == 0
    requires forall k :: 0 <= k < n && k != i ==> SlotMirrors(cbs[k], before, source)
    requires forall p :: 0 <= p < |after| && !(i * blockSize <= p < i * blockSize + blockSize) ==> after[p] == before[p]
    requires InRegion(cb, i, blockSize) && SlotMirrors(cb, after, source)
    ensures forall k :: 0 <= k < n && k != i ==> SlotMirrors(cbs[k], after, source)
  {
    forall k | 0 <= k < n && k != i
      ensures SlotMirrors(cbs[k], after, source)
    {
      var len := DataLength(cbs[k]);
      if len > 0 {
        RegionsDisjoint(k, i, blockSize, n);
        assert after[cbs[k].buf .. cbs[k].buf + len] == before[cbs[k].buf .. cbs[k].buf + len];
      }
    }
  }

  /**
   * A block for slot i that stays in region i and mirrors the source keeps
   * the arena consistent when it replaces slot i's block.
   */
  lemma ArenaUpdate(cbs: seq<Aiocb>, arena: seq<byte>, source: seq<byte>, blockSize: nat, n: nat, i: nat, cb: Aiocb)
    requires Arena(cbs, arena, source, blockSize, n) && i < n
    requires InRegion(cb, i, blockSize) && SlotMirrors(cb, arena, source)
    ensures Arena(cbs[i := cb], arena, source, blockSize, n)
  {
  }

  // ---------------------------------------------------------------------------
  // Slot states between the phases of one loop pass.
  // ---------------------------------------------------------------------------

  /** Slots 0..hi-1 carry reads of one block each, slot i at cursor + i * block_size. */
  ghost predicate Issued(aio: AioContext, cbs: seq<Aiocb>, cursor: nat, blockSize: nat, hi: nat)
  {
    hi <= |cbs| &&
    forall i :: 0 <= i < hi ==> cbs[i] == aio.ReadBlock(cursor + i * blockSize, i * blockSize, blockSize)
  }

  /** Slots lo..hi-1 hold a read that returned 0: end of file reached, or a stale result. */
  ghost predicate Retired(cbs: seq<Aiocb>, lo: nat, hi: nat)
  {
    hi <= |cbs| &&
    forall i :: lo <= i < hi ==> cbs[i].opcode == Read && cbs[i].ret == 0
  }

  /** Slots 0..hi-1 write back, at the same offset and from the same region, what they read. */
  ghost predicate Writing(aio: AioContext, cbs: seq<Aiocb>, base: nat, blockSize: nat, hi: nat)
  {
    hi <= |cbs| &&
    forall i :: 0 <= i < hi ==>
      cbs[i] == aio.WriteBlock(base + i * blockSize, i * blockSize, ReadCount(|aio.source|, base + i * blockSize, blockSize))
  }

  /** No block among the first n completed with an I/O error. */
  ghost predicate NoErrors(cbs: seq<Aiocb>, n: nat)
  {
    n <= |cbs| && forall i :: 0 <= i < n ==> cbs[i].ret != -1
  }

  /** The read of slot i, issued at base + i * block_size, finds data. */
  ghost predicate SlotLive(size: nat, blockSize: nat, base: nat, i: nat)
  {
    blockSize > 0 && base + i * blockSize < size
  }

  /**
   * How many of the slots 0..a-1 reading from base find data; since the
   * offsets grow with the slot index, they are a prefix of the slots.
   */
  ghost function LiveSlots(size: nat, blockSize: nat, base: nat, a: nat): (p: nat)
    ensures p <= a
    ensures forall i :: 0 <= i < a ==> (i < p <==> SlotLive(size, blockSize, base, i))
    decreases a
  {
    if a == 0 then 0
    else if SlotLive(size, blockSize, base, a - 1) then
      assert forall i :: 0 <= i < a ==> SlotLive(size, blockSize, base, i) by {
        forall i | 0 <= i < a ensures SlotLive(size, blockSize, base, i) {
          Arith.MulMono(i, a - 1, blockSize);
        }
      }
      a
    else LiveSlots(size, blockSize, base, a - 1)
  }

  // ---------------------------------------------------------------------------
  // The driver.
  // ---------------------------------------------------------------------------

  /**
   * aio_read_setup for slot i at the cursor into region i, with the arena kept
   * consistent: the read lands in region i only.
   */
  method ReadIntoSlot(aio: AioContext, buffer: array<byte>, blockSize: nat, n: nat, i: nat, offset: nat)
    requires i < n <= aio.aiocbList.Length && buffer.Length == n * blockSize
    requires forall k :: 0 <= k < n && k != i ==>
               InRegion(aio.aiocbList[k], k, blockSize) || DataLength(aio.aiocbList[k]) == 0
    requires forall k :: 0 <= k < n && k != i ==> SlotMirrors(aio.aiocbList[k], buffer[..], aio.source)
    modifies aio.aiocbList, buffer
    ensures aio.aiocbList[..] == old(aio.aiocbList[..])[i := aio.ReadBlock(offset, i * blockSize, blockSize)]
    ensures InRegion(aio.aiocbList[i], i, blockSize)
    ensures forall q :: 0 <= q < buffer.Length && !(i * blockSize <= q < i * blockSize + blockSize) ==>
              buffer[q] == old(buffer[q])
    ensures forall k :: 0 <= k < n ==> SlotMirrors(aio.aiocbList[k], buffer[..], aio.source)
  {
    RegionsDisjoint(i, i, blockSize, n);
    ghost var cbs := aio.aiocbList[..];
    ghost var before := buffer[..];
    aio.ReadSetup(i, offset, buffer, i * blockSize, blockSize);
    ghost var cb := aio.aiocbList[i];
    assert forall p :: 0 <= p < buffer.Length && !(i * blockSize <= p < i * blockSize + blockSize) ==>
             buffer[..][p] == before[p];
    assert SlotMirrors(cb, buffer[..], aio.source);
    ArenaAfterRead(cbs, before, buffer[..], aio.source, blockSize, n, i, cb);
    assert aio.aiocbList[..] == cbs[i := cb];
  }

  /**
   * The first batch (async_copy.c:159-164): slot i reads block i into region i,
   * and the cursor ends at n * block_size.
   */
  method InitialReads(aio: AioContext, buffer: array<byte>, blockSize: nat, n: nat) returns (offset: nat)
    requires 1 <= n <= aio.aiocbList.Length
    requires buffer.Length == n * blockSize
    requires forall k :: 0 <= k < n ==> DataLength(aio.aiocbList[k]) == 0
    modifies aio.aiocbList, buffer
    ensures Arena(aio.aiocbList[..], buffer[..], aio.source, blockSize, n)
    ensures Issued(aio, aio.aiocbList[..], 0, blockSize, n)
    ensures offset == n * blockSize
    ensures forall k :: n <= k < aio.aiocbList.Length ==> aio.aiocbList[k] == old(aio.aiocbList[k])
  {
    offset := 0;
    for i := 0 to n
      invariant offset == i * blockSize
      invariant Issued(aio, aio.aiocbList[..], 0, blockSize, i)
      invariant forall k :: 0 <= k < i ==> InRegion(aio.aiocbList[k], k, blockSize)
      invariant forall k :: i <= k < n ==> DataLength(aio.aiocbList[k]) == 0
      invariant forall k :: i <= k < aio.aiocbList.Length ==> aio.aiocbList[k] == old(aio.aiocbList[k])
      invariant forall k :: 0 <= k < n ==> SlotMirrors(aio.aiocbList[k], buffer[..], aio.source)
    {
      ReadIntoSlot(aio, buffer, blockSize, n, i, offset);
      Arith.Distrib(i, 1, blockSize);
      offset := offset + blockSize;
    }
  }

  /**
   * In the read half of a pass, a slot's result is positive exactly when it is
   * one of the live slots; every other slot reports 0.
   */
  lemma ReadResultLive(aio: AioContext, cbs: seq<Aiocb>, base: nat, blockSize: nat, a: nat, n: nat, i: nat)
    requires a <= n <= |cbs| && i < n
    requires Issued(aio, cbs, base, blockSize, a) && Retired(cbs, a, n) && NoErrors(cbs, n)
    ensures cbs[i].ret > 0 <==> i < LiveSlots(|aio.source|, blockSize, base, a)
    ensures i >= LiveSlots(|aio.source|, blockSize, base, a) ==> cbs[i].opcode == Read && cbs[i].ret == 0
  {
    if i < a {
      assert SlotLive(|aio.source|, blockSize, base, i) <==> i < LiveSlots(|aio.source|, blockSize, base, a);
    }
  }

  /**
   * aio_write_setup for slot i after its read returned bytes_read > 0: the same
   * offset, the same region, exactly bytes_read bytes (async_copy.c:173-177).
   * The destination's copied prefix grows by those bytes.
   */
  method WriteBack(aio: AioContext, buffer: array<byte>, blockSize: nat, n: nat, i: nat,
                   ghost destination0: seq<byte>)
    requires i < n <= aio.aiocbList.Length
    requires Arena(aio.aiocbList[..], buffer[..], aio.source, blockSize, n)
    requires aio.aiocbList[i].opcode == Read && aio.aiocbList[i].ret > 0
    requires aio.destination == WriteAt(destination0, 0, aio.source[..aio.aiocbList[i].offset])
    modifies aio, aio.aiocbList
    ensures aio.aiocbList[..] == old(aio.aiocbList[..])[i :=
              aio.WriteBlock(old(aio.aiocbList[i].offset), i * blockSize, old(aio.aiocbList[i].ret))]
    ensures Arena(aio.aiocbList[..], buffer[..], aio.source, blockSize, n)
    ensures aio.destination ==
              WriteAt(destination0, 0, aio.source[..old(aio.aiocbList[i].offset) + old(aio.aiocbList[i].ret)])
  {
    var cb := aio.aiocbList[i];
    ghost var cbs := aio.aiocbList[..];
    assert cb == cbs[i];
    RegionsDisjoint(i, i, blockSize, n);
    assert SlotMirrors(cb, buffer[..], aio.source);
    ghost var data := buffer[cb.buf .. cb.buf + cb.ret];
    assert data == buffer[..][cb.buf .. cb.buf + cb.ret];
    assert data == aio.source[cb.offset .. cb.offset + cb.ret];
    ghost var prefix := aio.source[..cb.offset];
    aio.WriteSetup(i, cb.offset, buffer, cb.buf, cb.ret);
    assert aio.destination == WriteAt(WriteAt(destination0, 0, prefix), cb.offset, data);
    WriteAtExtends(destination0, aio.source, cb.offset, cb.offset + cb.ret);
    ghost var wcb := aio.WriteBlock(cb.offset, i * blockSize, cb.ret);
    assert wcb.buf == cb.buf && wcb.offset == cb.offset && DataLength(wcb) == DataLength(cb);
    ArenaUpdate(cbs, buffer[..], aio.source, blockSize, n, i, wcb);
  }

  /**
   * Slot i of the read half (async_copy.c:173-183): a positive bytes_read is
   * written back, a zero costs one ops_in_progress.
   */
  method ReadStep(aio: AioContext, buffer: array<byte>, blockSize: nat, n: nat,
                  ghost base: nat, ghost a: nat, ghost destination0: seq<byte>, ghost cbs: seq<Aiocb>,
                  i: nat, ghost covered: nat, ops: int)
    returns (ghost coveredOut: nat, opsOut: int)
    requires 1 <= n <= aio.aiocbList.Length == |cbs| && a <= n && i < n
    requires Issued(aio, cbs, base, blockSize, a) && Retired(cbs, a, n) && NoErrors(cbs, n)
    requires Arena(aio.aiocbList[..], buffer[..], aio.source, blockSize, n)
    requires Writing(aio, aio.aiocbList[..], base, blockSize, Min(i, LiveSlots(|aio.source|, blockSize, base, a)))
    requires forall k :: Min(i, LiveSlots(|aio.source|, blockSize, base, a)) <= k < |cbs| ==> aio.aiocbList[k] == cbs[k]
    requires covered == Min(base + Min(i, LiveSlots(|aio.source|, blockSize, base, a)) * blockSize, |aio.source|)
    requires aio.destination == WriteAt(destination0, 0, aio.source[..covered])
    modifies aio, aio.aiocbList
    ensures Arena(aio.aiocbList[..], buffer[..], aio.source, blockSize, n)
    ensures Writing(aio, aio.aiocbList[..], base, blockSize, Min(i + 1, LiveSlots(|aio.source|, blockSize, base, a)))
    ensures forall k :: Min(i + 1, LiveSlots(|aio.source|, blockSize, base, a)) <= k < |cbs| ==> aio.aiocbList[k] == cbs[k]
    ensures coveredOut == Min(base + Min(i + 1, LiveSlots(|aio.source|, blockSize, base, a)) * blockSize, |aio.source|)
    ensures aio.destination == WriteAt(destination0, 0, aio.source[..coveredOut])
    ensures opsOut == if i < LiveSlots(|aio.source|, blockSize, base, a) then ops else ops - 1
  {
    ghost var size := |aio.source|;
    ghost var p := LiveSlots(size, blockSize, base, a);
    var bytesRead := aio.aiocbList[i].ret;
    assert aio.aiocbList[i] == cbs[i];
    ReadResultLive(aio, cbs, base, blockSize, a, n, i);
    opsOut := ops;
    coveredOut := covered;
    if bytesRead > 0 {
      ghost var off := base + i * blockSize;
      assert off < size && Min(i, p) == i;
      WriteBack(aio, buffer, blockSize, n, i, destination0);
      Arith.Distrib(i, 1, blockSize);
      coveredOut := off + bytesRead;
    } else {
      opsOut := opsOut - 1;
    }
  }

  /**
   * The read half of a pass (async_copy.c:172-184): a slot whose read returned
   * bytes_read > 0 writes exactly those bytes at the same offset from the same
   * region; a slot whose read returned 0 gets nothing new and costs one
   * ops_in_progress.  The live slots form a prefix and their writes extend the
   * copied prefix of the destination.
   */
  method HandleReadCompletions(aio: AioContext, buffer: array<byte>, blockSize: nat, n: nat,
                               ghost base: nat, ghost a: nat, ghost destination0: seq<byte>, ops: int)
    returns (opsOut: int)
    requires 1 <= n <= aio.aiocbList.Length && a <= n
    requires Arena(aio.aiocbList[..], buffer[..], aio.source, blockSize, n)
    requires Issued(aio, aio.aiocbList[..], base, blockSize, a) && Retired(aio.aiocbList[..], a, n)
    requires NoErrors(aio.aiocbList[..], n)
    requires aio.destination == WriteAt(destination0, 0, aio.source[..Min(base, |aio.source|)])
    modifies aio, aio.aiocbList
    ensures Arena(aio.aiocbList[..], buffer[..], aio.source, blockSize, n)
    ensures Writing(aio, aio.aiocbList[..], base, blockSize, LiveSlots(|aio.source|, blockSize, base, a))
    ensures Retired(aio.aiocbList[..], LiveSlots(|aio.source|, blockSize, base, a), n)
    ensures aio.destination == WriteAt(destination0, 0,
              aio.source[..Min(base + LiveSlots(|aio.source|, blockSize, base, a) * blockSize, |aio.source|)])
    ensures opsOut == ops - (n - LiveSlots(|aio.source|, blockSize, base, a))
    ensures forall k :: LiveSlots(|aio.source|, blockSize, base, a) <= k < aio.aiocbList.Length ==>
              aio.aiocbList[k] == old(aio.aiocbList[k])
  {
    ghost var p := LiveSlots(|aio.source|, blockSize, base, a);
    ghost var cbs := aio.aiocbList[..];
    ghost var covered := Min(base, |aio.source|);
    opsOut := ops;
    for i := 0 to n
      invariant Arena(aio.aiocbList[..], buffer[..], aio.source, blockSize, n)
      invariant Writing(aio, aio.aiocbList[..], base, blockSize, Min(i, p))
      invariant forall k :: Min(i, p) <= k < |cbs| ==> aio.aiocbList[k] == cbs[k]
      invariant covered == Min(base + Min(i, p) * blockSize, |aio.source|)
      invariant aio.destination == WriteAt(destination0, 0, aio.source[..covered])
      invariant opsOut == ops - (i - Min(i, p))
    {
      covered, opsOut := ReadStep(aio, buffer, blockSize, n, base, a, destination0, cbs, i, covered, opsOut);
    }
    forall k | p <= k < n
      ensures aio.aiocbList[k].opcode == Read && aio.aiocbList[k].ret == 0
    {
      ReadResultLive(aio, cbs, base, blockSize, a, n, k);
    }
  }

  /**
   * The write half of a pass (async_copy.c:186-194): a slot whose write
   * returned > 0 reads the next block at the shared cursor into its own region
   * and the cursor moves on by block_size; a retired slot's stale 0 issues
   * nothing.
   */
  method HandleWriteCompletions(aio: AioContext, buffer: array<byte>, blockSize: nat, n: nat,
                                ghost base: nat, ghost p: nat, offset: nat)
    returns (offsetOut: nat)
    requires 1 <= n <= aio.aiocbList.Length && p <= n
    requires Arena(aio.aiocbList[..], buffer[..], aio.source, blockSize, n)
    requires Writing(aio, aio.aiocbList[..], base, blockSize, p) && Retired(aio.aiocbList[..], p, n)
    requires forall i :: 0 <= i < p ==> SlotLive(|aio.source|, blockSize, base, i)
    requires NoErrors(aio.aiocbList[..], n)
    modifies aio.aiocbList, buffer
    ensures Arena(aio.aiocbList[..], buffer[..], aio.source, blockSize, n)
    ensures Issued(aio, aio.aiocbList[..], offset, blockSize, p) && Retired(aio.aiocbList[..], p, n)
    ensures offsetOut == offset + p * blockSize
    ensures forall k :: p <= k < aio.aiocbList.Length ==> aio.aiocbList[k] == old(aio.aiocbList[k])
  {
    ghost var cbs := aio.aiocbList[..];
    offsetOut := offset;
    for i := 0 to n
      invariant Arena(aio.aiocbList[..], buffer[..], aio.source, blockSize, n)
      invariant Issued(aio, aio.aiocbList[..], offset, blockSize, Min(i, p))
      invariant forall k :: Min(i, p) <= k < aio.aiocbList.Length ==> aio.aiocbList[k] == cbs[k]
      invariant offsetOut == offset + Min(i, p) * blockSize
    {
      var bytesWritten := aio.aiocbList[i].ret;
      assert aio.aiocbList[i] == cbs[i];
      assert bytesWritten > 0 <==> i < p by {
        if i < p {
          assert SlotLive(|aio.source|, blockSize, base, i);
        }
      }
      if bytesWritten > 0 {
        assert i < p && Min(i, p) == i && Min(i + 1, p) == i + 1;
        assert offsetOut == offset + i * blockSize;
        ReadIntoSlot(aio, buffer, blockSize, n, i, offsetOut);
        Arith.Distrib(i, 1, blockSize);
        offsetOut := offsetOut + blockSize;
      }
    }
  }

  /**
   * The first wait of a pass (async_copy.c:171) succeeds exactly when none of
   * the reads issued so far was at a failing offset.
   */
  lemma ReadWaitClean(aio: AioContext, cbs: seq<Aiocb>, done: nat, blockSize: nat, a: nat, n: nat)
    requires a <= n <= |cbs|
    requires Issued(aio, cbs, done * blockSize, blockSize, a) && Retired(cbs, a, n)
    requires Clean(aio.readErrors, blockSize, done)
    ensures NoErrors(cbs, n) <==> Clean(aio.readErrors, blockSize, done + a)
  {
    forall i | 0 <= i < a
      ensures done * blockSize + i * blockSize == Offset(done + i, blockSize)
    {
      Arith.Distrib(done, i, blockSize);
    }
    if NoErrors(cbs, n) {
      forall k | done <= k < done + a
        ensures Offset(k, blockSize) !in aio.readErrors
      {
        assert cbs[k - done].ret != -1;
      }
    }
  }

  /**
   * The second wait of a pass (async_copy.c:185) succeeds exactly when none of
   * the writes issued so far was at a failing offset.
   */
  lemma WriteWaitClean(aio: AioContext, cbs: seq<Aiocb>, w: nat, blockSize: nat, p: nat, n: nat)
    requires p <= n <= |cbs|
    requires Writing(aio, cbs, w * blockSize, blockSize, p) && Retired(cbs, p, n)
    requires Clean(aio.writeErrors, blockSize, w)
    ensures NoErrors(cbs, n) <==> Clean(aio.writeErrors, blockSize, w + p)
  {
    forall i | 0 <= i < p
      ensures w * blockSize + i * blockSize == Offset(w + i, blockSize)
    {
      Arith.Distrib(w, i, blockSize);
    }
    if NoErrors(cbs, n) {
      forall k | w <= k < w + p
        ensures Offset(k, blockSize) !in aio.writeErrors
      {
        assert cbs[k - w].ret != -1;
      }
    }
  }

  /**
   * What LiveSlots says about the boundary of the live prefix: the last live
   * slot starts before the end of the file and the first dead one does not.
   */
  lemma LiveFacts(size: nat, blockSize: nat, base: nat, a: nat)
    ensures var p := LiveSlots(size, blockSize, base, a);
      p <= a &&
      (p > 0 ==> blockSize > 0 && base + (p - 1) * blockSize < size) &&
      (p < a ==> blockSize == 0 || base + p * blockSize >= size)
  {
    var p := LiveSlots(size, blockSize, base, a);
    if p > 0 {
      assert SlotLive(size, blockSize, base, p - 1);
    }
    if p < a {
      assert !SlotLive(size, blockSize, base, p);
    }
  }

  /**
   * The counting of one pass in which p of the a busy slots find data: which
   * slots stay busy, how many blocks have been written, what ops_in_progress
   * becomes, and that the run makes progress.
   */
  lemma PassArith(size: nat, blockSize: nat, writes: nat, n: nat, a: nat, done: nat, t: nat, p: nat,
                  ops: int, opsOut: int)
    requires 1 <= n && a <= n && done == writes + n - a
    requires a < n ==> blockSize == 0 || writes * blockSize >= size
    requires writes == 0 || (writes - 1) * blockSize < size
    requires blockSize == 0 ==> writes == 0
    requires ops > 0 && ops == a && done == t * n
    requires p <= a
    requires p > 0 ==> blockSize > 0 && done * blockSize + (p - 1) * blockSize < size
    requires p < a ==> blockSize == 0 || done * blockSize + p * blockSize >= size
    requires opsOut == ops - (n - p)
    ensures p < n ==> blockSize == 0 || (writes + p) * blockSize >= size
    ensures writes + p == 0 || (writes + p - 1) * blockSize < size
    ensures blockSize == 0 ==> p == 0
    ensures opsOut > 0 ==> opsOut == p && writes + n == (t + 1) * n
    ensures opsOut <= 0 ==> p == 0 && opsOut == FinalOps(writes, n)
    ensures Min(done * blockSize + p * blockSize, size) == Min((writes + n) * blockSize, size)
    ensures opsOut < ops || (done * blockSize < size && done * blockSize < (writes + n) * blockSize)
    ensures p > 0 ==> a == n && done == writes
    ensures (writes + n) * blockSize + p * blockSize == (writes + p + n) * blockSize
  {
    Arith.MulMono(writes, done, blockSize);
    Arith.Distrib(writes + n, p, blockSize);
    if p > 0 {
      assert a == n && done == writes;
      PassLive(size, blockSize, writes, n, t, p);
    } else {
      PassDead(size, blockSize, writes, n, a, done, t);
    }
  }

  /** A pass in which the first p slots, p > 0, find data: a full batch was in flight. */
  lemma PassLive(size: nat, blockSize: nat, writes: nat, n: nat, t: nat, p: nat)
    requires 1 <= n && writes == t * n && 0 < p <= n && blockSize > 0
    requires writes * blockSize + (p - 1) * blockSize < size
    requires p < n ==> writes * blockSize + p * blockSize >= size
    ensures p < n ==> (writes + p) * blockSize >= size
    ensures (writes + p - 1) * blockSize < size
    ensures writes + n == (t + 1) * n
    ensures Min(writes * blockSize + p * blockSize, size) == Min((writes + n) * blockSize, size)
    ensures p == n ==> writes * blockSize < size && writes * blockSize < (writes + n) * blockSize
  {
    Arith.Distrib(t, 1, n);
    Arith.Distrib(writes, p - 1, blockSize);
    Arith.Distrib(writes, p, blockSize);
    Arith.Distrib(writes, n, blockSize);
    if p < n {
      Arith.MulMono(p, n, blockSize);
    } else {
      Arith.MulStrict(writes, writes + n, blockSize);
    }
  }

  /**
   * A pass in which no slot finds data: every slot is retired and
   * ops_in_progress reaches its final value.
   */
  lemma PassDead(size: nat, blockSize: nat, writes: nat, n: nat, a: nat, done: nat, t: nat)
    requires 1 <= n && 0 < a <= n && done == writes + n - a
    requires a < n ==> blockSize == 0 || writes * blockSize >= size
    requires blockSize == 0 || done * blockSize >= size
    requires done == t * n
    ensures a - n <= 0 && a - n == FinalOps(writes, n)
    ensures Min(done * blockSize, size) == Min((writes + n) * blockSize, size)
  {
    Arith.MulMono(done, writes + n, blockSize);
    if a == n {
      assert writes == t * n + 0;
      Arith.ModOfMultiplePlus(t, n, 0);
    } else {
      Arith.Distrib(t, -1, n);
      assert writes == (t - 1) * n + a;
      Arith.ModOfMultiplePlus(t - 1, n, a);
    }
  }

  /** The loop condition's counter, clipped at zero: what a pass can still use up. */
  function Clip(ops: int): nat
  {
    if ops > 0 then ops else 0
  }

  /** The bytes between the cursor after done blocks and the end of the file. */
  function Distance(done: nat, blockSize: nat, size: nat): nat
  {
    if done * blockSize < size then size - done * blockSize else 0
  }

  /**
   * The state at the top of the main loop (async_copy.c:169) after writes
   * blocks have been copied: slots 0..a-1 carry the reads of blocks
   * done..done+a-1, the rest are retired, the cursor is writes + n blocks in,
   * the destination holds the source's first done blocks, no operation so far
   * has failed, and ops_in_progress is the number of busy slots or, once the
   * loop is over, its final value.
   */
  ghost predicate Loop(aio: AioContext, cbs: seq<Aiocb>, arena: seq<byte>, destination0: seq<byte>,
                       blockSize: nat, n: nat, writes: nat, a: nat, done: nat, t: nat, ops: int, offset: nat)
    reads aio
  {
    var size := |aio.source|;
    1 <= n <= |cbs| && a <= n && writes <= Blocks(size, blockSize) && done == writes + n - a &&
    Arena(cbs, arena, aio.source, blockSize, n) &&
    Issued(aio, cbs, done * blockSize, blockSize, a) && Retired(cbs, a, n) &&
    offset == (writes + n) * blockSize &&
    (a < n ==> blockSize == 0 || writes * blockSize >= size) &&
    (writes == 0 || (writes - 1) * blockSize < size) &&
    (blockSize == 0 ==> writes == 0) &&
    aio.destination == WriteAt(destination0, 0, aio.source[..Min(done * blockSize, size)]) &&
    Clean(aio.readErrors, blockSize, done) && Clean(aio.writeErrors, blockSize, writes) &&
    (ops > 0 ==> ops == a && done == t * n) &&
    (ops <= 0 ==> a == 0 && ops == FinalOps(writes, n))
  }

  /**
   * The state between the two halves of a pass (async_copy.c:185): the first
   * p slots write back blocks writes..writes+p-1, the rest are retired, the
   * destination already holds the source up to the cursor, and
   * ops_in_progress has its value for the next evaluation of the loop condition.
   */
  ghost predicate Mid(aio: AioContext, cbs: seq<Aiocb>, arena: seq<byte>, destination0: seq<byte>,
                      blockSize: nat, n: nat, writes: nat, p: nat, t: nat, ops: int, offset: nat)
    reads aio
  {
    var size := |aio.source|;
    n <= |cbs| && MidCounts(size, blockSize, n, writes, p, t, ops, offset) &&
    Arena(cbs, arena, aio.source, blockSize, n) &&
    Writing(aio, cbs, writes * blockSize, blockSize, p) && Retired(cbs, p, n) &&
    (forall i :: 0 <= i < p ==> SlotLive(size, blockSize, writes * blockSize, i)) &&
    aio.destination == WriteAt(destination0, 0, aio.source[..Min((writes + n) * blockSize, size)]) &&
    Clean(aio.readErrors, blockSize, writes + n) && Clean(aio.writeErrors, blockSize, writes)
  }

  /**
   * The counters between the two halves of a pass: p of the n slots are
   * writing blocks writes..writes+p-1, the cursor is writes + n blocks in,
   * and ops_in_progress has its value for the next evaluation of the loop condition.
   */
  ghost predicate MidCounts(size: nat, blockSize: nat, n: nat, writes: nat, p: nat, t: nat, ops: int, offset: nat)
  {
    1 <= n && p <= n && writes + p <= Blocks(size, blockSize) &&
    offset == (writes + n) * blockSize &&
    (writes + n) * blockSize + p * blockSize == (writes + p + n) * blockSize &&
    (p < n ==> blockSize == 0 || (writes + p) * blockSize >= size) &&
    (writes + p == 0 || (writes + p - 1) * blockSize < size) &&
    (blockSize == 0 ==> writes + p == 0) &&
    (ops > 0 ==> ops == p && writes + n == (t + 1) * n) &&
    (ops <= 0 ==> p == 0 && ops == FinalOps(writes, n))
  }

  /**
   * When ops_in_progress is no longer positive, every block has been copied:
   * the destination holds the whole source at its start (nothing, when blocks
   * are empty), the cursor is one batch past the last block, the counter has
   * its final value, and every read and write issued was at a good offset.
   */
  lemma LoopExit(aio: AioContext, cbs: seq<Aiocb>, arena: seq<byte>, destination0: seq<byte>,
                 blockSize: nat, n: nat, writes: nat, a: nat, done: nat, t: nat, ops: int, offset: nat)
    requires Loop(aio, cbs, arena, destination0, blockSize, n, writes, a, done, t, ops, offset)
    requires ops <= 0
    ensures aio.destination == if blockSize == 0 then destination0 else WriteAt(destination0, 0, aio.source)
    ensures offset == (n + Blocks(|aio.source|, blockSize)) * blockSize
    ensures ops == FinalOps(Blocks(|aio.source|, blockSize), n)
    ensures Clean(aio.readErrors, blockSize, n + Blocks(|aio.source|, blockSize))
    ensures Clean(aio.writeErrors, blockSize, Blocks(|aio.source|, blockSize))
  {
    var size := |aio.source|;
    assert done == writes + n;
    if blockSize > 0 {
      Arith.CeilingUnique(size, blockSize, writes);
      Arith.MulMono(writes, writes + n, blockSize);
      assert Min(done * blockSize, size) == size;
      assert aio.source[..size] == aio.source;
    } else {
      assert done * blockSize == 0;
      assert aio.source[..0] == [];
      WriteAtNothing(destination0, 0);
    }
  }

  /**
   * The counting of a pass once every read has been handled: the counters
   * between the halves, the copied prefix, and progress of the run.
   */
  lemma CountsAfterReads(size: nat, blockSize: nat, writes: nat, n: nat, a: nat, done: nat, t: nat, p: nat,
                         ops: int, opsOut: int, offset: nat)
    requires 1 <= n && a <= n && writes <= Blocks(size, blockSize) && done == writes + n - a
    requires offset == (writes + n) * blockSize
    requires a < n ==> blockSize == 0 || writes * blockSize >= size
    requires writes == 0 || (writes - 1) * blockSize < size
    requires blockSize == 0 ==> writes == 0
    requires ops > 0 && ops == a && done == t * n
    requires p <= a
    requires p > 0 ==> blockSize > 0 && done * blockSize + (p - 1) * blockSize < size
    requires p < a ==> blockSize == 0 || done * blockSize + p * blockSize >= size
    requires opsOut == ops - (n - p)
    ensures MidCounts(size, blockSize, n, writes, p, t, opsOut, offset)
    ensures Min(done * blockSize + p * blockSize, size) == Min((writes + n) * blockSize, size)
    ensures p > 0 ==> done == writes
    ensures Clip(opsOut) < Clip(ops) ||
            (Clip(opsOut) == Clip(ops) && Distance(writes + n, blockSize, size) < Distance(done, blockSize, size))
  {
    PassArith(size, blockSize, writes, n, a, done, t, p, ops, opsOut);
    if p > 0 {
      BlocksBound(size, blockSize, writes + p);
    }
    if Clip(opsOut) == Clip(ops) {
      assert done * blockSize < size && done * blockSize < (writes + n) * blockSize;
    }
  }

  /**
   * The read half of a pass (async_copy.c:171-184): wait for the reads, stop
   * on an I/O error, otherwise turn every read that found data into a write.
   * The pass makes progress: ops_in_progress drops, or the reads began before
   * the end of the file and the cursor moves on.
   */
  method ReadHalf(aio: AioContext, buffer: array<byte>, blockSize: nat, n: nat, ghost destination0: seq<byte>,
                  ghost writes: nat, ghost a: nat, ghost done: nat, ghost t: nat, ops: int, ghost offset: nat)
    returns (ok: bool, opsOut: int, ghost p: nat)
    requires buffer.Length == n * blockSize
    requires Loop(aio, aio.aiocbList[..], buffer[..], destination0, blockSize, n, writes, a, done, t, ops, offset)
    requires ops > 0
    modifies aio, aio.aiocbList
    ensures !ok ==> !Clean(aio.readErrors, blockSize, n + Blocks(|aio.source|, blockSize))
    ensures ok ==> Mid(aio, aio.aiocbList[..], buffer[..], destination0, blockSize, n, writes, p, t, opsOut, offset)
    ensures ok ==> Clip(opsOut) < Clip(ops) ||
                   (Clip(opsOut) == Clip(ops) &&
                    Distance(writes + n, blockSize, |aio.source|) < Distance(done, blockSize, |aio.source|))
  {
    ghost var size := |aio.source|;
    ghost var base := done * blockSize;
    p := LiveSlots(size, blockSize, base, a);
    LiveFacts(size, blockSize, base, a);
    opsOut := ops;
    ok := aio.WaitForAioOperations(n);
    ReadWaitClean(aio, aio.aiocbList[..], done, blockSize, a, n);
    CleanMono(aio.readErrors, blockSize, writes + n, n + Blocks(size, blockSize));
    if !ok {
      assert !NoErrors(aio.aiocbList[..], n);
      return;
    }
    assert NoErrors(aio.aiocbList[..], n);
    opsOut := HandleReadCompletions(aio, buffer, blockSize, n, base, a, destination0, ops);
    CountsAfterReads(size, blockSize, writes, n, a, done, t, p, ops, opsOut, offset);
    if p > 0 {
      assert base == writes * blockSize;
    }
  }

  /**
   * The write half of a pass (async_copy.c:185-194): wait for the writes,
   * stop on an I/O error, otherwise give every slot that wrote data the next
   * block at the cursor; the loop state holds again with p more blocks copied.
   */
  method WriteHalf(aio: AioContext, buffer: array<byte>, blockSize: nat, n: nat, ghost destination0: seq<byte>,
                   ghost writes: nat, ghost p: nat, ghost t: nat, ghost ops: int, offset: nat)
    returns (ok: bool, offsetOut: nat)
    requires buffer.Length == n * blockSize
    requires Mid(aio, aio.aiocbList[..], buffer[..], destination0, blockSize, n, writes, p, t, ops, offset)
    modifies aio.aiocbList, buffer
    ensures !ok ==> !Clean(aio.writeErrors, blockSize, Blocks(|aio.source|, blockSize))
    ensures ok ==> Loop(aio, aio.aiocbList[..], buffer[..], destination0, blockSize, n,
                        writes + p, p, writes + n, if ops > 0 then t + 1 else t, ops, offsetOut)
  {
    offsetOut := offset;
    ok := aio.WaitForAioOperations(n);
    WriteWaitClean(aio, aio.aiocbList[..], writes, blockSize, p, n);
    CleanMono(aio.writeErrors, blockSize, writes + p, Blocks(|aio.source|, blockSize));
    if !ok {
      assert !NoErrors(aio.aiocbList[..], n);
      return;
    }
    assert NoErrors(aio.aiocbList[..], n);
    offsetOut := HandleWriteCompletions(aio, buffer, blockSize, n, writes * blockSize, p, offset);
  }

  /**
   * The copy of async_copy.c:149-195 with block_size already in bytes: the
   * arena, the first batch, then passes until ops_in_progress drops to 0 or
   * below; an I/O error reported by a wait ends the run (exit(EXIT_FAILURE)).
   * A completed run has copied the whole source over the start of the old
   * destination, leaves the cursor one batch beyond the last block, and leaves
   * ops_in_progress at 0 or negative.  The run completes exactly when no read
   * among the first n + Blocks and no write among the first Blocks is at a
   * failing offset.
   */
  method RunCopy(source: seq<byte>, destination0: seq<byte>, readErrors: set<nat>, writeErrors: set<nat>,
                 blockSize: nat, n: nat)
    returns (outcome: Outcome, destination: seq<byte>, offset: nat, opsInProgress: int)
    requires n <= MAX_IO_OPERATIONS
    ensures n == 0 ==> outcome == Completed && destination == destination0 && offset == 0 && opsInProgress == 0
    ensures n > 0 ==>
              (outcome == Completed <==>
                 Clean(readErrors, blockSize, n + Blocks(|source|, blockSize)) &&
                 Clean(writeErrors, blockSize, Blocks(|source|, blockSize)))
    ensures n > 0 && outcome == Completed ==>
              destination == (if blockSize == 0 then destination0 else WriteAt(destination0, 0, source)) &&
              offset == (n + Blocks(|source|, blockSize)) * blockSize &&
              opsInProgress == FinalOps(Blocks(|source|, blockSize), n)
  {
    if n == 0 {
      return Completed, destination0, 0, 0;
    }
    var aio := new AioContext(source, destination0, readErrors, writeErrors);
    var buffer := new byte[blockSize * n];
    offset := InitialReads(aio, buffer, blockSize, n);
    opsInProgress := n;
    ghost var size := |source|;
    ghost var writes: nat := 0;
    ghost var a: nat := n;
    ghost var t: nat := 0;
    ghost var done: nat := 0;
    assert source[..0] == [];
    WriteAtNothing(destination0, 0);
    while opsInProgress > 0
      invariant buffer.Length == n * blockSize
      invariant Loop(aio, aio.aiocbList[..], buffer[..], destination0, blockSize, n,
                     writes, a, done, t, opsInProgress, offset)
      decreases Clip(opsInProgress), Distance(done, blockSize, size)
    {
      var ok;
      ghost var p;
      ghost var opsBefore := opsInProgress;
      ok, opsInProgress, p := ReadHalf(aio, buffer, blockSize, n, destination0, writes, a, done, t, opsInProgress, offset);
      if !ok {
        outcome, destination := Aborted, aio.destination;
        return;
      }
      ok, offset := WriteHalf(aio, buffer, blockSize, n, destination0, writes, p, t, opsInProgress, offset);
      if !ok {
        outcome, destination := Aborted, aio.destination;
        return;
      }
      writes, a, done := writes + p, p, writes + n;
      if opsInProgress > 0 {
        t := t + 1;
      }
    }
    outcome, destination := Completed, aio.destination;
    LoopExit(aio, aio.aiocbList[..], buffer[..], destination0, blockSize, n, writes, a, done, t, opsInProgress, offset);
  }

  /**
   * The program's copy (async_copy.c:124-195): the block size is read in KB
   * and multiplied by 1024 on a size_t, then the run is made with it.  The
   * destination is opened without O_TRUNC, so its old contents are the
   * starting point.  Without I/O errors the run always completes; a completed
   * run with a non-empty block has the source at the start of the destination,
   * and with an empty block (0 KB, or a KB figure that wraps to 0) it leaves
   * the destination alone.
   */
  method CopyMain(kb: nat, numAsyncOps: nat, source: seq<byte>, destination0: seq<byte>,
                  readErrors: set<nat>, writeErrors: set<nat>)
    returns (outcome: Outcome, destination: seq<byte>)
    requires numAsyncOps <= MAX_IO_OPERATIONS
    ensures readErrors == {} && writeErrors == {} ==> outcome == Completed
    ensures numAsyncOps == 0 ==> outcome == Completed && destination == destination0
    ensures numAsyncOps > 0 ==>
              (outcome == Completed <==>
                 Clean(readErrors, KbToBytes(kb), numAsyncOps + Blocks(|source|, KbToBytes(kb))) &&
                 Clean(writeErrors, KbToBytes(kb), Blocks(|source|, KbToBytes(kb))))
    ensures outcome == Completed && numAsyncOps > 0 && KbToBytes(kb) > 0 ==>
              destination == WriteAt(destination0, 0, source)
    ensures outcome == Completed && (numAsyncOps == 0 || KbToBytes(kb) == 0) ==> destination == destination0
    ensures outcome == Completed && numAsyncOps > 0 && 0 < kb && kb * 1024 < SIZE_MODULUS ==>
              destination == WriteAt(destination0, 0, source)
  {
    var blockSize := KbToBytes(kb);
    var offset, ops;
    outcome, destination, offset, ops := RunCopy(source, destination0, readErrors, writeErrors, blockSize, numAsyncOps);
  }

  /**
   * The copy as it evidently should behave, with the destination opened with
   * O_TRUNC: a completed run with a non-empty block leaves exactly the source.
   */
  method CopyTruncating(kb: nat, numAsyncOps: nat, source: seq<byte>,
                        readErrors: set<nat>, writeErrors: set<nat>)
    returns (outcome: Outcome, destination: seq<byte>)
    requires numAsyncOps <= MAX_IO_OPERATIONS
    ensures readErrors == {} && writeErrors == {} ==> outcome == Completed
    ensures outcome == Completed && numAsyncOps > 0 && KbToBytes(kb) > 0 ==> destination == source
  {
    var blockSize := KbToBytes(kb);
    var offset, ops;
    outcome, destination, offset, ops := RunCopy(source, [], readErrors, writeErrors, blockSize, numAsyncOps);
    WriteAtEmpty(source);
  }

  /**
   * Without O_TRUNC, copying a one-byte source over a two-byte destination
   * leaves the destination's second byte behind: the result is not the source.
   */
  lemma LeftoverTail()
    ensures WriteAt([7, 7], 0, [1]) == [1, 7]
    ensures WriteAt([7, 7], 0, [1]) != [1]
  {
    WriteAtKeepsTail([7, 7], [1]);
    assert WriteAt([7, 7], 0, [1])[0..1] == [1];
  }
}
