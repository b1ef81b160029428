// The POSIX asynchronous I/O layer as the copy program sees it: a table of
// control blocks (struct aiocb), the two set-up routines that fill a block and
// submit it, and the routine that waits for every submitted block.
//
// Completion is abstract.  A submitted read transfers min(nbytes, size - offset)
// bytes of the source file (0 at or past end of file) into the caller's buffer;
// a submitted write places its bytes into the destination file at its offset.
// The model applies the transfer when the block is submitted: the driver never
// looks at a slot's buffer region or result before waiting for it, and no two
// outstanding blocks share a region, so the order is not observable.
// I/O errors are given by two sets of file offsets: an operation at such an
// offset completes with the result -1.

module Aio {

  /** One octet of file data. */
  newtype byte = x: int | 0 <= x < 256

  /** Capacity of the global control-block table (async_copy.c:14). */
  const MAX_IO_OPERATIONS: nat := 64

  /** size_t arithmetic on a 64-bit target is taken modulo 2^64. */
  const SIZE_MODULUS: nat := 0x1_0000_0000_0000_0000

  /** Which operation a control block last carried; NoOp is the zeroed block. */
  datatype Opcode = NoOp | Read | Write

  /**
   * One control block: the file offset, the start of its buffer inside the
   * arena, the number of bytes requested and the completion result that
   * aio_return reports (a byte count, or -1 for an I/O error).
   */
  datatype Aiocb = Aiocb(opcode: Opcode, offset: int, buf: int, nbytes: nat, ret: int)

  /** A control block as memset(.., 0, ..) leaves it. */
  const ZeroedAiocb: Aiocb := Aiocb(NoOp, 0, 0, 0, 0)

  function Min(a: int, b: int): int { if a <= b then a else b }

  /** Zero-extension of size_t multiplication: the product modulo 2^64. */
  function SizeMul(a: nat, b: nat): (r: nat)
    ensures r < SIZE_MODULUS
    ensures a * b < SIZE_MODULUS ==> r == a * b
  {
    (a * b) % SIZE_MODULUS
  }

  /**
   * The byte count a successful aio_read of nbytes at offset returns from a
   * regular file of the given size.
   */
  function ReadCount(size: nat, offset: nat, nbytes: nat): (r: nat)
    ensures r <= nbytes
    ensures r > 0 <==> offset < size && nbytes > 0
    ensures r > 0 ==> offset + r <= size
    ensures r < nbytes ==> offset + r >= size
  {
    if offset >= size then 0 else Min(nbytes, size - offset)
  }

  /** The bytes of buffer region data the block's last operation filled or used. */
  function DataLength(cb: Aiocb): nat
  {
    match cb.opcode
    case Read => if cb.ret > 0 then cb.ret else 0
    case Write => cb.nbytes
    case NoOp => 0
  }

  /**
   * The file contents after writing data at offset (a pwrite): a gap between
   * the old end of file and offset reads as zero bytes, and bytes past the
   * written range keep their old value.
   */
  function WriteAt(file: seq<byte>, offset: nat, data: seq<byte>): (r: seq<byte>)
    ensures |r| == if offset + |data| > |file| then offset + |data| else |file|
    ensures r[offset .. offset + |data|] == data
    ensures forall p :: 0 <= p < |r| && !(offset <= p < offset + |data|) ==>
              r[p] == if p < |file| then file[p] else 0
  {
    var prefix := if offset <= |file| then file[..offset] else file + seq(offset - |file|, _ => 0);
    var suffix := if offset + |data| < |file| then file[offset + |data|..] else [];
    assert |prefix| == offset;
    prefix + data + suffix
  }

  /** Writing nothing leaves a file as it was. */
  lemma WriteAtNothing(file: seq<byte>, offset: nat)
    requires offset <= |file|
    ensures WriteAt(file, offset, []) == file
  {
    var r := WriteAt(file, offset, []);
    assert forall p :: 0 <= p < |r| ==> r[p] == file[p];
  }

  /**
   * Writing the bytes of s from m to m2 at offset m onto a file whose first m
   * bytes were overwritten with s extends the overwritten prefix to m2.
   */
  lemma WriteAtExtends(file: seq<byte>, s: seq<byte>, m: nat, m2: nat)
    requires m <= m2 <= |s|
    ensures WriteAt(WriteAt(file, 0, s[..m]), m, s[m..m2]) == WriteAt(file, 0, s[..m2])
  {
    var inner := WriteAt(file, 0, s[..m]);
    var outer := WriteAt(inner, m, s[m..m2]);
    var whole := WriteAt(file, 0, s[..m2]);
    assert |outer| == |whole|;
    forall p | 0 <= p < |outer|
      ensures outer[p] == whole[p]
    {
      if p < m {
        assert inner[0..m] == s[..m];
        assert inner[p] == inner[0..m][p];
        assert whole[0..m2] == s[..m2];
        assert whole[p] == whole[0..m2][p];
      } else if p < m2 {
        assert outer[m..m2] == s[m..m2];
        assert outer[p] == outer[m..m2][p - m];
        assert whole[0..m2] == s[..m2];
        assert whole[p] == whole[0..m2][p];
      }
    }
  }

  /** Writing data at the start of an empty file yields exactly data. */
  lemma WriteAtEmpty(data: seq<byte>)
    ensures WriteAt([], 0, data) == data
  {
    var r := WriteAt([], 0, data);
    assert r[0..|data|] == data;
    assert r == r[0..|data|];
  }

  /**
   * Writing a shorter data at the start of a file keeps the file's tail:
   * its length and every byte past data are the old ones.
   */
  lemma WriteAtKeepsTail(file: seq<byte>, data: seq<byte>)
    requires |data| < |file|
    ensures |WriteAt(file, 0, data)| == |file|
    ensures WriteAt(file, 0, data)[|data|..] == file[|data|..]
    ensures WriteAt(file, 0, data) != data
  {
    var r := WriteAt(file, 0, data);
    assert forall p :: |data| <= p < |r| ==> r[p] == file[p];
  }

  /** Overwriting a file's prefix with the same bytes twice changes nothing more. */
  lemma WriteAtTwice(file: seq<byte>, s: seq<byte>)
    ensures WriteAt(WriteAt(file, 0, s), 0, s) == WriteAt(file, 0, s)
  {
    var once := WriteAt(file, 0, s);
    var twice := WriteAt(once, 0, s);
    assert |twice| == |once|;
    forall p | 0 <= p < |twice|
      ensures twice[p] == once[p]
    {
      if p < |s| {
        assert twice[0..|s|] == s && once[0..|s|] == s;
        assert twice[p] == twice[0..|s|][p] && once[p] == once[0..|s|][p];
      }
    }
  }

  /**
   * The control blocks, the two files and the I/O error sets.  The table plays
   * the part of the global aiocb_list (async_copy.c:17).
   */
  class AioContext {
    const source: seq<byte>
    var destination: seq<byte>
    const readErrors: set<nat>
    const writeErrors: set<nat>
    const aiocbList: array<Aiocb>

    constructor (source: seq<byte>, destination: seq<byte>, readErrors: set<nat>, writeErrors: set<nat>)
      ensures this.source == source && this.destination == destination
      ensures this.readErrors == readErrors && this.writeErrors == writeErrors
      ensures fresh(aiocbList) && aiocbList.Length == MAX_IO_OPERATIONS
      ensures forall i :: 0 <= i < aiocbList.Length ==> aiocbList[i] == ZeroedAiocb
    {
      this.source := source;
      this.destination := destination;
      this.readErrors := readErrors;
      this.writeErrors := writeErrors;
      aiocbList := new Aiocb[MAX_IO_OPERATIONS](_ => ZeroedAiocb);
    }

    /** The completed read block aio_read_setup leaves behind. */
    function ReadBlock(offset: nat, buf: nat, nbytes: nat): (cb: Aiocb)
    {
      Aiocb(Read, offset, buf, nbytes,
            if offset in readErrors then -1 else ReadCount(|source|, offset, nbytes))
    }

    /** The completed write block aio_write_setup leaves behind (writes are never short). */
    function WriteBlock(offset: nat, buf: nat, nbytes: nat): (cb: Aiocb)
    {
      Aiocb(Write, offset, buf, nbytes, if offset in writeErrors then -1 else nbytes)
    }

    /**
     * A completed read records its request; it returns -1 exactly at a failing
     * offset, and otherwise at most the bytes asked for, 0 exactly at or past
     * the end of the source or for an empty request.
     */
    lemma ReadBlockResult(offset: nat, buf: nat, nbytes: nat)
      ensures var cb := ReadBlock(offset, buf, nbytes);
        cb.opcode == Read && cb.offset == offset && cb.buf == buf && cb.nbytes == nbytes &&
        (cb.ret == -1 <==> offset in readErrors) &&
        (cb.ret != -1 ==> 0 <= cb.ret <= nbytes && (cb.ret == 0 <==> offset >= |source| || nbytes == 0))
    {
    }

    /**
     * A completed write records its request; it returns -1 exactly at a
     * failing offset, and otherwise the full byte count.
     */
    lemma WriteBlockResult(offset: nat, buf: nat, nbytes: nat)
      ensures var cb := WriteBlock(offset, buf, nbytes);
        cb.opcode == Write && cb.offset == offset && cb.buf == buf && cb.nbytes == nbytes &&
        (cb.ret == -1 <==> offset in writeErrors) &&
        (cb.ret != -1 ==> cb.ret == nbytes)
    {
    }

    /**
     * aio_read_setup (async_copy.c:25-37): fills block i with a read of size
     * bytes at offset into buffer[buf..], submits it; on completion the bytes
     * read are in the buffer and nothing else in the buffer has changed.
     */
    method ReadSetup(i: nat, offset: nat, buffer: array<byte>, buf: nat, size: nat)
      requires i < aiocbList.Length
      requires buf + size <= buffer.Length
      modifies aiocbList, buffer
      ensures aiocbList[..] == old(aiocbList[..])[i := ReadBlock(offset, buf, size)]
      ensures DataLength(aiocbList[i]) > 0 ==>
                offset + DataLength(aiocbList[i]) <= |source| &&
                buffer[buf .. buf + DataLength(aiocbList[i])] == source[offset .. offset + DataLength(aiocbList[i])]
      ensures forall p :: 0 <= p < buffer.Length && !(buf <= p < buf + DataLength(aiocbList[i])) ==>
                buffer[p] == old(buffer[p])
    {
      var cb := ReadBlock(offset, buf, size);
      aiocbList[i] := cb;
      var n := DataLength(cb);
      forall p | buf <= p < buf + n {
        buffer[p] := source[offset + (p - buf)];
      }
    }

    /**
     * aio_write_setup (async_copy.c:45-57): fills block i with a write of size
     * bytes from buffer[buf..] at offset and submits it; on completion the
     * destination holds those bytes at offset.
     */
    method WriteSetup(i: nat, offset: nat, buffer: array<byte>, buf: nat, size: nat)
      requires i < aiocbList.Length
      requires buf + size <= buffer.Length
      modifies this, aiocbList
      ensures aiocbList[..] == old(aiocbList[..])[i := WriteBlock(offset, buf, size)]
      ensures destination == WriteAt(old(destination), offset, buffer[buf .. buf + size])
    {
      aiocbList[i] := WriteBlock(offset, buf, size);
      destination := WriteAt(destination, offset, buffer[buf .. buf + size]);
    }

    /**
     * wait_for_aio_operations (async_copy.c:65-80): visits blocks 0..numOps-1
     * in order; the run goes on (ok) exactly when none of them completed with -1.
     */
    method WaitForAioOperations(numOps: nat) returns (ok: bool)
      requires numOps <= aiocbList.Length
      ensures ok <==> forall i :: 0 <= i < numOps ==> aiocbList[i].ret != -1
    {
      for i := 0 to numOps
        invariant forall k :: 0 <= k < i ==> aiocbList[k].ret != -1
      {
        if aiocbList[i].ret == -1 {
          return false;
        }
      }
      return true;
    }
  }
}
