/**
 * One file's stored blocks, seen as one flat array of bytes.
 *
 * A file is kept as sparse rows, one per block number; a row may be missing or shorter than a block.
 * Everything here is about a single file: `Rows` is what the `blocks` table, or a handle's dirty
 * buffer, holds for it.
 */
module Chunks {
  import opened Base

  newtype Byte = x: int | 0 <= x < 256

  type Bytes = seq<Byte>
  type Rows = map<int, Bytes>

  const BLOCK_SIZE: nat := 65536

  /** The first offset whose block number does not fit an i32. */
  const MAX_BYTES: nat := 0x8000_0000_0000

  function Zeros(n: nat): (z: Bytes)
    ensures |z| == n
    ensures forall i :: 0 <= i < n ==> z[i] == 0
  {
    seq(n, _ => 0)
  }

  function RowOf(rows: Rows, n: int): Bytes {
    if n in rows then rows[n] else []
  }

  /** A short row reads as zero past its end. */
  function ByteIn(row: Bytes, j: nat): Byte {
    if j < |row| then row[j] else 0
  }

  /** Byte `j` of block `n`; a missing row reads as zero. */
  function Cell(rows: Rows, n: int, j: nat): Byte {
    ByteIn(RowOf(rows, n), j)
  }

  /** The byte the rows hold at file offset `i`. */
  function RowByte(rows: Rows, i: nat): Byte {
    Cell(rows, i / BLOCK_SIZE, i % BLOCK_SIZE)
  }

  lemma RowByteIsCell(rows: Rows, n: nat, j: nat)
    requires j < BLOCK_SIZE
    ensures RowByte(rows, n * BLOCK_SIZE + j) == Cell(rows, n, j)
  {
    assert (n * BLOCK_SIZE + j) / BLOCK_SIZE == n;
  }

  /** The file content denoted by the rows and the `size` column. */
  function Flat(rows: Rows, size: nat): (c: Bytes)
    ensures |c| == size
    ensures forall i :: 0 <= i < size ==> c[i] == RowByte(rows, i)
  {
    seq(size, i requires 0 <= i < size => RowByte(rows, i))
  }

  /** Every block number is a non-negative i32 and no row is longer than a block. */
  ghost predicate RowsFit(rows: Rows) {
    forall n :: n in rows ==> 0 <= n < TWO_31 && |rows[n]| <= BLOCK_SIZE
  }

  ghost predicate ZeroFrom(rows: Rows, from: nat) {
    forall i: nat :: from <= i ==> RowByte(rows, i) == 0
  }

  // ---------------------------------------------------------------- block numbers

  /** The i32 cast of a block number is exact precisely below `MAX_BYTES`, for every u64 offset. */
  lemma BlockNumberCastExact(offset: nat)
    requires offset < 0x1_0000_0000_0000_0000
    ensures ToI32(offset / BLOCK_SIZE) == offset / BLOCK_SIZE <==> offset < MAX_BYTES
  {
    var n := offset / BLOCK_SIZE;
    assert offset < MAX_BYTES <==> n < TWO_31;
    if n < TWO_31 {
      assert n % TWO_32 == n;
    }
  }

  // ---------------------------------------------------------------- splitting a write into chunks

  function FirstBlock(offset: nat): nat { offset / BLOCK_SIZE }

  function LastBlock(offset: nat, len: nat): nat
    requires len > 0
  {
    (offset + len - 1) / BLOCK_SIZE
  }

  /** Where the part of a write that falls in block `b` starts and ends, as file offsets. */
  function ChunkStart(offset: nat, b: int): nat { Max(offset, b * BLOCK_SIZE) }

  function ChunkEnd(offset: nat, len: nat, b: int): int { Min(offset + len, b * BLOCK_SIZE + BLOCK_SIZE) }

  /** Block `b` and the range share an offset. */
  predicate Meets(offset: nat, len: nat, b: int) {
    b * BLOCK_SIZE < offset + len && offset < b * BLOCK_SIZE + BLOCK_SIZE
  }

  /** Below 2^47 neither end of the loop over blocks wraps. */
  lemma BlockRange(offset: nat, len: nat)
    requires len > 0 && offset + len <= MAX_BYTES
    ensures 0 <= FirstBlock(offset) <= LastBlock(offset, len) < TWO_31
    ensures ToI32(offset / BLOCK_SIZE) == FirstBlock(offset)
    ensures ToI32((offset + len - 1) / BLOCK_SIZE) == LastBlock(offset, len)
  {
    BlockNumberCastExact(offset);
    BlockNumberCastExact(offset + len - 1);
  }

  /** The bound is exact: past it the cast changes an end of the loop over blocks. */
  lemma BlockRangeExact(offset: nat, len: nat)
    requires len > 0 && offset + len <= 0x1_0000_0000_0000_0000
    ensures ToI32(FirstBlock(offset)) == FirstBlock(offset) && ToI32(LastBlock(offset, len)) == LastBlock(offset, len)
            <==> offset + len <= MAX_BYTES
  {
    BlockNumberCastExact(offset);
    BlockNumberCastExact(offset + len - 1);
  }

  /** The loop visits exactly the blocks the range meets. */
  lemma MeetsRange(offset: nat, len: nat)
    requires len > 0
    ensures forall b :: FirstBlock(offset) <= b <= LastBlock(offset, len) <==> Meets(offset, len, b)
  {
    forall b
      ensures FirstBlock(offset) <= b <= LastBlock(offset, len) <==> Meets(offset, len, b)
    {
      assert FirstBlock(offset) <= b <==> offset < b * BLOCK_SIZE + BLOCK_SIZE;
      assert b <= LastBlock(offset, len) <==> b * BLOCK_SIZE <= offset + len - 1;
    }
  }

  ghost predicate InChunk(offset: nat, len: nat, b: nat, i: nat) {
    ChunkStart(offset, b) <= i < ChunkEnd(offset, len, b)
  }

  lemma ChunkOfBlock(offset: nat, len: nat, b: nat)
    requires len > 0 && Meets(offset, len, b)
    ensures b * BLOCK_SIZE <= ChunkStart(offset, b) < ChunkEnd(offset, len, b) <= b * BLOCK_SIZE + BLOCK_SIZE
    ensures Meets(offset, len, b + 1) ==> ChunkEnd(offset, len, b) == ChunkStart(offset, b + 1)
    ensures !Meets(offset, len, b + 1) ==> ChunkEnd(offset, len, b) == offset + len
  {
  }

  lemma BlockOfOffset(i: nat, b: nat)
    ensures b == i / BLOCK_SIZE <==> b * BLOCK_SIZE <= i < b * BLOCK_SIZE + BLOCK_SIZE
  {
  }

  /**
   * The per-block chunks of a write partition its range: each is non-empty and lies inside its
   * block, neighbours touch, the first and last reach the ends, and every offset of the write is
   * in the chunk of exactly one of the visited blocks.
   */
  lemma SplitIsPartition(offset: nat, len: nat)
    requires len > 0
    ensures ChunkStart(offset, FirstBlock(offset)) == offset
    ensures ChunkEnd(offset, len, LastBlock(offset, len)) == offset + len
    ensures forall b {:trigger ChunkStart(offset, b)} :: FirstBlock(offset) <= b <= LastBlock(offset, len) ==>
              b * BLOCK_SIZE <= ChunkStart(offset, b) < ChunkEnd(offset, len, b) <= b * BLOCK_SIZE + BLOCK_SIZE
    ensures forall b {:trigger ChunkEnd(offset, len, b)} :: FirstBlock(offset) <= b < LastBlock(offset, len) ==>
              ChunkEnd(offset, len, b) == ChunkStart(offset, b + 1)
    ensures forall i: nat, b: nat :: FirstBlock(offset) <= b <= LastBlock(offset, len) ==>
              (InChunk(offset, len, b, i) <==> offset <= i < offset + len && b == i / BLOCK_SIZE)
  {
    MeetsRange(offset, len);
    var last := LastBlock(offset, len);
    assert Meets(offset, len, last) && !Meets(offset, len, last + 1);
    forall b: nat | FirstBlock(offset) <= b <= last
      ensures b * BLOCK_SIZE <= ChunkStart(offset, b) < ChunkEnd(offset, len, b) <= b * BLOCK_SIZE + BLOCK_SIZE
      ensures b < last ==> ChunkEnd(offset, len, b) == ChunkStart(offset, b + 1)
      ensures b == last ==> ChunkEnd(offset, len, b) == offset + len
    {
      assert Meets(offset, len, b) && (b < last <==> Meets(offset, len, b + 1));
      ChunkOfBlock(offset, len, b);
    }
    forall i: nat, b: nat | FirstBlock(offset) <= b <= last
      ensures InChunk(offset, len, b, i) <==> offset <= i < offset + len && b == i / BLOCK_SIZE
    {
      BlockOfOffset(i, b);
    }
  }

  // ---------------------------------------------------------------- writing

  /**
   * A touched row after the write: its part of the data, and around it the stored bytes, zeros
   * where the stored row is short. The stored row is not looked at when a whole block is written.
   */
  function PatchedRow(row: Bytes, offset: nat, data: Bytes, n: int): (r: Bytes)
    requires Touches(offset, data, n)
  {
    var lo, hi := ChunkStart(offset, n) - n * BLOCK_SIZE, ChunkEnd(offset, |data|, n) - n * BLOCK_SIZE;
    var len := if lo == 0 && hi == BLOCK_SIZE then hi else Max(|row|, hi);
    seq(len, j requires 0 <= j < len => if lo <= j < hi then data[n * BLOCK_SIZE + j - offset] else ByteIn(row, j))
  }

  predicate Touches(offset: nat, data: Bytes, n: int) {
    data != [] && 0 <= n && Meets(offset, |data|, n)
  }

  /** The rows with the row of every block in `touched` replaced by what `next` gives for it. */
  function Replace(rows: Rows, touched: set<int>, next: int -> Bytes): Rows {
    map n | n in rows.Keys + touched :: if n in touched then next(n) else rows[n]
  }

  lemma ReplaceOneMore(rows: Rows, touched: set<int>, next: int -> Bytes, b: int)
    requires b !in touched
    ensures Replace(rows, touched + {b}, next) == Replace(rows, touched, next)[b := next(b)]
    ensures RowOf(Replace(rows, touched, next), b) == RowOf(rows, b)
  {
  }

  function PatchedRows(rows: Rows, offset: nat, data: Bytes): int -> Bytes {
    (n: int) => if Touches(offset, data, n) then PatchedRow(RowOf(rows, n), offset, data, n) else []
  }

  /** `chunk` is the part of a write that falls in block `n`. */
  ghost predicate IsChunk(offset: nat, data: Bytes, n: int, chunk: Bytes)
    requires Touches(offset, data, n)
  {
    && |chunk| == ChunkEnd(offset, |data|, n) - ChunkStart(offset, n)
    && forall i {:trigger chunk[i]} :: 0 <= i < |chunk| ==> chunk[i] == data[ChunkStart(offset, n) - offset + i]
  }

  lemma PatchedRowIs(row: Bytes, offset: nat, data: Bytes, n: int, base: Bytes, chunk: Bytes, r: Bytes)
    requires Touches(offset, data, n) && IsChunk(offset, data, n, chunk)
    requires var at := ChunkStart(offset, n) - n * BLOCK_SIZE;
             && base == (if at > 0 || |chunk| < BLOCK_SIZE then row else [])
             && |r| == Max(|base|, at + |chunk|)
             && forall j :: 0 <= j < |r| ==> r[j] == if at <= j < at + |chunk| then chunk[j - at] else ByteIn(base, j)
    ensures r == PatchedRow(row, offset, data, n)
  {
  }

  /** The touched blocks with a number below `bound`. */
  function TouchedBelow(offset: nat, data: Bytes, bound: int): set<int> {
    set n | 0 <= n < bound && Touches(offset, data, n)
  }

  function Touched(offset: nat, data: Bytes): set<int> {
    if data == [] then {} else TouchedBelow(offset, data, LastBlock(offset, |data|) + 1)
  }

  /** The rows after writing `data` at `offset`. */
  function WriteRows(rows: Rows, offset: nat, data: Bytes): Rows {
    Replace(rows, Touched(offset, data), PatchedRows(rows, offset, data))
  }

  lemma TouchedAre(offset: nat, data: Bytes, n: int)
    ensures n in Touched(offset, data) <==> Touches(offset, data, n)
  {
    if data != [] {
      MeetsRange(offset, |data|);
    }
  }

  /** The loop's range of blocks enumerates the touched blocks. */
  lemma TouchedLoop(offset: nat, data: Bytes, b: int)
    requires data != [] && FirstBlock(offset) <= b <= LastBlock(offset, |data|)
    ensures TouchedBelow(offset, data, FirstBlock(offset)) == {}
    ensures Touches(offset, data, b)
    ensures TouchedBelow(offset, data, b + 1) == TouchedBelow(offset, data, b) + {b}
  {
    MeetsRange(offset, |data|);
  }

  /** One step of the loop. */
  lemma WriteLoopStep(rows: Rows, offset: nat, data: Bytes, b: int)
    requires data != [] && FirstBlock(offset) <= b <= LastBlock(offset, |data|)
    ensures Touches(offset, data, b)
    ensures var done := Replace(rows, TouchedBelow(offset, data, b), PatchedRows(rows, offset, data));
            && RowOf(done, b) == RowOf(rows, b)
            && Replace(rows, TouchedBelow(offset, data, b + 1), PatchedRows(rows, offset, data)) ==
               done[b := PatchedRow(RowOf(rows, b), offset, data, b)]
  {
    TouchedLoop(offset, data, b);
    ReplaceOneMore(rows, TouchedBelow(offset, data, b), PatchedRows(rows, offset, data), b);
  }

  /** Exactly the blocks of the written range gain a row; rows outside it are kept as they were. */
  lemma WriteRowsDomain(rows: Rows, offset: nat, data: Bytes, n: int)
    ensures n in WriteRows(rows, offset, data) <==> n in rows || Touches(offset, data, n)
    ensures Touches(offset, data, n) ==> WriteRows(rows, offset, data)[n] == PatchedRow(RowOf(rows, n), offset, data, n)
    ensures n in rows && !Touches(offset, data, n) ==> WriteRows(rows, offset, data)[n] == rows[n]
  {
    TouchedAre(offset, data, n);
  }

  // ---------------------------------------------------------------- writing past 2^47

  /** Where block `b` starts and ends in u64 arithmetic, which wraps in a release build. */
  function BlockStart(b: int): nat
    requires -TWO_31 <= b < TWO_31
  {
    ToU64(b) * BLOCK_SIZE % TWO_64
  }

  function BlockEnd(b: int): nat
    requires -TWO_31 <= b < TWO_31
  {
    (BlockStart(b) + BLOCK_SIZE) % TWO_64
  }

  lemma BlockEnds(b: int)
    requires -TWO_31 <= b < TWO_31
    ensures b >= 0 ==> BlockStart(b) == b * BLOCK_SIZE && BlockEnd(b) == b * BLOCK_SIZE + BLOCK_SIZE
    ensures b < 0 ==> BlockStart(b) == TWO_64 + b * BLOCK_SIZE >= TWO_63
    ensures b < -1 ==> BlockEnd(b) == TWO_64 + b * BLOCK_SIZE + BLOCK_SIZE >= TWO_63
    ensures BlockEnd(-1) == 0
  {
    if b < 0 {
      assert ToU64(b) * BLOCK_SIZE == TWO_64 * (BLOCK_SIZE - 1) + (TWO_64 + b * BLOCK_SIZE);
    }
    assert ToU64(-1) * BLOCK_SIZE == TWO_64 * (BLOCK_SIZE - 1) + (TWO_64 - BLOCK_SIZE);
  }

  /**
   * Taking block `b`'s part of the data in u64 arithmetic: false if the slice is out of bounds, so
   * that the code panics.
   */
  predicate SliceOk(offset: nat, len: nat, b: int)
    requires -TWO_31 <= b < TWO_31
  {
    offset <= Max(offset, BlockStart(b)) <= Min(offset + len, BlockEnd(b))
  }

  /** From an offset in range the cast loop visits only blocks of the write, and their parts can be taken. */
  lemma VisitedInRange(offset: nat, len: nat, b: int)
    requires len > 0 && offset + len < TWO_63 && offset < MAX_BYTES
    requires ToI32(FirstBlock(offset)) <= b <= ToI32(LastBlock(offset, len))
    ensures FirstBlock(offset) <= b <= LastBlock(offset, len) && b < TWO_31 && SliceOk(offset, len, b)
  {
    BlockNumberCastExact(offset);
    CastLowers(LastBlock(offset, len));
    MeetsRange(offset, len);
    assert Meets(offset, len, b);
    BlockEnds(b);
  }

  /** From an offset out of range the first visited block's part lies outside the data. */
  lemma VisitedOutOfRange(offset: nat, len: nat, b: int)
    requires len > 0 && MAX_BYTES <= offset && offset + len < TWO_63 && b == ToI32(FirstBlock(offset))
    ensures -TWO_31 <= b < TWO_31 && !SliceOk(offset, len, b)
  {
    CastLowers(FirstBlock(offset));
    BlockNumberCastExact(offset);
    BlockEnds(b);
    assert b >= 0 ==> b * BLOCK_SIZE + BLOCK_SIZE < offset;
  }

  /** A cast block number is the number itself or at least 2^32 less. */
  lemma CastLowers(n: nat)
    ensures ToI32(n) == n || ToI32(n) <= n - TWO_32
    ensures -TWO_31 <= ToI32(n) < TWO_31
  {
    assert n == n / TWO_32 * TWO_32 + n % TWO_32;
  }

  /** The rows the code leaves, for any offset below 2^63; `None` if it panics. */
  function CodeRows(rows: Rows, offset: nat, data: Bytes): Option<Rows>
    requires data != []
  {
    var last := ToI32(LastBlock(offset, |data|));
    if offset >= MAX_BYTES && ToI32(FirstBlock(offset)) <= last then None
    else Some(Replace(rows, TouchedBelow(offset, data, last + 1), PatchedRows(rows, offset, data)))
  }

  lemma NothingBelow(rows: Rows, offset: nat, data: Bytes, bound: int)
    requires data != [] && bound <= FirstBlock(offset)
    ensures TouchedBelow(offset, data, bound) == {}
    ensures Replace(rows, TouchedBelow(offset, data, bound), PatchedRows(rows, offset, data)) == rows
  {
    MeetsRange(offset, |data|);
    assert TouchedBelow(offset, data, bound) == {};
  }

  /** `now` is what the loop over the cast block numbers has made of `rows` when it comes to block `b`. */
  ghost predicate LoopAt(rows: Rows, offset: nat, data: Bytes, b: int, now: Rows)
    requires data != []
  {
    var first, last := ToI32(FirstBlock(offset)), ToI32(LastBlock(offset, |data|));
    && now == Replace(rows, TouchedBelow(offset, data, b), PatchedRows(rows, offset, data))
    && first <= b && (b <= last + 1 || b == first) && (offset >= MAX_BYTES ==> b == first)
  }

  lemma CodeLoopStarts(rows: Rows, offset: nat, data: Bytes)
    requires data != []
    ensures LoopAt(rows, offset, data, ToI32(FirstBlock(offset)), rows)
  {
    CastLowers(FirstBlock(offset));
    NothingBelow(rows, offset, data, ToI32(FirstBlock(offset)));
  }

  /** One visited block: taking its part of the data panics, or its row is patched. */
  lemma CodeLoopStep(rows: Rows, offset: nat, data: Bytes, b: int, now: Rows)
    requires data != [] && offset + |data| < TWO_63 && LoopAt(rows, offset, data, b, now)
    requires b <= ToI32(LastBlock(offset, |data|))
    ensures -TWO_31 <= b < TWO_31 && (SliceOk(offset, |data|, b) <==> offset < MAX_BYTES)
    ensures offset >= MAX_BYTES ==> CodeRows(rows, offset, data).None?
    ensures offset < MAX_BYTES ==>
              && Touches(offset, data, b) && RowOf(now, b) == RowOf(rows, b)
              && LoopAt(rows, offset, data, b + 1, now[b := PatchedRow(RowOf(rows, b), offset, data, b)])
  {
    CastLowers(FirstBlock(offset));
    CastLowers(LastBlock(offset, |data|));
    if offset < MAX_BYTES {
      VisitedInRange(offset, |data|, b);
      WriteLoopStep(rows, offset, data, b);
    } else {
      VisitedOutOfRange(offset, |data|, b);
    }
  }

  lemma CodeLoopEnds(rows: Rows, offset: nat, data: Bytes, b: int, now: Rows)
    requires data != [] && LoopAt(rows, offset, data, b, now) && ToI32(LastBlock(offset, |data|)) < b
    ensures CodeRows(rows, offset, data) == Some(now)
    ensures offset + |data| <= MAX_BYTES ==> now == WriteRows(rows, offset, data)
  {
    CastLowers(FirstBlock(offset));
    var last := ToI32(LastBlock(offset, |data|));
    if b != last + 1 {
      NothingBelow(rows, offset, data, b);
      NothingBelow(rows, offset, data, last + 1);
    }
    if offset + |data| <= MAX_BYTES {
      CodeRowsInRange(rows, offset, data);
    }
  }

  lemma CodeRowsInRange(rows: Rows, offset: nat, data: Bytes)
    requires data != [] && offset + |data| <= MAX_BYTES
    ensures CodeRows(rows, offset, data) == Some(WriteRows(rows, offset, data))
  {
    BlockRange(offset, |data|);
    assert TouchedBelow(offset, data, ToI32(LastBlock(offset, |data|)) + 1) == Touched(offset, data);
  }

  /**
   * The code writes what it should, whatever the stored rows, iff the write ends at or below 2^47.
   * Past that, a write that starts below visits no block at all.
   */
  lemma CodeRowsExact(rows: Rows, offset: nat, data: Bytes)
    requires data != [] && offset + |data| < TWO_63 && RowsFit(rows)
    ensures CodeRows(rows, offset, data) == Some(WriteRows(rows, offset, data)) <==> offset + |data| <= MAX_BYTES
    ensures offset < MAX_BYTES < offset + |data| <= 2 * MAX_BYTES ==> CodeRows(rows, offset, data) == Some(rows)
  {
    var last := LastBlock(offset, |data|);
    if offset + |data| <= MAX_BYTES {
      CodeRowsInRange(rows, offset, data);
    } else {
      MeetsRange(offset, |data|);
      assert Touches(offset, data, last);
      WriteRowsDomain(rows, offset, data, last);
      CastLowers(last);
      assert last !in rows;
      if last < TWO_32 {
        NothingBelow(rows, offset, data, ToI32(last) + 1);
      }
    }
  }

  /** `now` is what a byte at offset `i` becomes when `data` is laid at `offset` over `before`. */
  ghost predicate Overlaid(before: Byte, offset: nat, data: Bytes, i: nat, now: Byte) {
    now == if offset <= i < offset + |data| then data[i - offset] else before
  }

  lemma UntouchedByte(before: Byte, offset: nat, data: Bytes, n: nat, j: nat)
    requires !Touches(offset, data, n) && j < BLOCK_SIZE
    ensures Overlaid(before, offset, data, n * BLOCK_SIZE + j, before)
  {
  }

  lemma WriteRowsRow(rows: Rows, offset: nat, data: Bytes, n: nat)
    ensures RowOf(WriteRows(rows, offset, data), n) ==
            if Touches(offset, data, n) then PatchedRow(RowOf(rows, n), offset, data, n) else RowOf(rows, n)
  {
    WriteRowsDomain(rows, offset, data, n);
  }

  lemma PatchedRowByte(row: Bytes, offset: nat, data: Bytes, n: nat, j: nat)
    requires Touches(offset, data, n) && j < BLOCK_SIZE
    ensures Overlaid(ByteIn(row, j), offset, data, n * BLOCK_SIZE + j, ByteIn(PatchedRow(row, offset, data, n), j))
  {
  }

  /** A row that is patched where the write touches it, and kept elsewhere, changes the written bytes only. */
  lemma RowOverlaid(row: Bytes, after: Bytes, offset: nat, data: Bytes, n: nat, j: nat)
    requires j < BLOCK_SIZE
    requires after == if Touches(offset, data, n) then PatchedRow(row, offset, data, n) else row
    ensures Overlaid(ByteIn(row, j), offset, data, n * BLOCK_SIZE + j, ByteIn(after, j))
  {
    if Touches(offset, data, n) {
      PatchedRowByte(row, offset, data, n, j);
    } else {
      UntouchedByte(ByteIn(row, j), offset, data, n, j);
    }
  }

  lemma WriteRowsCell(rows: Rows, offset: nat, data: Bytes, n: nat, j: nat)
    requires j < BLOCK_SIZE
    ensures Overlaid(Cell(rows, n, j), offset, data, n * BLOCK_SIZE + j, Cell(WriteRows(rows, offset, data), n, j))
  {
    WriteRowsRow(rows, offset, data, n);
    RowOverlaid(RowOf(rows, n), RowOf(WriteRows(rows, offset, data), n), offset, data, n, j);
  }

  lemma CellsAreBytes(rows: Rows, after: Rows, offset: nat, data: Bytes, i: nat, n: nat, j: nat)
    requires n == i / BLOCK_SIZE && j == i % BLOCK_SIZE
    requires Overlaid(Cell(rows, n, j), offset, data, n * BLOCK_SIZE + j, Cell(after, n, j))
    ensures Overlaid(RowByte(rows, i), offset, data, i, RowByte(after, i))
  {
    assert n * BLOCK_SIZE + j == i;
  }

  /** Writing changes exactly the bytes of the written range, whatever rows were there before. */
  lemma WriteRowsByte(rows: Rows, offset: nat, data: Bytes, i: nat)
    ensures Overlaid(RowByte(rows, i), offset, data, i, RowByte(WriteRows(rows, offset, data), i))
  {
    var n, j := i / BLOCK_SIZE, i % BLOCK_SIZE;
    WriteRowsCell(rows, offset, data, n, j);
    CellsAreBytes(rows, WriteRows(rows, offset, data), offset, data, i, n, j);
  }

  lemma WriteRowsFit(rows: Rows, offset: nat, data: Bytes)
    requires RowsFit(rows) && offset + |data| <= MAX_BYTES
    ensures RowsFit(WriteRows(rows, offset, data))
  {
    var after := WriteRows(rows, offset, data);
    forall n | n in after
      ensures 0 <= n < TWO_31 && |after[n]| <= BLOCK_SIZE
    {
      WriteRowsDomain(rows, offset, data, n);
      if Touches(offset, data, n) {
        ChunkOfBlock(offset, |data|, n);
      }
    }
  }

  // ---------------------------------------------------------------- the flat meaning of a write

  function ZeroExtend(content: Bytes, n: nat): Bytes {
    if |content| < n then content + Zeros(n - |content|) else content
  }

  /** pwrite on a flat file: extend with zeros to reach the end of the write, then overlay `data`. */
  function Overlay(content: Bytes, offset: nat, data: Bytes): (c: Bytes)
    ensures |c| == Max(|content|, offset + |data|)
  {
    var grown := ZeroExtend(content, offset + |data|);
    grown[..offset] + data + grown[offset + |data|..]
  }

  lemma OverlayByte(content: Bytes, offset: nat, data: Bytes, i: nat)
    requires i < |Overlay(content, offset, data)|
    ensures Overlay(content, offset, data)[i] ==
            if offset <= i < offset + |data| then data[i - offset]
            else if i < |content| then content[i] else 0
  {
  }

  /**
   * A write refines the flat overlay exactly when the stored bytes between the old end of file and
   * the write's offset are zero. A zero tail is enough, and is kept.
   */
  lemma WriteRefinesOverlay(rows: Rows, size: nat, offset: nat, data: Bytes)
    requires data != []
    ensures Flat(WriteRows(rows, offset, data), Max(size, offset + |data|)) == Overlay(Flat(rows, size), offset, data)
            <==> forall i: nat :: size <= i < offset ==> RowByte(rows, i) == 0
    ensures ZeroFrom(rows, size) ==> ZeroFrom(WriteRows(rows, offset, data), Max(size, offset + |data|))
  {
    var after := WriteRows(rows, offset, data);
    forall i: nat
      ensures RowByte(after, i) ==
              if offset <= i < offset + |data| then data[i - offset] else RowByte(rows, i)
    {
      WriteRowsByte(rows, offset, data, i);
    }
    var newSize := Max(size, offset + |data|);
    var concrete, flat := Flat(after, newSize), Overlay(Flat(rows, size), offset, data);
    forall i: nat | i < newSize
      ensures flat[i] == if offset <= i < offset + |data| then data[i - offset]
                         else if i < size then RowByte(rows, i) else 0
    {
      OverlayByte(Flat(rows, size), offset, data, i);
    }
    if concrete == flat {
      forall i: nat | size <= i < offset
        ensures RowByte(rows, i) == 0
      {
        assert concrete[i] == flat[i];
      }
    }
  }

  // ---------------------------------------------------------------- truncating

  /** The rows after `truncate`: prune past the (cast) boundary block, then cut that block's row. */
  function TruncateRows(rows: Rows, size: nat, newSize: nat): Rows {
    if newSize >= size then rows
    else
      var last := ToI32(newSize / BLOCK_SIZE);
      var rem := newSize % BLOCK_SIZE;
      var pruned := map n | n in rows && n <= last :: rows[n];
      if rem > 0 && last in pruned then pruned[last := Cut(pruned[last], rem)] else pruned
  }

  /** Rust's `Vec::truncate`. */
  function Cut(row: Bytes, n: nat): Bytes {
    if n < |row| then row[..n] else row
  }

  /**
   * What a truncate leaves at each offset. A shrink to a block boundary leaves the whole block
   * that starts at the new size as it was; every other byte past a new, smaller size reads zero.
   */
  lemma TruncateByte(rows: Rows, size: nat, newSize: nat, i: nat)
    requires newSize < size ==> newSize < MAX_BYTES
    ensures RowByte(TruncateRows(rows, size, newSize), i) ==
            if newSize >= size || i < newSize || (newSize % BLOCK_SIZE == 0 && i < newSize + BLOCK_SIZE)
            then RowByte(rows, i) else 0
  {
    if newSize < size {
      BlockNumberCastExact(newSize);
      assert i == (i / BLOCK_SIZE) * BLOCK_SIZE + i % BLOCK_SIZE;
      assert newSize == (newSize / BLOCK_SIZE) * BLOCK_SIZE + newSize % BLOCK_SIZE;
    }
  }

  lemma TruncateFit(rows: Rows, size: nat, newSize: nat)
    requires RowsFit(rows)
    ensures RowsFit(TruncateRows(rows, size, newSize))
  {
  }

  function Resize(content: Bytes, n: nat): (c: Bytes)
    ensures |c| == n
  {
    if n <= |content| then content[..n] else ZeroExtend(content, n)
  }

  /**
   * `truncate` refines the flat resize on the visible bytes: always when shrinking, and when
   * growing exactly if the newly visible stored bytes are zero.
   */
  lemma TruncateRefinesResize(rows: Rows, size: nat, newSize: nat)
    requires newSize < size ==> newSize < MAX_BYTES
    ensures Flat(TruncateRows(rows, size, newSize), newSize) == Resize(Flat(rows, size), newSize)
            <==> forall i: nat :: size <= i < newSize ==> RowByte(rows, i) == 0
  {
    var after := TruncateRows(rows, size, newSize);
    var concrete, flat := Flat(after, newSize), Resize(Flat(rows, size), newSize);
    forall i: nat | i < newSize
      ensures concrete[i] == RowByte(rows, i) && flat[i] == if i < size then RowByte(rows, i) else 0
    {
      TruncateByte(rows, size, newSize, i);
    }
    if concrete == flat {
      forall i: nat | size <= i < newSize
        ensures RowByte(rows, i) == 0
      {
        assert concrete[i] == flat[i];
      }
    }
  }

  /**
   * The tail after a shrink: off a block boundary it is zero from any earlier rows; on a boundary
   * it is zero exactly when the block starting at the new size held only zeros.
   */
  lemma ShrinkTail(rows: Rows, size: nat, newSize: nat)
    requires newSize < size && newSize < MAX_BYTES
    ensures newSize % BLOCK_SIZE != 0 ==> ZeroFrom(TruncateRows(rows, size, newSize), newSize)
    ensures newSize % BLOCK_SIZE == 0 ==>
              (ZeroFrom(TruncateRows(rows, size, newSize), newSize) <==>
               forall i: nat :: newSize <= i < newSize + BLOCK_SIZE ==> RowByte(rows, i) == 0)
    ensures ZeroFrom(TruncateRows(rows, size, newSize), newSize + BLOCK_SIZE)
  {
    var after := TruncateRows(rows, size, newSize);
    forall i: nat
      ensures RowByte(after, i) ==
              if i < newSize || (newSize % BLOCK_SIZE == 0 && i < newSize + BLOCK_SIZE) then RowByte(rows, i) else 0
    {
      TruncateByte(rows, size, newSize, i);
    }
  }

  /**
   * Shrinking to a block boundary and growing back can bring the old bytes back: for every
   * boundary there are rows with a zero tail for which the regrown file is not zero-filled.
   */
  lemma AlignedShrinkResurfaces(newSize: nat)
    requires newSize % BLOCK_SIZE == 0 && newSize < MAX_BYTES
    ensures exists rows: Rows ::
              RowsFit(rows) && ZeroFrom(rows, newSize + 1)
              && var shrunk := TruncateRows(rows, newSize + 1, newSize);
                 Flat(TruncateRows(shrunk, newSize, newSize + 1), newSize + 1)
                 != Resize(Resize(Flat(rows, newSize + 1), newSize), newSize + 1)
  {
    var rows: Rows := map[newSize / BLOCK_SIZE := [1]];
    var shrunk := TruncateRows(rows, newSize + 1, newSize);
    TruncateByte(rows, newSize + 1, newSize, newSize);
    var regrown := Flat(TruncateRows(shrunk, newSize, newSize + 1), newSize + 1);
    var flat := Resize(Resize(Flat(rows, newSize + 1), newSize), newSize + 1);
    assert regrown[newSize] == 1 && flat[newSize] == 0;
    forall i: nat | newSize + 1 <= i
      ensures RowByte(rows, i) == 0
    {
    }
    assert RowsFit(rows) && ZeroFrom(rows, newSize + 1);
  }

  ghost predicate KeepsVisible(rows: Rows, size: nat, newSize: nat) {
    Flat(TruncateRows(rows, size, newSize), newSize) == Flat(rows, newSize)
  }

  /**
   * When a shrink keeps every byte below the new size, for all stored rows: below 2^47, or when
   * the wrapped block number is the largest i32 and no row is cut.
   */
  lemma ShrinkKeepsExact(newSize: nat)
    requires newSize < 0x8000_0000_0000_0000
    ensures (forall rows, size :: RowsFit(rows) && newSize < size ==> KeepsVisible(rows, size, newSize)) <==>
            newSize < MAX_BYTES || (ToI32(newSize / BLOCK_SIZE) == TWO_31 - 1 && newSize % BLOCK_SIZE == 0)
  {
    var last, rem := ToI32(newSize / BLOCK_SIZE), newSize % BLOCK_SIZE;
    if newSize < MAX_BYTES {
      forall rows, size | RowsFit(rows) && newSize < size
        ensures KeepsVisible(rows, size, newSize)
      {
        forall i: nat | i < newSize
          ensures RowByte(TruncateRows(rows, size, newSize), i) == RowByte(rows, i)
        {
          TruncateByte(rows, size, newSize, i);
        }
      }
    } else if last == TWO_31 - 1 && rem == 0 {
      forall rows: Rows, size | RowsFit(rows) && newSize < size
        ensures KeepsVisible(rows, size, newSize)
      {
        assert TruncateRows(rows, size, newSize) == rows;
      }
    } else if last == TWO_31 - 1 {
      CutRowShows(newSize);
    } else {
      PrunedRowShows(newSize, Max(last + 1, 0));
    }
  }

  lemma PrunedRowShows(newSize: nat, n: nat)
    requires newSize >= MAX_BYTES && ToI32(newSize / BLOCK_SIZE) < n < TWO_31
    ensures exists rows: Rows, size: nat :: RowsFit(rows) && newSize < size && !KeepsVisible(rows, size, newSize)
  {
    var rows: Rows := map[n := [1]];
    var after := TruncateRows(rows, newSize + 1, newSize);
    assert n !in after;
    RowByteIsCell(rows, n, 0);
    RowByteIsCell(after, n, 0);
    assert Flat(rows, newSize)[n * BLOCK_SIZE] != Flat(after, newSize)[n * BLOCK_SIZE];
    assert RowsFit(rows) && !KeepsVisible(rows, newSize + 1, newSize);
  }

  lemma CutRowShows(newSize: nat)
    requires newSize >= MAX_BYTES && ToI32(newSize / BLOCK_SIZE) == TWO_31 - 1 && newSize % BLOCK_SIZE > 0
    ensures exists rows: Rows, size: nat :: RowsFit(rows) && newSize < size && !KeepsVisible(rows, size, newSize)
  {
    var n: nat, rem := TWO_31 - 1, newSize % BLOCK_SIZE;
    var rows: Rows := map[n := seq(BLOCK_SIZE, _ => 1)];
    var after := TruncateRows(rows, newSize + 1, newSize);
    assert RowOf(after, n) == rows[n][..rem];
    RowByteIsCell(rows, n, rem);
    RowByteIsCell(after, n, rem);
    var i := n * BLOCK_SIZE + rem;
    assert i < newSize;
    assert Flat(rows, newSize)[i] != Flat(after, newSize)[i];
    assert RowsFit(rows) && !KeepsVisible(rows, newSize + 1, newSize);
  }

  /** A byte string written over an emptied file reads back whole, whatever rows were left behind. */
  lemma OverwriteRoundTrip(rows: Rows, size: nat, data: Bytes)
    ensures Flat(WriteRows(TruncateRows(rows, size, 0), 0, data), |data|) == data
  {
    var base := TruncateRows(rows, size, 0);
    forall i: nat | i < |data|
      ensures RowByte(WriteRows(base, 0, data), i) == data[i]
    {
      WriteRowsByte(base, 0, data, i);
    }
  }
}
