/**
 * Write-back buffering: a handle collects dirty blocks in memory and a flush upserts them. A dirty
 * block starts empty rather than from the stored row, and the flush replaces whole rows, so a
 * buffered run of writes and the same writes issued directly agree only under a condition on the
 * stored bytes. Both directions are proved.
 */
module WriteBack {
  import opened Base
  import opened Paths
  import opened Chunks
  import opened Schema
  import opened Database

  // ---------------------------------------------------------------- runs of writes

  datatype WriteOp = WriteOp(offset: nat, data: Bytes)

  /** The rows after the writes `ws`, in order. */
  function WriteAll(rows: Rows, ws: seq<WriteOp>): Rows {
    if ws == [] then rows
    else
      var w := ws[|ws| - 1];
      WriteRows(WriteAll(rows, ws[..|ws| - 1]), w.offset, w.data)
  }

  /** The size after the writes: empty writes do not count. */
  function SizeAfter(size: nat, ws: seq<WriteOp>): nat {
    if ws == [] then size
    else
      var w, before := ws[|ws| - 1], SizeAfter(size, ws[..|ws| - 1]);
      if w.data == [] then before else Max(before, w.offset + |w.data|)
  }

  predicate InRange(w: WriteOp) { w.offset + |w.data| <= MAX_BYTES }

  predicate Covers(w: WriteOp, i: nat) { w.offset <= i < w.offset + |w.data| }

  /** Some write stores a byte at offset `i`. */
  predicate Covered(ws: seq<WriteOp>, i: nat) {
    ws != [] && (Covers(ws[|ws| - 1], i) || Covered(ws[..|ws| - 1], i))
  }

  /** The byte the last write to cover offset `i` stores there; zero if none does. */
  function Latest(ws: seq<WriteOp>, i: nat): Byte {
    if ws == [] then 0
    else
      var w := ws[|ws| - 1];
      if Covers(w, i) then w.data[i - w.offset] else Latest(ws[..|ws| - 1], i)
  }

  /** Some write touches block `n`. */
  predicate TouchedBy(ws: seq<WriteOp>, n: int) {
    ws != [] && (Touches(ws[|ws| - 1].offset, ws[|ws| - 1].data, n) || TouchedBy(ws[..|ws| - 1], n))
  }

  /** What a handle holds after the writes. */
  function Buffered(ws: seq<WriteOp>): Rows { WriteAll(map[], ws) }

  lemma AppendWrite(ws: seq<WriteOp>, w: WriteOp)
    requires forall v :: v in ws ==> InRange(v)
    ensures Buffered(ws + [w]) == WriteRows(Buffered(ws), w.offset, w.data)
    ensures SizeAfter(0, ws + [w]) ==
            if w.data == [] then SizeAfter(0, ws) else Max(SizeAfter(0, ws), w.offset + |w.data|)
    ensures InRange(w) ==> forall v :: v in ws + [w] ==> InRange(v)
  {
    assert (ws + [w])[..|ws|] == ws;
  }

  lemma EmptyWrite(rows: Rows, offset: nat)
    ensures WriteRows(rows, offset, []) == rows
  {
  }

  /**
   * The buffer's loop: the dirty block, or an empty one, is grown and the chunk copied in. `None` if
   * taking a block's part of the data panics.
   */
  method BufferChunks(dirty: Rows, offset: nat, data: Bytes) returns (r: Option<Rows>)
    requires RowsFit(dirty) && data != [] && offset + |data| < TWO_63
    ensures r == CodeRows(dirty, offset, data)
    ensures offset + |data| <= MAX_BYTES ==> r == Some(WriteRows(dirty, offset, data))
  {
    var bNo := ToI32(FirstBlock(offset));
    var endBlock := ToI32(LastBlock(offset, |data|));
    var rows := dirty;
    CodeLoopStarts(dirty, offset, data);
    while bNo <= endBlock
      invariant LoopAt(dirty, offset, data, bNo, rows)
    {
      CodeLoopStep(dirty, offset, data, bNo, rows);
      if !SliceOk(offset, |data|, bNo) {
        return None;
      }
      var blockData := BufferBlock(dirty, rows, offset, data, bNo);
      rows := rows[bNo := blockData];
      bNo := bNo + 1;
    }
    CodeLoopEnds(dirty, offset, data, bNo, rows);
    r := Some(rows);
  }

  method BufferBlock(ghost dirty: Rows, rows: Rows, offset: nat, data: Bytes, bNo: int) returns (blockData: Bytes)
    requires Touches(offset, data, bNo) && RowsFit(dirty) && RowOf(rows, bNo) == RowOf(dirty, bNo)
    ensures blockData == PatchedRow(RowOf(dirty, bNo), offset, data, bNo)
  {
    var writeStart, writeEnd := ChunkStart(offset, bNo), ChunkEnd(offset, |data|, bNo);
    var chunk := data[writeStart - offset..writeEnd - offset];
    blockData := CopyIn(RowOf(rows, bNo), writeStart - bNo * BLOCK_SIZE, chunk);
    PatchedRowIsGrown(RowOf(rows, bNo), offset, data, bNo, chunk, blockData);
  }

  lemma PatchedRowIsGrown(row: Bytes, offset: nat, data: Bytes, n: int, chunk: Bytes, r: Bytes)
    requires Touches(offset, data, n) && IsChunk(offset, data, n, chunk) && |row| <= BLOCK_SIZE
    requires var at := ChunkStart(offset, n) - n * BLOCK_SIZE;
             && |r| == Max(|row|, at + |chunk|)
             && forall j :: 0 <= j < |r| ==> r[j] == if at <= j < at + |chunk| then chunk[j - at] else ByteIn(row, j)
    ensures r == PatchedRow(row, offset, data, n)
  {
  }

  // ---------------------------------------------------------------- the buffer of a handle

  /** An open handle's buffer; `writes` records what it has been asked to write since its last flush. */
  class HandleBuffer {
    const key: Key
    var dirtyBlocks: Rows
    var maxSize: nat
    ghost var writes: seq<WriteOp>

    constructor (key: Key)
      ensures this.key == key && writes == [] && Valid()
    {
      this.key := key;
      dirtyBlocks, maxSize := map[], 0;
      writes := [];
    }

    ghost predicate Valid()
      reads this
    {
      && dirtyBlocks == Buffered(writes) && maxSize == SizeAfter(0, writes)
      && RowsFit(dirtyBlocks)
      && forall w :: w in writes ==> InRange(w)
    }

    /**
     * Up to 2^47 the buffer holds the write. Past that it keeps the rows the cast loop leaves, or
     * the code panics and `ok` is false; an empty write is nothing at any offset.
     */
    method Write(offset: nat, data: Bytes) returns (ok: bool)
      requires Valid() && offset + |data| < TWO_63
      modifies this
      ensures offset + |data| <= MAX_BYTES || data == [] ==> ok
      ensures offset + |data| <= MAX_BYTES ==>
                && Valid() && writes == old(writes) + [WriteOp(offset, data)]
                && dirtyBlocks == WriteRows(old(dirtyBlocks), offset, data)
      ensures data == [] ==> Valid() && dirtyBlocks == old(dirtyBlocks) && maxSize == old(maxSize)
      ensures data != [] ==>
                var rows := CodeRows(old(dirtyBlocks), offset, data);
                && (ok <==> rows.Some?) && maxSize == Max(old(maxSize), offset + |data|)
                && dirtyBlocks == if ok then rows.value else old(dirtyBlocks)
    {
      ghost var w := WriteOp(offset, data);
      AppendWrite(writes, w);
      ok := true;
      if data == [] {
        EmptyWrite(dirtyBlocks, offset);
      } else {
        maxSize := Max(maxSize, offset + |data|);
        if offset + |data| <= MAX_BYTES {
          WriteRowsFit(dirtyBlocks, offset, data);
        }
        var rows := BufferChunks(dirtyBlocks, offset, data);
        if rows.None? {
          return false;
        }
        dirtyBlocks := rows.value;
      }
      if data != [] || InRange(w) {
        writes := writes + [w];
      }
    }

    predicate Dirty()
      reads this
    {
      dirtyBlocks != map[] || maxSize > 0
    }

    /** There is something to flush exactly if a byte was written since the last flush. */
    lemma DirtyIs()
      requires Valid()
      ensures Dirty() <==> exists w :: w in writes && w.data != []
    {
      DirtyExact(writes);
    }

    method Clear()
      modifies this
      ensures Valid() && writes == []
    {
      dirtyBlocks, maxSize := map[], 0;
      writes := [];
    }
  }

  // ---------------------------------------------------------------- buffered against direct

  lemma {:induction false} CoveredIsTouched(ws: seq<WriteOp>, i: nat)
    requires Covered(ws, i)
    ensures TouchedBy(ws, i / BLOCK_SIZE)
  {
    if !Covers(ws[|ws| - 1], i) {
      CoveredIsTouched(ws[..|ws| - 1], i);
    }
  }

  lemma LastWriteByte(rows: Rows, ws: seq<WriteOp>, i: nat)
    requires ws != []
    ensures var w := ws[|ws| - 1];
            RowByte(WriteAll(rows, ws), i) ==
            if Covers(w, i) then w.data[i - w.offset] else RowByte(WriteAll(rows, ws[..|ws| - 1]), i)
  {
    var w := ws[|ws| - 1];
    WriteRowsByte(WriteAll(rows, ws[..|ws| - 1]), w.offset, w.data, i);
  }

  /** A covered byte is the last one written there, any other byte the stored one. */
  lemma {:induction false} WriteAllByte(rows: Rows, ws: seq<WriteOp>, i: nat)
    ensures RowByte(WriteAll(rows, ws), i) == if Covered(ws, i) then Latest(ws, i) else RowByte(rows, i)
  {
    if ws != [] {
      WriteAllByte(rows, ws[..|ws| - 1], i);
      LastWriteByte(rows, ws, i);
    }
  }

  /** The buffer holds the last written byte at every offset, and zero where nothing was written. */
  lemma {:induction false} BufferedByte(ws: seq<WriteOp>, i: nat)
    ensures RowByte(Buffered(ws), i) == Latest(ws, i)
    ensures !Covered(ws, i) ==> Latest(ws, i) == 0
  {
    if ws != [] {
      BufferedByte(ws[..|ws| - 1], i);
      LastWriteByte(map[], ws, i);
    }
  }

  lemma {:induction false} WriteAllDomain(rows: Rows, ws: seq<WriteOp>, n: int)
    ensures n in WriteAll(rows, ws) <==> n in rows || TouchedBy(ws, n)
  {
    if ws != [] {
      var w, before := ws[|ws| - 1], ws[..|ws| - 1];
      WriteAllDomain(rows, before, n);
      WriteRowsDomain(WriteAll(rows, before), w.offset, w.data, n);
    }
  }

  /** After a flush a touched block holds the last written bytes and zeros only. */
  lemma FlushedByte(rows: Rows, ws: seq<WriteOp>, i: nat)
    ensures RowByte(rows + Buffered(ws), i) == if TouchedBy(ws, i / BLOCK_SIZE) then Latest(ws, i) else RowByte(rows, i)
  {
    WriteAllDomain(map[], ws, i / BLOCK_SIZE);
    BufferedByte(ws, i);
  }

  /** In every touched block, every visible byte no write covers was already zero or absent. */
  ghost predicate NothingToLose(rows: Rows, size: nat, ws: seq<WriteOp>) {
    forall i: nat :: i < size && TouchedBy(ws, i / BLOCK_SIZE) && !Covered(ws, i) ==> RowByte(rows, i) == 0
  }

  /** Buffering then flushing shows the same file as writing directly, exactly when nothing is lost. */
  lemma FlushAgrees(rows: Rows, size: nat, ws: seq<WriteOp>)
    ensures Flat(rows + Buffered(ws), size) == Flat(WriteAll(rows, ws), size) <==> NothingToLose(rows, size, ws)
  {
    var flushed, direct := Flat(rows + Buffered(ws), size), Flat(WriteAll(rows, ws), size);
    forall i: nat | i < size
      ensures flushed[i] == direct[i] <==> (TouchedBy(ws, i / BLOCK_SIZE) && !Covered(ws, i) ==> RowByte(rows, i) == 0)
    {
      FlushedByte(rows, ws, i);
      WriteAllByte(rows, ws, i);
      BufferedByte(ws, i);
      if Covered(ws, i) {
        CoveredIsTouched(ws, i);
      }
    }
    if flushed == direct {
      forall i: nat | i < size && TouchedBy(ws, i / BLOCK_SIZE) && !Covered(ws, i)
        ensures RowByte(rows, i) == 0
      {
        assert flushed[i] == direct[i];
      }
    }
  }

  lemma WriteOverMerge(rows: Rows, dirty: Rows, w: WriteOp)
    requires forall n :: Touches(w.offset, w.data, n) ==> n !in rows
    ensures WriteRows(rows + dirty, w.offset, w.data) == rows + WriteRows(dirty, w.offset, w.data)
  {
    var direct, merged := WriteRows(rows + dirty, w.offset, w.data), rows + WriteRows(dirty, w.offset, w.data);
    forall n
      ensures n in direct <==> n in merged
      ensures n in direct ==> direct[n] == merged[n]
    {
      WriteRowsDomain(rows + dirty, w.offset, w.data, n);
      WriteRowsDomain(dirty, w.offset, w.data, n);
      assert Touches(w.offset, w.data, n) ==> RowOf(rows + dirty, n) == RowOf(dirty, n);
    }
  }

  /** When no touched block has a stored row, the very rows are the same, not just the bytes. */
  lemma {:induction false} FlushSameRows(rows: Rows, ws: seq<WriteOp>)
    requires forall n :: TouchedBy(ws, n) ==> n !in rows
    ensures rows + Buffered(ws) == WriteAll(rows, ws)
  {
    if ws != [] {
      var w, before := ws[|ws| - 1], ws[..|ws| - 1];
      forall n | TouchedBy(before, n) || Touches(w.offset, w.data, n)
        ensures n !in rows
      {
        assert TouchedBy(ws, n);
      }
      FlushSameRows(rows, before);
      WriteOverMerge(rows, Buffered(before), w);
    } else {
      assert rows + map[] == rows;
    }
  }

  // ---------------------------------------------------------------- on the tables

  /** The writes issued one by one to an existing file. */
  function Direct(t: Tables, k: Key, ws: seq<WriteOp>): Tables {
    if ws == [] then t
    else var w := ws[|ws| - 1]; Written(Direct(t, k, ws[..|ws| - 1]), k, w.offset, w.data)
  }

  /** The same writes buffered and flushed. */
  function Flushed(t: Tables, k: Key, ws: seq<WriteOp>): Tables {
    Batched(t, k, Buffered(ws), SizeAfter(0, ws))
  }

  lemma {:induction false} DirectIs(t: Tables, k: Key, ws: seq<WriteOp>)
    requires k in t.entries
    ensures Direct(t, k, ws) == Tables(SetSize(t.entries, k, SizeAfter(t.entries[k].size, ws)),
                                       WithRows(t.blocks, k, WriteAll(FileRows(t.blocks, k), ws)))
  {
    if ws != [] {
      var w, before := ws[|ws| - 1], ws[..|ws| - 1];
      DirectIs(t, k, before);
      if w.data == [] {
        EmptyWrite(WriteAll(FileRows(t.blocks, k), before), w.offset);
      } else {
        WithRowsTwice(t.blocks, k, WriteAll(FileRows(t.blocks, k), before), WriteAll(FileRows(t.blocks, k), ws));
      }
    }
  }

  lemma {:induction false} UntouchedSize(size: nat, ws: seq<WriteOp>)
    requires forall n :: !TouchedBy(ws, n)
    ensures SizeAfter(size, ws) == size
  {
    if ws != [] {
      var w, before := ws[|ws| - 1], ws[..|ws| - 1];
      forall n
        ensures !TouchedBy(before, n) && !Touches(w.offset, w.data, n)
      {
        assert !TouchedBy(ws, n);
      }
      UntouchedSize(size, before);
      assert w.data != [] ==> Touches(w.offset, w.data, FirstBlock(w.offset));
    }
  }

  /** A buffer without rows is clean: nothing was touched, and a flush changes nothing. */
  lemma CleanBuffer(ws: seq<WriteOp>, size: nat)
    requires Buffered(ws) == map[]
    ensures SizeAfter(size, ws) == size && forall n :: !TouchedBy(ws, n)
  {
    forall n
      ensures !TouchedBy(ws, n)
    {
      WriteAllDomain(map[], ws, n);
    }
    UntouchedSize(size, ws);
  }

  /** A buffer has rows, and a size, exactly if some write since the last flush was not empty. */
  lemma {:induction false} DirtyExact(ws: seq<WriteOp>)
    ensures Buffered(ws) != map[] <==> exists w :: w in ws && w.data != []
    ensures SizeAfter(0, ws) > 0 <==> exists w :: w in ws && w.data != []
  {
    if ws != [] {
      var w, before := ws[|ws| - 1], ws[..|ws| - 1];
      DirtyExact(before);
      assert ws == before + [w];
      if w.data == [] {
        EmptyWrite(Buffered(before), w.offset);
      } else {
        WriteRowsDomain(Buffered(before), w.offset, w.data, FirstBlock(w.offset));
      }
    }
  }

  lemma NothingFlushed(t: Tables, k: Key, ws: seq<WriteOp>)
    requires Buffered(ws) == map[]
    ensures Flushed(t, k, ws) == t
  {
    CleanBuffer(ws, 0);
    var none: Rows := map[];
    assert FileRows(t.blocks, k) + none == FileRows(t.blocks, k);
  }

  lemma {:induction false} SizeAfterIs(size: nat, ws: seq<WriteOp>)
    ensures SizeAfter(size, ws) == Max(size, SizeAfter(0, ws))
  {
    if ws != [] {
      SizeAfterIs(size, ws[..|ws| - 1]);
    }
  }

  lemma BothRows(t: Tables, k: Key, ws: seq<WriteOp>, j: Key)
    requires k in t.entries
    ensures FileRows(Flushed(t, k, ws).blocks, j) ==
            if j == k then FileRows(t.blocks, k) + Buffered(ws) else FileRows(t.blocks, j)
    ensures FileRows(Direct(t, k, ws).blocks, j) ==
            if j == k then WriteAll(FileRows(t.blocks, k), ws) else FileRows(t.blocks, j)
  {
    DirectIs(t, k, ws);
    RowsOfWithRows(t.blocks, k, FileRows(t.blocks, k) + Buffered(ws), j);
    RowsOfWithRows(t.blocks, k, WriteAll(FileRows(t.blocks, k), ws), j);
  }

  lemma FlushSameEntries(t: Tables, k: Key, ws: seq<WriteOp>)
    requires k in t.entries
    ensures Flushed(t, k, ws).entries == Direct(t, k, ws).entries ==
            SetSize(t.entries, k, SizeAfter(t.entries[k].size, ws))
  {
    DirectIs(t, k, ws);
    SizeAfterIs(t.entries[k].size, ws);
  }

  lemma FlushSameContent(t: Tables, k: Key, ws: seq<WriteOp>)
    requires k in t.entries
    ensures k in Flushed(t, k, ws).entries && k in Direct(t, k, ws).entries
    ensures Content(Flushed(t, k, ws), k) == Content(Direct(t, k, ws), k)
            <==> NothingToLose(FileRows(t.blocks, k), SizeAfter(t.entries[k].size, ws), ws)
  {
    FlushSameEntries(t, k, ws);
    BothRows(t, k, ws, k);
    FlushAgrees(FileRows(t.blocks, k), SizeAfter(t.entries[k].size, ws), ws);
  }

  lemma FlushSameTables(t: Tables, k: Key, ws: seq<WriteOp>)
    requires k in t.entries
    ensures (forall n :: TouchedBy(ws, n) ==> n !in FileRows(t.blocks, k)) ==> Flushed(t, k, ws) == Direct(t, k, ws)
  {
    if forall n :: TouchedBy(ws, n) ==> n !in FileRows(t.blocks, k) {
      FlushSameEntries(t, k, ws);
      DirectIs(t, k, ws);
      FlushSameRows(FileRows(t.blocks, k), ws);
    }
  }

  /**
   * Buffered and direct writes to an existing file: always the same sizes and the same other
   * files; the same content exactly when nothing is lost; the same tables when no touched block
   * has a stored row.
   */
  lemma FlushVersusDirect(t: Tables, k: Key, ws: seq<WriteOp>)
    requires k in t.entries
    ensures Flushed(t, k, ws).entries == Direct(t, k, ws).entries
    ensures forall j :: j != k ==> FileRows(Flushed(t, k, ws).blocks, j) == FileRows(t.blocks, j)
                                   && FileRows(Direct(t, k, ws).blocks, j) == FileRows(t.blocks, j)
    ensures k in Direct(t, k, ws).entries
    ensures Content(Flushed(t, k, ws), k) == Content(Direct(t, k, ws), k)
            <==> NothingToLose(FileRows(t.blocks, k), SizeAfter(t.entries[k].size, ws), ws)
    ensures (forall n :: TouchedBy(ws, n) ==> n !in FileRows(t.blocks, k)) ==> Flushed(t, k, ws) == Direct(t, k, ws)
  {
    FlushSameEntries(t, k, ws);
    FlushSameContent(t, k, ws);
    FlushSameTables(t, k, ws);
    forall j | j != k
      ensures FileRows(Flushed(t, k, ws).blocks, j) == FileRows(t.blocks, j)
      ensures FileRows(Direct(t, k, ws).blocks, j) == FileRows(t.blocks, j)
    {
      BothRows(t, k, ws, j);
    }
  }
}
