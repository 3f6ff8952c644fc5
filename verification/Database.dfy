/**
 * The statements the daemon sends to its tables, one method per database operation. Each method
 * is one transaction: it works on the tables step by step and either commits or leaves them alone.
 */
module Database {
  import opened Base
  import opened Paths
  import opened Chunks
  import opened Schema
  import opened Relabel
  import opened Renaming

  datatype DbError = NotAFile | NoSource | TargetNotEmpty | KeyConflict | ZeroRows

  const USIZE_MAX: nat := 0xFFFF_FFFF_FFFF_FFFF

  /** The rows a read of the blocks `lo` to `hi` selects. */
  function SelectRows(rows: Rows, lo: int, hi: int): Rows {
    map n | n in rows && lo <= n <= hi :: rows[n]
  }

  /** What a read loop appends for one block: the row's bytes, zeros where it is short or missing. */
  method ReadPart(row: Bytes, at: nat, count: nat) returns (part: Bytes)
    ensures |part| == count
    ensures forall j :: 0 <= j < count ==> part[j] == ByteIn(row, at + j)
  {
    part := [];
    var sliceEnd := Min(at + count, |row|);
    if at < |row| {
      part := part + row[at..sliceEnd];
      if sliceEnd < at + count {
        part := part + Zeros(at + count - sliceEnd);
      }
    } else {
      part := part + Zeros(count);
    }
  }

  /** A part taken from block `n` in range shows the bytes of the file from `current` on. */
  lemma PartBytes(rows: Rows, n: nat, at: nat, part: Bytes, current: nat)
    requires current == n * BLOCK_SIZE + at && at + |part| <= BLOCK_SIZE
    requires forall j :: 0 <= j < |part| ==> part[j] == ByteIn(RowOf(rows, n), at + j)
    ensures forall j :: 0 <= j < |part| ==> part[j] == RowByte(rows, current + j)
  {
    forall j | 0 <= j < |part|
      ensures part[j] == RowByte(rows, current + j)
    {
      RowByteIsCell(rows, n, at + j);
    }
  }

  /** A part taken past 2^47 is zero, as is every byte of the file there. */
  lemma NoBytesPast(rows: Rows, b: int, at: nat, part: Bytes, current: nat)
    requires RowsFit(rows) && b < 0 && current >= MAX_BYTES
    requires forall j :: 0 <= j < |part| ==> part[j] == ByteIn(RowOf(rows, b), at + j)
    ensures forall j :: 0 <= j < |part| ==> part[j] == RowByte(rows, current + j)
  {
    forall j | 0 <= j < |part|
      ensures RowByte(rows, current + j) == 0 && part[j] == 0
    {
      assert (current + j) / BLOCK_SIZE >= TWO_31;
    }
  }

  /** The first step of a read wraps its byte count, and appending that many zeros panics. */
  predicate ReadPanics(offset: nat, end: nat) {
    MAX_BYTES <= offset < end && ToI32(FirstBlock(offset)) >= -1
  }

  /**
   * One step of the read loop, in the arithmetic of a release build: at least one byte, to the end of
   * the block or of the range. `None` if it panics.
   */
  method ReadStep(rows: Rows, current: nat, end: nat) returns (part: Option<Bytes>)
    requires current < end < TWO_63 && (end <= MAX_BYTES || RowsFit(rows))
    ensures part.None? <==> ReadPanics(current, end)
    ensures part.Some? ==>
              && 0 < |part.value| <= end - current
              && (if current < MAX_BYTES then current + |part.value| <= MAX_BYTES else current + |part.value| == end)
              && forall j :: 0 <= j < |part.value| ==> part.value[j] == RowByte(rows, current + j)
  {
    CastLowers(FirstBlock(current));
    BlockNumberCastExact(current);
    var blockNo := ToI32(FirstBlock(current));
    BlockEnds(blockNo);
    var blockOffset := (current - BlockStart(blockNo)) % TWO_64;
    var count := (Min(BlockEnd(blockNo), end) - current) % TWO_64;
    if count >= TWO_63 {
      return None;
    }
    var bytes := ReadPart(RowOf(rows, blockNo), blockOffset, count);
    if current < MAX_BYTES {
      PartBytes(rows, blockNo, blockOffset, bytes, current);
    } else {
      NoBytesPast(rows, blockNo, blockOffset, bytes, current);
    }
    return Some(bytes);
  }

  /**
   * The read loop: every step advances by at least one byte and appends as many bytes as it
   * advances. Wherever it does not panic, it returns the bytes the rows hold.
   */
  method Assemble(rows: Rows, offset: nat, end: nat) returns (r: Option<Bytes>)
    requires offset <= end < TWO_63 && (end <= MAX_BYTES || RowsFit(rows))
    ensures r.None? <==> ReadPanics(offset, end)
    ensures r.Some? ==> |r.value| == end - offset
                        && forall i :: 0 <= i < |r.value| ==> r.value[i] == RowByte(rows, offset + i)
  {
    var result := [];
    var current := offset;
    BlockNumberCastExact(MAX_BYTES);
    while current < end
      invariant offset <= current <= end && |result| == current - offset
      invariant current == offset || current <= MAX_BYTES || current == end
      invariant forall i :: 0 <= i < |result| ==> result[i] == RowByte(rows, offset + i)
      invariant ReadPanics(offset, end) ==> current == offset
    {
      var part := ReadStep(rows, current, end);
      if part.None? {
        return None;
      }
      result := result + part.value;
      current := current + |part.value|;
    }
    return Some(result);
  }

  lemma SelectedBytes(rows: Rows, offset: nat, len: nat, i: nat)
    requires len > 0 && offset <= i < offset + len
    ensures RowByte(SelectRows(rows, FirstBlock(offset), LastBlock(offset, len)), i) == RowByte(rows, i)
  {
  }

  /** The rows a read selects, with the casts as they are. */
  function Selected(rows: Rows, offset: nat, len: nat): Rows
    requires len > 0
  {
    SelectRows(rows, ToI32(FirstBlock(offset)), ToI32(LastBlock(offset, len)))
  }

  ghost predicate SelectionShows(offset: nat, len: nat)
    requires len > 0
  {
    forall rows, i {:trigger RowByte(rows, i)} :: RowsFit(rows) && offset <= i < offset + len ==>
      RowByte(Selected(rows, offset, len), i) == RowByte(rows, i)
  }

  /**
   * When the selected rows show every stored byte of a range, for all stored rows: the range ends at
   * or below 2^47, starts there or above (where nothing is stored), or its last block number wraps
   * to the largest i32. Otherwise, if the end wraps below the start, no row is selected at all.
   */
  lemma ReadBoundExact(offset: nat, len: nat)
    requires len > 0
    ensures SelectionShows(offset, len) <==>
              offset + len <= MAX_BYTES || offset >= MAX_BYTES || ToI32(LastBlock(offset, len)) == TWO_31 - 1
    ensures ToI32(LastBlock(offset, len)) < ToI32(FirstBlock(offset)) ==>
              forall rows :: Selected(rows, offset, len) == map[]
  {
    var last := ToI32(LastBlock(offset, len));
    CastLowers(FirstBlock(offset));
    CastLowers(LastBlock(offset, len));
    if offset + len <= MAX_BYTES || offset >= MAX_BYTES || last == TWO_31 - 1 {
      forall rows, i | RowsFit(rows) && offset <= i < offset + len
        ensures RowByte(Selected(rows, offset, len), i) == RowByte(rows, i)
      {
        SelectionKeeps(rows, offset, len, i);
      }
    } else {
      var i := MAX_BYTES - 1;
      var rows: Rows := map[i / BLOCK_SIZE := seq(BLOCK_SIZE, _ => 1)];
      assert RowsFit(rows) && RowByte(Selected(rows, offset, len), i) != RowByte(rows, i);
    }
  }

  lemma SelectionKeeps(rows: Rows, offset: nat, len: nat, i: nat)
    requires len > 0 && RowsFit(rows) && offset <= i < offset + len
    requires offset + len <= MAX_BYTES || offset >= MAX_BYTES || ToI32(LastBlock(offset, len)) == TWO_31 - 1
    ensures RowByte(Selected(rows, offset, len), i) == RowByte(rows, i)
  {
    if offset + len <= MAX_BYTES {
      BlockRange(offset, len);
      SelectedBytes(rows, offset, len, i);
    } else if offset >= MAX_BYTES {
      assert i / BLOCK_SIZE >= TWO_31;
    } else {
      BlockNumberCastExact(offset);
      assert FirstBlock(offset) <= i / BLOCK_SIZE;
    }
  }

  /** The end of what a read of `len` bytes at `offset` of a file of this size covers. */
  function ReadEnd(size: nat, offset: nat, len: nat): nat { Max(offset, Min(offset + len, size)) }

  /**
   * What a read gives: nothing for what is not a file, no bytes at or past the end of the file, the
   * flat file's bytes up to min(offset + len, size) if they end at or below 2^47, and past that the
   * selected rows' bytes unless it panics (`ok` is false).
   */
  ghost predicate ReadOutcome(t: Tables, k: Key, offset: nat, len: nat, r: Option<Bytes>, ok: bool) {
    if !IsFile(t, k) then ok && r.None?
    else
      var size := t.entries[k].size;
      var end := offset + if offset < size then Min(len, size - offset) else 0;
      if end == offset then ok && r == Some([])
      else if end <= MAX_BYTES then
        && ok && r.Some? && |r.value| == end - offset
        && forall i :: 0 <= i < |r.value| ==> r.value[i] == Content(t, k)[offset + i]
      else
        && (ok <==> !ReadPanics(offset, end))
        && (ok ==> r.Some? && |r.value| == end - offset
                   && forall i :: 0 <= i < |r.value| ==>
                        r.value[i] == RowByte(Selected(FileRows(t.blocks, k), offset, end - offset), offset + i))
  }

  lemma AssembledBytes(rows: Rows, size: nat, offset: nat, result: Bytes)
    requires result != [] && offset + |result| <= size && offset + |result| <= MAX_BYTES
    requires forall i :: 0 <= i < |result| ==> result[i] == RowByte(Selected(rows, offset, |result|), offset + i)
    ensures forall i :: 0 <= i < |result| ==> result[i] == Flat(rows, size)[offset + i]
  {
    BlockRange(offset, |result|);
    forall i | 0 <= i < |result|
      ensures result[i] == Flat(rows, size)[offset + i]
    {
      SelectedBytes(rows, offset, |result|, offset + i);
    }
  }

  /** INSERT ... ON CONFLICT DO UPDATE of one row. */
  function Upserted(blocks: BlockTable, k: Key, n: int, row: Bytes): BlockTable {
    var rows := FileRows(blocks, k)[n := row];
    assert n in rows;
    blocks[k := rows]
  }

  /** Read-modify-write of one row; a whole-block chunk does not look at the stored row. */
  method PatchBlock(rows: Rows, offset: nat, data: Bytes, bNo: int) returns (blockData: Bytes)
    requires Touches(offset, data, bNo)
    ensures blockData == PatchedRow(RowOf(rows, bNo), offset, data, bNo)
  {
    var blockStart := bNo * BLOCK_SIZE;
    var writeStart, writeEnd := ChunkStart(offset, bNo), ChunkEnd(offset, |data|, bNo);
    var chunk := data[writeStart - offset..writeEnd - offset];
    var blockOffset := writeStart - blockStart;
    blockData := [];
    if blockOffset > 0 || |chunk| < BLOCK_SIZE {
      blockData := RowOf(rows, bNo);
    }
    ghost var base := blockData;
    blockData := CopyIn(blockData, blockOffset, chunk);
    PatchedRowIs(RowOf(rows, bNo), offset, data, bNo, base, chunk, blockData);
  }

  /** Grow a buffer with zeros so that `chunk` fits at `at`, then copy `chunk` in. */
  method CopyIn(row: Bytes, at: nat, chunk: Bytes) returns (r: Bytes)
    ensures |r| == Max(|row|, at + |chunk|)
    ensures forall j :: 0 <= j < |r| ==> r[j] == if at <= j < at + |chunk| then chunk[j - at] else ByteIn(row, j)
  {
    r := row;
    if |r| < at + |chunk| {
      r := r + Zeros(at + |chunk| - |r|);
    }
    r := r[..at] + chunk + r[at + |chunk|..];
  }

  /**
   * The loop of a write over the rows of its file: every visited row is read, patched and upserted.
   * `None` if taking a block's part of the data panics.
   */
  method UpsertChunks(stored: Rows, offset: nat, data: Bytes) returns (r: Option<Rows>)
    requires data != [] && offset + |data| < TWO_63
    ensures r == CodeRows(stored, offset, data)
    ensures offset + |data| <= MAX_BYTES ==> r == Some(WriteRows(stored, offset, data))
  {
    var bNo := ToI32(FirstBlock(offset));
    var endBlock := ToI32(LastBlock(offset, |data|));
    var rows := stored;
    CodeLoopStarts(stored, offset, data);
    while bNo <= endBlock
      invariant LoopAt(stored, offset, data, bNo, rows)
    {
      CodeLoopStep(stored, offset, data, bNo, rows);
      if !SliceOk(offset, |data|, bNo) {
        return None;
      }
      var blockData := PatchBlock(rows, offset, data, bNo);
      rows := rows[bNo := blockData];
      bNo := bNo + 1;
    }
    CodeLoopEnds(stored, offset, data, bNo, rows);
    r := Some(rows);
  }

  lemma UpsertedRows(blocks: BlockTable, k: Key, n: int, row: Bytes)
    ensures Upserted(blocks, k, n, row) == WithRows(blocks, k, FileRows(blocks, k)[n := row])
  {
  }

  lemma WithRowsTwice(blocks: BlockTable, k: Key, rows: Rows, again: Rows)
    ensures WithRows(WithRows(blocks, k, rows), k, again) == WithRows(blocks, k, again)
    ensures FileRows(WithRows(blocks, k, rows), k) == rows
  {
  }

  /** Some element of a hash map's key set: iteration order is arbitrary. */
  method Pick<T(==)>(s: set<T>) returns (x: T)
    requires s != {}
    ensures x in s
  {
    x :| x in s;
  }

  lemma MergeOne(rows: Rows, dirty: Rows, todo: set<int>, n: int)
    requires todo <= dirty.Keys && n in todo
    ensures rows + (dirty - (todo - {n})) == (rows + (dirty - todo))[n := dirty[n]]
    ensures todo - {n} < todo
  {
  }

  /** One UPDATE of the keys of both tables. */
  method UpdateBoth(t: Tables, f: Key -> Key) returns (r: Option<Tables>)
    ensures r.Some? ==> Distinct(t, f) && r.value == Updated(t, f)
    ensures NoCollision(t, f) ==> r.Some?
  {
    var e := UpdateKeys(t.entries, f);
    if e.None? {
      return None;
    }
    var b := UpdateKeys(t.blocks, f);
    if b.None? {
      return None;
    }
    return Some(Tables(e.value, b.value));
  }

  /** The UPDATE statements of a rename: a directory's cascade, then the entry's own rows. */
  method MoveRows(t: Tables, src: Key, to: Key, kind: Kind) returns (r: Result<Tables, DbError>)
    ensures r.Ok? ==> StatementsDistinct(t, src, to, kind) && r.value == StatementsResult(t, src, to, kind)
    ensures StatementsOk(t, src, to, kind) ==> r.Ok?
  {
    var txn := t;
    if kind == Dir {
      var cascaded := UpdateBoth(txn, CascadeKey(PathOf(src), PathOf(to)));
      if cascaded.None? {
        return Err(KeyConflict);
      }
      txn := cascaded.value;
    }
    var moved := UpdateBoth(txn, MoveKey(src, to));
    if moved.None? {
      return Err(KeyConflict);
    }
    if src !in txn.entries {
      return Err(ZeroRows);
    }
    return Ok(moved.value);
  }

  /** The tables once an existing target is deleted. */
  function TargetDropped(t: Tables, to: Key): Tables { if to in t.entries then Unlinked(t, to) else t }

  /** The transaction of a rename on a copy of the tables: drop an existing target, then move the rows. */
  method RenameTransaction(t: Tables, src: Key, to: Key, kind: Kind) returns (r: Result<Tables, DbError>)
    requires src in t.entries && kind == t.entries[src].kind
    ensures IsDir(t, to) && HasChildren(t.entries, PathOf(to)) ==> r == Err(TargetNotEmpty)
    ensures r.Ok? ==> StatementsDistinct(TargetDropped(t, to), src, to, kind)
                      && r.value == StatementsResult(TargetDropped(t, to), src, to, kind)
    ensures RenameSafe(t, src, to) ==> r == Ok(Renamed(t, src, to))
  {
    if RenameSafe(t, src, to) {
      StatementsRename(t, src, to);
    }
    var txn := t;
    if to in t.entries {
      if t.entries[to].kind == Dir && HasChildren(t.entries, PathOf(to)) {
        return Err(TargetNotEmpty);
      }
      txn := Unlinked(t, to);
    }
    r := MoveRows(txn, src, to, kind);
  }

  /**
   * What a write leaves: at or below 2^47 the written file; past it the rows of the visited blocks
   * with the size grown, or nothing if it panics (`ok` is false). An empty write leaves everything.
   */
  ghost predicate WriteOutcome(t: Tables, k: Key, offset: nat, data: Bytes, ok: bool, after: Tables) {
    && (offset + |data| <= MAX_BYTES || data == [] ==> ok && after == Written(t, k, offset, data))
    && (data != [] ==>
          var rows := CodeRows(FileRows(t.blocks, k), offset, data);
          && (ok <==> rows.Some?)
          && after == if ok then Tables(SetSize(t.entries, k, Max(SizeOf(t.entries, k), offset + |data|)),
                                        WithRows(t.blocks, k, rows.value))
                      else t)
  }

  class Db {
    var entries: EntryTable
    var blocks: BlockTable

    constructor ()
      ensures State() == Tables(map[], map[])
    {
      entries, blocks := map[], map[];
    }

    ghost function State(): Tables
      reads this
    {
      Tables(entries, blocks)
    }

    method GetattrPrimary(k: Key) returns (meta: Option<Entry>)
      ensures meta == if k in entries then Some(entries[k]) else None
    {
      if k in entries {
        meta := Some(entries[k]);
      } else {
        meta := None;
      }
    }

    method ListPrimary(parent: string) returns (children: set<Key>)
      ensures children == ChildrenOf(entries, parent)
    {
      children := ChildrenOf(entries, parent);
    }

    /** A read never alters the tables. `ok` is false if it panics. */
    method ReadRangePrimary(k: Key, offset: nat, len: nat) returns (r: Option<Bytes>, ok: bool)
      requires var end := ReadEnd(SizeOf(entries, k), offset, len);
               end == offset || end <= MAX_BYTES || (end < TWO_63 && RowsFit(FileRows(blocks, k)))
      ensures ReadOutcome(State(), k, offset, len, r, ok)
    {
      var meta := GetattrPrimary(k);
      if meta.None? || meta.value.kind != File {
        return None, true;
      }
      var size := meta.value.size;
      if offset >= size {
        return Some([]), true;
      }
      var actualLen := Min(len, size - offset);
      if actualLen == 0 {
        return Some([]), true;
      }
      var startBlock := ToI32(FirstBlock(offset));
      var endBlock := ToI32(LastBlock(offset, actualLen));
      var rows := SelectRows(FileRows(blocks, k), startBlock, endBlock);
      var result := Assemble(rows, offset, offset + actualLen);
      if result.None? {
        return None, false;
      }
      if offset + actualLen <= MAX_BYTES {
        AssembledBytes(FileRows(blocks, k), size, offset, result.value);
      }
      return result, true;
    }

    method ReadPrimary(k: Key) returns (r: Option<Bytes>, ok: bool)
      requires SizeOf(entries, k) <= MAX_BYTES || (SizeOf(entries, k) < TWO_63 && RowsFit(FileRows(blocks, k)))
      ensures ok && (SizeOf(entries, k) <= MAX_BYTES ==>
                       r == if IsFile(State(), k) then Some(Content(State(), k)) else None)
      ensures ReadOutcome(State(), k, 0, SizeOf(entries, k), r, ok)
    {
      r, ok := ReadRangePrimary(k, 0, USIZE_MAX);
      if IsFile(State(), k) && SizeOf(entries, k) <= MAX_BYTES {
        assert r.value == Content(State(), k);
      }
    }

    /**
     * The visited rows, then the size: one transaction. Up to 2^47 the visited rows are all rows of
     * the write. `ok` is false if the code panics before it commits.
     */
    method WriteRange(k: Key, offset: nat, data: Bytes) returns (ok: bool)
      requires offset + |data| < TWO_63
      modifies this
      ensures WriteOutcome(old(State()), k, offset, data, ok, State())
    {
      if data == [] {
        return true;
      }
      var newSize := Max(SizeOf(entries, k), offset + |data|);
      var rows := UpsertChunks(FileRows(blocks, k), offset, data);
      if rows.None? {
        return false;
      }
      blocks := WithRows(blocks, k, rows.value);
      entries := SetSize(entries, k, newSize);
      return true;
    }

    method Truncate(k: Key, newSize: nat) returns (r: Result<(), DbError>)
      modifies this
      ensures r == if IsFile(old(State()), k) then Ok(()) else Err(NotAFile)
      ensures State() == if r.Ok? then Truncated(old(State()), k, newSize) else old(State())
    {
      var meta := GetattrPrimary(k);
      if meta.None? || meta.value.kind != File {
        return Err(NotAFile);
      }
      var rows := FileRows(blocks, k);
      if newSize < meta.value.size {
        var last := ToI32(newSize / BLOCK_SIZE);
        rows := map n | n in rows && n <= last :: rows[n];
        var rem := newSize % BLOCK_SIZE;
        if rem > 0 && last in rows {
          rows := rows[last := Cut(rows[last], rem)];
        }
      }
      blocks := WithRows(blocks, k, rows);
      entries := SetSize(entries, k, newSize);
      return Ok(());
    }

    /** Upserts the dirty rows in an arbitrary order; the outcome does not depend on it. */
    method WriteBlocksBatch(k: Key, dirty: Rows, newSize: nat)
      modifies this
      ensures State() == Batched(old(State()), k, dirty, newSize)
    {
      var todo: set<int> := dirty.Keys;
      assert FileRows(blocks, k) + (dirty - todo) == FileRows(blocks, k);
      while todo != {}
        invariant todo <= dirty.Keys
        invariant entries == old(entries)
        invariant blocks == WithRows(old(blocks), k, FileRows(old(blocks), k) + (dirty - todo))
        decreases todo
      {
        var n := Pick(todo);
        ghost var was := FileRows(old(blocks), k);
        MergeOne(was, dirty, todo, n);
        WithRowsTwice(old(blocks), k, was + (dirty - todo), was + (dirty - (todo - {n})));
        UpsertedRows(blocks, k, n, dirty[n]);
        blocks := Upserted(blocks, k, n, dirty[n]);
        todo := todo - {n};
      }
      assert dirty - todo == dirty;
      if newSize > 0 {
        entries := SetSize(entries, k, Max(SizeOf(entries, k), newSize));
      }
    }

    /** Replace the whole file: whatever rows an earlier truncate left behind, `data` reads back. */
    method Write(k: Key, data: Bytes) returns (r: Result<(), DbError>)
      requires |data| <= MAX_BYTES
      modifies this
      ensures r == if IsFile(old(State()), k) then Ok(()) else Err(NotAFile)
      ensures r.Err? ==> State() == old(State())
      ensures r.Ok? ==> IsFile(State(), k) && Content(State(), k) == data
      ensures r.Ok? ==> forall j :: j != k && j in old(entries) ==>
                j in entries && entries[j] == old(entries[j]) && FileRows(blocks, j) == FileRows(old(blocks), j)
    {
      r := Truncate(k, 0);
      if r.Err? {
        return;
      }
      ghost var emptied := blocks;
      var ok := WriteRange(k, 0, data);
      ghost var was, size := FileRows(old(blocks), k), old(SizeOf(entries, k));
      OverwriteRoundTrip(was, size, data);
      forall j
        ensures FileRows(blocks, j) ==
                if j == k then WriteRows(TruncateRows(was, size, 0), 0, data) else FileRows(old(blocks), j)
      {
        RowsOfWithRows(old(blocks), k, TruncateRows(was, size, 0), j);
        RowsOfWithRows(emptied, k, WriteRows(FileRows(emptied, k), 0, data), j);
      }
    }

    method Create(k: Key)
      modifies this
      ensures State() == Inserted(old(State()), k, File)
    {
      if k !in entries {
        entries := entries[k := Entry(File, 0)];
      }
    }

    method Mkdir(k: Key)
      modifies this
      ensures State() == Inserted(old(State()), k, Dir)
    {
      if k !in entries {
        entries := entries[k := Entry(Dir, 0)];
      }
    }

    method Unlink(k: Key)
      modifies this
      ensures State() == Unlinked(old(State()), k)
    {
      entries := entries - {k};
      blocks := blocks - {k};
    }

    /** Deletes the entry unless something has it as parent; true if a row was deleted. */
    method Rmdir(k: Key) returns (deleted: bool)
      modifies this
      ensures deleted <==> k in old(entries) && !HasChildren(old(entries), PathOf(k))
      ensures State() == if deleted then old(State()).(entries := old(entries) - {k}) else old(State())
    {
      if HasChildren(entries, PathOf(k)) {
        return false;
      }
      deleted := k in entries;
      entries := entries - {k};
    }

    /**
     * The rename transaction. It works on copies of the tables and commits at the end, so an
     * error leaves both tables as they were. When the caller's checks hold and the cascade fits no
     * statement can fail, whatever order the updated rows are visited in; and whenever a rename
     * succeeds the tables are what its statements make of the keys.
     */
    method Rename(src: Key, to: Key) returns (r: Result<(), DbError>)
      modifies this
      ensures RenameSafe(old(State()), src, to) ==> r == Ok(()) && State() == Renamed(old(State()), src, to)
      ensures !RenameSafe(old(State()), src, to) ==>
                && (r.Err? ==> State() == old(State()))
                && (src != to && r.Ok? ==>
                      && src in old(entries)
                      && StatementsDistinct(TargetDropped(old(State()), to), src, to, old(entries)[src].kind)
                      && State() == StatementsResult(TargetDropped(old(State()), to), src, to, old(entries)[src].kind))
                && (src == to ==> r == Ok(()) && State() == old(State()))
                && (src != to && src !in old(entries) ==> r == Err(NoSource))
                && (src != to && src in old(entries) && IsDir(old(State()), to) ==>
                      (HasChildren(old(entries), PathOf(to)) ==> r == Err(TargetNotEmpty)))
    {
      if src == to {
        return Ok(());
      }
      var meta := GetattrPrimary(src);
      if meta.None? {
        return Err(NoSource);
      }
      var moved := RenameTransaction(Tables(entries, blocks), src, to, meta.value.kind);
      if moved.Err? {
        return Err(moved.error);
      }
      entries, blocks := moved.value.entries, moved.value.blocks;
      return Ok(());
    }
  }
}
