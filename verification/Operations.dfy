/**
 * The filesystem operations on the tables, with the checks the FUSE callbacks make before they
 * touch the database, and what the kernel guarantees when it calls them.
 */
module Operations {
  import opened Base
  import opened Paths
  import opened Chunks
  import opened Schema
  import opened Renaming
  import opened WriteBack

  datatype Errno = ENOENT | EEXIST | ENOTEMPTY | EISDIR | ENOTDIR | EINVAL | EIO

  datatype Reply = Done | Failed(errno: Errno)

  datatype Op =
    | Create(k: Key)
    | Mkdir(k: Key)
    | Write(k: Key, offset: nat, data: Bytes)
    | Flush(k: Key, ws: seq<WriteOp>)
    | SetSize(k: Key, size: nat)
    | Unlink(k: Key)
    | Rmdir(k: Key)
    | Rename(src: Key, to: Key)

  /** A file is not shrunk to a size whose block number the i32 cast would wrap. */
  predicate SizeInRange(t: Tables, k: Key, size: nat) {
    IsFile(t, k) && size < t.entries[k].size ==> size < MAX_BYTES
  }

  /**
   * What the kernel guarantees: names are valid, directories it passes exist, `unlink` is only
   * for files and `rmdir` only for directories, and writes go to existing files. Beside that:
   * writes end, and files are shrunk, below 2^47; a flush's key names a file unless it is clean; and
   * if a directory is about to be renamed, the cascade fits the stored rows. What happens outside
   * these bounds: CodeRowsExact, ShrinkKeepsExact, FlushWellFormedExact and StatementsExact.
   */
  predicate Enabled(t: Tables, op: Op) {
    match op
    case Create(k) => ValidName(k.name) && DirExists(t.entries, k.parent)
    case Mkdir(k) => ValidName(k.name) && DirExists(t.entries, k.parent)
    case Write(k, offset, data) => IsFile(t, k) && offset + |data| <= MAX_BYTES
    case Flush(k, ws) => (IsFile(t, k) || Buffered(ws) == map[]) && forall w :: w in ws ==> InRange(w)
    case SetSize(k, size) => ValidName(k.name) && SizeInRange(t, k, size)
    case Unlink(k) => ValidName(k.name) && (k in t.entries ==> IsFile(t, k))
    case Rmdir(k) => ValidName(k.name) && (k in t.entries ==> IsDir(t, k))
    case Rename(src, to) =>
      ValidName(src.name) && ValidName(to.name) && DirExists(t.entries, to.parent)
      && (PathOf(src) != PathOf(to) && RenameChecks(t, src, to) == Done && IsDir(t, src) ==>
            CascadeFits(t.entries, src, to))
  }

  /** The checks of the rename callback, in its order; `Done` if it goes on to the transaction. */
  function RenameChecks(t: Tables, src: Key, to: Key): Reply {
    if Under(PathOf(src), PathOf(to)) then Failed(EINVAL)
    else if src !in t.entries then Failed(ENOENT)
    else if to !in t.entries then Done
    else
      match (t.entries[src].kind, t.entries[to].kind)
      case (File, Dir) => Failed(EISDIR)
      case (Dir, File) => Failed(ENOTDIR)
      case (Dir, Dir) => if HasChildren(t.entries, PathOf(to)) then Failed(ENOTEMPTY) else Done
      case (File, File) => Done
  }

  /** The callback's checks are what the statements need, and that the target is of the source's kind. */
  lemma ChecksSuffice(t: Tables, src: Key, to: Key)
    requires WellFormed(t) && ValidName(src.name) && ValidName(to.name) && DirExists(t.entries, to.parent)
    ensures src != to && RenameChecks(t, src, to) == Done <==> RenameReady(t, src, to) && SameKind(t.entries, src, to)
  {
  }

  function StepReply(t: Tables, op: Op): Reply {
    match op
    case Create(k) => if k in t.entries then Failed(EEXIST) else Done
    case Mkdir(k) => if k in t.entries then Failed(EEXIST) else Done
    case Write(_, _, _) => Done
    case Flush(_, _) => Done
    case SetSize(k, _) =>
      if k !in t.entries then Failed(ENOENT) else if t.entries[k].kind == Dir then Failed(EISDIR) else Done
    case Unlink(_) => Done
    case Rmdir(k) =>
      if k !in t.entries then Failed(ENOENT)
      else if HasChildren(t.entries, PathOf(k)) then Failed(ENOTEMPTY)
      else Done
    case Rename(src, to) => if PathOf(src) == PathOf(to) then Done else RenameChecks(t, src, to)
  }

  /** The tables after one operation. Every reply but `Done` leaves them as they were. */
  ghost function Step(t: Tables, op: Op): Tables
    requires WellFormed(t) && Enabled(t, op)
  {
    if StepReply(t, op) != Done then t
    else
      match op
      case Create(k) => Inserted(t, k, File)
      case Mkdir(k) => Inserted(t, k, Dir)
      case Write(k, offset, data) => Written(t, k, offset, data)
      case Flush(k, ws) => Flushed(t, k, ws)
      case SetSize(k, size) => Truncated(t, k, size)
      case Unlink(k) => Unlinked(t, k)
      case Rmdir(k) => t.(entries := t.entries - {k})
      case Rename(src, to) =>
        if PathOf(src) == PathOf(to) then t
        else
          ChecksSuffice(t, src, to);
          Renamed(t, src, to)
  }

  // ---------------------------------------------------------------- well-formedness is kept

  /** A directory path still in use stays one if its entry is kept. */
  lemma ChildKept(before: EntryTable, after: EntryTable, k: Key)
    requires ChildOk(before, k)
    requires k.parent == "" || (SplitPath(k.parent) in after && after[SplitPath(k.parent)].kind == Dir)
    ensures ChildOk(after, k)
  {
  }

  /** Changing one file's rows and size keeps the tree. */
  lemma FileChangeWellFormed(t: Tables, k: Key, size: nat, rows: Rows)
    requires WellFormed(t) && IsFile(t, k) && RowsFit(rows)
    ensures WellFormed(Tables(Schema.SetSize(t.entries, k, size), WithRows(t.blocks, k, rows)))
  {
    var after := Tables(Schema.SetSize(t.entries, k, size), WithRows(t.blocks, k, rows));
    forall j | j in after.entries
      ensures ChildOk(after.entries, j)
    {
      assert ChildOk(t.entries, j);
      ChildKept(t.entries, after.entries, j);
    }
    forall f | f in after.blocks
      ensures RowsOk(after.entries, after.blocks, f)
    {
      if f != k {
        assert RowsOk(t.entries, t.blocks, f);
      }
    }
  }

  lemma InsertedWellFormed(t: Tables, k: Key, kind: Kind)
    requires WellFormed(t) && ValidName(k.name) && DirExists(t.entries, k.parent)
    ensures WellFormed(Inserted(t, k, kind))
  {
    var after := Inserted(t, k, kind);
    assert ChildOk(t.entries, k);
    forall j | j in after.entries
      ensures ChildOk(after.entries, j)
    {
      assert ChildOk(t.entries, j);
      ChildKept(t.entries, after.entries, j);
    }
    forall f | f in after.blocks
      ensures RowsOk(after.entries, after.blocks, f)
    {
      assert RowsOk(t.entries, t.blocks, f);
    }
  }

  /** Removing an entry nothing has as its parent, with its rows if it is a file. */
  lemma RemovedWellFormed(t: Tables, k: Key)
    requires WellFormed(t) && k in t.entries
    requires t.entries[k].kind == Dir ==> !HasChildren(t.entries, PathOf(k))
    ensures WellFormed(Unlinked(t, k))
  {
    var after := Unlinked(t, k);
    forall j | j in after.entries
      ensures ChildOk(after.entries, j)
    {
      assert ChildOk(t.entries, j);
      assert SplitPath(j.parent) != k || j.parent == "" by {
        NotParent(t, k, j);
      }
      ChildKept(t.entries, after.entries, j);
    }
    forall f | f in after.blocks
      ensures RowsOk(after.entries, after.blocks, f)
    {
      assert RowsOk(t.entries, t.blocks, f);
    }
  }

  lemma NotParent(t: Tables, k: Key, j: Key)
    requires WellFormed(t) && k in t.entries && j in t.entries
    requires t.entries[k].kind == Dir ==> !HasChildren(t.entries, PathOf(k))
    ensures j.parent != "" ==> SplitPath(j.parent) != k
  {
    assert ChildOk(t.entries, k) && ChildOk(t.entries, j);
    NothingUnder(t.entries, k, j);
  }

  /** A directory has no rows, so removing one only touches `entries`. */
  lemma DirHasNoRows(t: Tables, k: Key)
    requires WellFormed(t) && IsDir(t, k)
    ensures Unlinked(t, k) == t.(entries := t.entries - {k})
  {
    assert k in t.blocks ==> RowsOk(t.entries, t.blocks, k);
  }

  lemma FileRowsFit(t: Tables, k: Key)
    requires WellFormed(t)
    ensures RowsFit(FileRows(t.blocks, k))
  {
    if k in t.blocks {
      assert RowsOk(t.entries, t.blocks, k);
    }
  }

  lemma {:induction false} WriteAllFit(rows: Rows, ws: seq<WriteOp>)
    requires RowsFit(rows) && forall w :: w in ws ==> InRange(w)
    ensures RowsFit(WriteAll(rows, ws))
  {
    if ws != [] {
      var w := ws[|ws| - 1];
      WriteAllFit(rows, ws[..|ws| - 1]);
      assert InRange(w);
      WriteRowsFit(WriteAll(rows, ws[..|ws| - 1]), w.offset, w.data);
    }
  }

  lemma WrittenWellFormed(t: Tables, k: Key, offset: nat, data: Bytes)
    requires WellFormed(t) && IsFile(t, k) && offset + |data| <= MAX_BYTES
    ensures WellFormed(Written(t, k, offset, data))
  {
    FileRowsFit(t, k);
    WriteRowsFit(FileRows(t.blocks, k), offset, data);
    FileChangeWellFormed(t, k, Max(SizeOf(t.entries, k), offset + |data|),
                         WriteRows(FileRows(t.blocks, k), offset, data));
  }

  lemma TruncatedWellFormed(t: Tables, k: Key, size: nat)
    requires WellFormed(t) && IsFile(t, k)
    ensures WellFormed(Truncated(t, k, size))
  {
    FileRowsFit(t, k);
    TruncateFit(FileRows(t.blocks, k), t.entries[k].size, size);
    FileChangeWellFormed(t, k, size, TruncateRows(FileRows(t.blocks, k), t.entries[k].size, size));
  }

  /** Tree well-formedness is kept by every operation. */
  lemma StepWellFormed(t: Tables, op: Op)
    requires WellFormed(t) && Enabled(t, op)
    ensures WellFormed(Step(t, op))
  {
    if StepReply(t, op) == Done {
      match op {
        case Create(k) => InsertedWellFormed(t, k, File);
        case Mkdir(k) => InsertedWellFormed(t, k, Dir);
        case Write(k, offset, data) => WrittenWellFormed(t, k, offset, data);
        case Flush(k, ws) => FlushWellFormed(t, k, ws);
        case SetSize(k, size) => TruncatedWellFormed(t, k, size);
        case Unlink(k) =>
          if k in t.entries {
            RemovedWellFormed(t, k);
          } else {
            UnlinkedOwned(t, k);
          }
        case Rmdir(k) =>
          RemovedWellFormed(t, k);
          DirHasNoRows(t, k);
        case Rename(src, to) =>
          if PathOf(src) != PathOf(to) {
            ChecksSuffice(t, src, to);
            RenamedWellFormed(t, src, to);
          }
      }
    }
  }

  lemma FlushWellFormed(t: Tables, k: Key, ws: seq<WriteOp>)
    requires WellFormed(t) && (IsFile(t, k) || Buffered(ws) == map[]) && forall w :: w in ws ==> InRange(w)
    ensures WellFormed(Flushed(t, k, ws))
  {
    if Buffered(ws) == map[] {
      NothingFlushed(t, k, ws);
    } else {
      FileRowsFit(t, k);
      WriteAllFit(map[], ws);
      var size := SizeOf(t.entries, k);
      FileChangeWellFormed(t, k, if SizeAfter(0, ws) > 0 then Max(size, SizeAfter(0, ws)) else size,
                           FileRows(t.blocks, k) + Buffered(ws));
      assert Schema.SetSize(t.entries, k, size) == t.entries;
    }
  }

  // ---------------------------------------------------------------- handles whose key has gone stale

  /** A flush keeps the tree exactly when its key names a file or there is nothing to flush. */
  lemma FlushWellFormedExact(t: Tables, k: Key, ws: seq<WriteOp>)
    requires WellFormed(t) && forall w :: w in ws ==> InRange(w)
    ensures WellFormed(Flushed(t, k, ws)) <==> IsFile(t, k) || Buffered(ws) == map[]
  {
    if IsFile(t, k) || Buffered(ws) == map[] {
      FlushWellFormed(t, k, ws);
    } else {
      var after := Flushed(t, k, ws);
      var n :| n in Buffered(ws);
      assert n in FileRows(t.blocks, k) + Buffered(ws);
      assert k in after.blocks && !IsFile(after, k);
      assert !RowsOk(after.entries, after.blocks, k);
    }
  }

  /** After its file was removed a handle's flush leaves rows without an entry, unless it is clean. */
  lemma FlushAfterUnlink(t: Tables, k: Key, ws: seq<WriteOp>)
    requires WellFormed(t) && IsFile(t, k) && forall w :: w in ws ==> InRange(w)
    ensures WellFormed(Flushed(Unlinked(t, k), k, ws)) <==> Buffered(ws) == map[]
  {
    RemovedWellFormed(t, k);
    FlushWellFormedExact(Unlinked(t, k), k, ws);
  }

  /** A file's key still names a file after a rename exactly when the file did not move. */
  lemma KeyAfterRename(t: Tables, src: Key, to: Key, k: Key)
    requires RenameReady(t, src, to) && SameKind(t.entries, src, to) && IsFile(t, k)
    ensures IsFile(Renamed(t, src, to), k) <==> !Moves(PathOf(src), PathOf(k))
  {
    var after, o := Renamed(t, src, to), PathOf(src);
    EndsStay(t, src, to);
    assert ChildOk(t.entries, k);
    UnderJoin(o, k);
    if PathOf(k) == o {
      PathInjective(k, src);
    }
    if !Moves(o, PathOf(k)) {
      RenamedEntry(t, src, to, if k == to then src else k);
    } else if k in after.entries {
      var m := RenamedOrigin(t, src, to, k);
      SamePathSameKey(t, src, to);
      if m != src && Moves(o, m.parent) {
        RekeyLands(o, PathOf(to), m.parent);
        TargetPathFree(t, src, to, k);
      }
    }
  }

  /** A handle keeps its key across a rename: its flush breaks the tree exactly when its file moved and it is dirty. */
  lemma FlushAfterRename(t: Tables, src: Key, to: Key, k: Key, ws: seq<WriteOp>)
    requires RenameReady(t, src, to) && SameKind(t.entries, src, to)
    requires IsFile(t, k) && forall w :: w in ws ==> InRange(w)
    ensures WellFormed(Flushed(Renamed(t, src, to), k, ws)) <==> !Moves(PathOf(src), PathOf(k)) || Buffered(ws) == map[]
  {
    RenamedWellFormed(t, src, to);
    KeyAfterRename(t, src, to, k);
    FlushWellFormedExact(Renamed(t, src, to), k, ws);
  }

  /** The flush shows at offset `i` what a resize of the file as it was would show. */
  predicate Survives(rows: Rows, size: nat, ws: seq<WriteOp>, i: nat) {
    var shown := if TouchedBy(ws, i / BLOCK_SIZE) then Latest(ws, i) else RowByte(rows, i);
    shown == if i < size then RowByte(rows, i) else 0
  }

  /**
   * A truncate does not reach a handle's buffer. After the handle's flush the new size stands iff no
   * buffered write ended past it, and the resized content stands iff besides the touched blocks, and
   * the bytes a growth uncovered, hold nothing else.
   */
  lemma BufferOutlivesTruncate(t: Tables, k: Key, newSize: nat, ws: seq<WriteOp>)
    requires IsFile(t, k) && SizeInRange(t, k, newSize)
    ensures var after := Flushed(Truncated(t, k, newSize), k, ws);
            && k in after.entries && after.entries[k].size == Max(newSize, SizeAfter(0, ws))
            && (Content(after, k) == Resize(Content(t, k), newSize) <==>
                && SizeAfter(0, ws) <= newSize
                && forall i :: 0 <= i < newSize ==> Survives(FileRows(t.blocks, k), t.entries[k].size, ws, i))
  {
    var rows, size := FileRows(t.blocks, k), t.entries[k].size;
    var cut, after := Truncated(t, k, newSize), Flushed(Truncated(t, k, newSize), k, ws);
    var cutRows := TruncateRows(rows, size, newSize);
    RowsOfWithRows(t.blocks, k, cutRows, k);
    RowsOfWithRows(cut.blocks, k, cutRows + Buffered(ws), k);
    var shown, resized := Content(after, k), Resize(Content(t, k), newSize);
    forall i | 0 <= i < newSize
      ensures shown[i] == resized[i] <==> Survives(rows, size, ws, i)
    {
      FlushedByte(cutRows, ws, i);
      TruncateByte(rows, size, newSize, i);
    }
    if shown == resized {
      forall i | 0 <= i < newSize
        ensures Survives(rows, size, ws, i)
      {
        assert shown[i] == resized[i];
      }
    }
  }
}
