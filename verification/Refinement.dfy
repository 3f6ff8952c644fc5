/**
 * Whole-run refinement: over every run of operations the two tables simulate a tree of flat byte
 * files addressed by path. A shrink to a block boundary leaves one block of old bytes behind, so
 * the abstract file carries the set of offsets where such residue may lie; everywhere else the
 * stored bytes are exactly the abstract ones, and zero past the end.
 */
module Refinement {
  import opened Base
  import opened Paths
  import opened Chunks
  import opened Schema
  import opened Renaming
  import opened WriteBack
  import opened Operations

  datatype Node = DirNode | FileNode(bytes: Bytes, residue: set<nat>)

  /** The root is implicit; every other file and directory is addressed by its path. */
  type Tree = map<string, Node>

  // ---------------------------------------------------------------- the abstract operations

  /** Some path of the tree lies under `path`. */
  predicate Occupied(a: Tree, path: string) {
    exists q :: q in a && Under(path, q)
  }

  function WrittenNode(n: Node, offset: nat, data: Bytes): Node {
    match n
    case DirNode => DirNode
    case FileNode(bytes, residue) =>
      if data == [] then n
      else FileNode(Overlay(bytes, offset, data), set i | i in residue && !(offset <= i < offset + |data|))
  }

  predicate InBlockAt(start: nat, i: nat) { start <= i < start + BLOCK_SIZE }

  /** The offsets of the block that starts at `start`. */
  function BlockAt(start: nat): set<nat> {
    set i: nat | start <= i < start + BLOCK_SIZE && InBlockAt(start, i)
  }

  /** Shrinking to a block boundary may leave residue in the block that starts there. */
  function ResidueAfter(residue: set<nat>, size: nat, newSize: nat): set<nat> {
    if newSize >= size then residue
    else
      (set i | i in residue && i < newSize)
      + (if newSize % BLOCK_SIZE == 0 then BlockAt(newSize) else {})
  }

  function ResizedNode(n: Node, newSize: nat): Node {
    match n
    case DirNode => DirNode
    case FileNode(bytes, residue) => FileNode(Resize(bytes, newSize), ResidueAfter(residue, |bytes|, newSize))
  }

  /**
   * A flush replaces the touched blocks whole: each byte there is the last one written at its
   * offset, or zero if no write covers it.
   */
  function FlushedBytes(bytes: Bytes, ws: seq<WriteOp>): (r: Bytes)
    ensures |r| == SizeAfter(|bytes|, ws)
  {
    seq(SizeAfter(|bytes|, ws), i requires 0 <= i =>
      if TouchedBy(ws, i / BLOCK_SIZE) then Latest(ws, i) else ByteIn(bytes, i))
  }

  function FlushedNode(n: Node, ws: seq<WriteOp>): Node {
    match n
    case DirNode => DirNode
    case FileNode(bytes, residue) =>
      FileNode(FlushedBytes(bytes, ws), set i | i in residue && !TouchedBy(ws, i / BLOCK_SIZE))
  }

  /** The reply of rename() in the System Interfaces volume of POSIX.1-2017, for directories that exist. */
  function PosixRename(a: Tree, p: string, q: string): Reply {
    if p !in a then Failed(ENOENT)
    else if p == q then Done
    else if Under(p, q) then Failed(EINVAL)
    else if q !in a then Done
    else
      match (a[p], a[q])
      case (FileNode(_, _), DirNode) => Failed(EISDIR)
      case (DirNode, FileNode(_, _)) => Failed(ENOTDIR)
      case (DirNode, DirNode) => if Occupied(a, q) then Failed(ENOTEMPTY) else Done
      case (FileNode(_, _), FileNode(_, _)) => Done
  }

  /** The tree's own reply: a path renamed to itself is never looked up. */
  function RenameReply(a: Tree, p: string, q: string): Reply {
    if p == q then Done else PosixRename(a, p, q)
  }

  /** The node at `q` is dropped; every path equal to or under `p` moves. */
  function MovedTree(a: Tree, p: string, q: string): Tree {
    map r | r in (set s | s in a && s != q :: Rekey(p, q, s))
      :: var s := if Moves(q, r) && Rekey(q, p, r) in a then Rekey(q, p, r) else r;
         if s in a then a[s] else DirNode
  }

  function TreeReply(a: Tree, op: Op): Reply {
    match op
    case Create(k) => if PathOf(k) in a then Failed(EEXIST) else Done
    case Mkdir(k) => if PathOf(k) in a then Failed(EEXIST) else Done
    case Write(_, _, _) => Done
    case Flush(_, _) => Done
    case SetSize(k, _) =>
      if PathOf(k) !in a then Failed(ENOENT) else if a[PathOf(k)] == DirNode then Failed(EISDIR) else Done
    case Unlink(_) => Done
    case Rmdir(k) =>
      if PathOf(k) !in a then Failed(ENOENT) else if Occupied(a, PathOf(k)) then Failed(ENOTEMPTY) else Done
    case Rename(src, to) => RenameReply(a, PathOf(src), PathOf(to))
  }

  function Update(a: Tree, p: string, f: Node -> Node): Tree {
    if p in a then a[p := f(a[p])] else a
  }

  function TreeStep(a: Tree, op: Op): Tree {
    if TreeReply(a, op) != Done then a
    else
      match op
      case Create(k) => a[PathOf(k) := FileNode([], {})]
      case Mkdir(k) => a[PathOf(k) := DirNode]
      case Write(k, offset, data) => Update(a, PathOf(k), n => WrittenNode(n, offset, data))
      case Flush(k, ws) => Update(a, PathOf(k), n => FlushedNode(n, ws))
      case SetSize(k, size) => Update(a, PathOf(k), n => ResizedNode(n, size))
      case Unlink(k) => a - {PathOf(k)}
      case Rmdir(k) => a - {PathOf(k)}
      case Rename(src, to) => if PathOf(src) == PathOf(to) then a else MovedTree(a, PathOf(src), PathOf(to))
  }

  // ---------------------------------------------------------------- the simulation relation

  /** Outside the residue the stored bytes are the file's, and zero past its end. */
  ghost predicate BytesAgree(rows: Rows, bytes: Bytes, residue: set<nat>) {
    forall i: nat :: i !in residue ==> RowByte(rows, i) == ByteIn(bytes, i)
  }

  ghost predicate NodeAgrees(e: Entry, rows: Rows, n: Node) {
    match n
    case DirNode => e.kind == Dir
    case FileNode(bytes, residue) => e.kind == File && e.size == |bytes| && BytesAgree(rows, bytes, residue)
  }

  ghost predicate EntryAgrees(t: Tables, a: Tree, k: Key)
    requires k in t.entries
  {
    PathOf(k) in a && NodeAgrees(t.entries[k], FileRows(t.blocks, k), a[PathOf(k)])
  }

  ghost predicate HasEntry(t: Tables, p: string) {
    SplitPath(p) in t.entries && PathOf(SplitPath(p)) == p
  }

  ghost predicate Simulates(t: Tables, a: Tree) {
    && WellFormed(t)
    && (forall k {:trigger EntryAgrees(t, a, k)} :: k in t.entries ==> EntryAgrees(t, a, k))
    && (forall p {:trigger HasEntry(t, p)} :: p in a ==> HasEntry(t, p))
  }

  // ---------------------------------------------------------------- one file

  lemma WrittenAgrees(e: Entry, rows: Rows, n: Node, offset: nat, data: Bytes)
    requires NodeAgrees(e, rows, n) && n.FileNode? && data != []
    ensures NodeAgrees(e.(size := Max(e.size, offset + |data|)), WriteRows(rows, offset, data),
                       WrittenNode(n, offset, data))
  {
    var after := WrittenNode(n, offset, data);
    forall i: nat | i !in after.residue
      ensures RowByte(WriteRows(rows, offset, data), i) == ByteIn(after.bytes, i)
    {
      WriteRowsByte(rows, offset, data, i);
      if i < |after.bytes| {
        OverlayByte(n.bytes, offset, data, i);
      }
    }
  }

  lemma ResizedAgrees(e: Entry, rows: Rows, n: Node, size: nat)
    requires NodeAgrees(e, rows, n) && n.FileNode? && (size < e.size ==> size < MAX_BYTES)
    ensures NodeAgrees(e.(size := size), TruncateRows(rows, e.size, size), ResizedNode(n, size))
  {
    var after := ResizedNode(n, size);
    forall i: nat | i !in after.residue
      ensures RowByte(TruncateRows(rows, e.size, size), i) == ByteIn(after.bytes, i)
    {
      TruncateByte(rows, e.size, size, i);
    }
  }

  lemma FlushedAgrees(e: Entry, rows: Rows, n: Node, ws: seq<WriteOp>)
    requires NodeAgrees(e, rows, n) && n.FileNode?
    ensures NodeAgrees(e.(size := SizeAfter(e.size, ws)), rows + Buffered(ws), FlushedNode(n, ws))
  {
    var after := FlushedNode(n, ws);
    forall i: nat | i !in after.residue
      ensures RowByte(rows + Buffered(ws), i) == ByteIn(after.bytes, i)
    {
      FlushedByte(rows, ws, i);
      SizeAfterIs(e.size, ws);
      if i >= |after.bytes| {
        PastTheEnd(ws, i);
      }
    }
  }

  /** Nothing is written past the largest end of a write. */
  lemma {:induction false} PastTheEnd(ws: seq<WriteOp>, i: nat)
    requires i >= SizeAfter(0, ws)
    ensures !Covered(ws, i) && Latest(ws, i) == 0
  {
    if ws != [] {
      PastTheEnd(ws[..|ws| - 1], i);
    }
  }

  // ---------------------------------------------------------------- one operation

  lemma SimulatedKey(t: Tables, a: Tree, k: Key)
    requires Simulates(t, a) && ValidName(k.name)
    ensures PathOf(k) in a <==> k in t.entries
    ensures k in t.entries ==> EntryAgrees(t, a, k)
  {
    SplitJoin(k);
    if PathOf(k) in a {
      assert HasEntry(t, PathOf(k));
    }
    if k in t.entries {
      assert EntryAgrees(t, a, k);
    }
  }

  lemma EntryKey(t: Tables, k: Key)
    requires WellFormed(t) && k in t.entries
    ensures ValidName(k.name) && SplitPath(PathOf(k)) == k && HasEntry(t, PathOf(k))
  {
    assert ChildOk(t.entries, k);
    SplitJoin(k);
  }

  /** A directory has a child row exactly when the tree has a path under it. */
  lemma OccupiedIsChildren(t: Tables, a: Tree, k: Key)
    requires Simulates(t, a) && ValidName(k.name)
    ensures Occupied(a, PathOf(k)) <==> HasChildren(t.entries, PathOf(k))
  {
    var path := PathOf(k);
    if HasChildren(t.entries, path) {
      var c :| c in t.entries && c.parent == path;
      assert ChildOk(t.entries, c) && EntryAgrees(t, a, c);
      UnderJoin(path, c);
    } else {
      forall q | q in a
        ensures !Under(path, q)
      {
        var c := SplitPath(q);
        assert HasEntry(t, q) && ChildOk(t.entries, c);
        NoChildrenNothingUnder(t.entries, path, c.parent);
        UnderJoin(path, c);
      }
    }
  }

  /** A path is one step below a directory. */
  ghost predicate ChildPath(dir: string, path: string) {
    StrictlyBelow(Components(dir), Components(path)) && |Components(path)| == |Components(dir)| + 1
  }

  /** A listing of a directory gives exactly the tree's paths one step below it, each with its node's kind. */
  lemma ListingExact(t: Tables, a: Tree, dir: string)
    requires Simulates(t, a) && DirExists(t.entries, dir)
    ensures forall p :: (exists k :: k in ChildrenOf(t.entries, dir) && PathOf(k) == p) <==> p in a && ChildPath(dir, p)
    ensures forall k :: k in ChildrenOf(t.entries, dir) ==>
              k in t.entries && PathOf(k) in a && (t.entries[k].kind == Dir <==> a[PathOf(k)] == DirNode)
  {
    forall k | k in ChildrenOf(t.entries, dir)
      ensures PathOf(k) in a && ChildPath(dir, PathOf(k)) && (t.entries[k].kind == Dir <==> a[PathOf(k)] == DirNode)
    {
      assert EntryAgrees(t, a, k);
      EntryKey(t, k);
      ComponentsJoin(k);
      assert (Components(dir) + [k.name])[..|Components(dir)|] == Components(dir);
    }
    forall p | p in a && ChildPath(dir, p)
      ensures exists k :: k in ChildrenOf(t.entries, dir) && PathOf(k) == p
    {
      var k := SplitPath(p);
      assert HasEntry(t, p);
      EntryKey(t, k);
      ParentOf(t, dir, k);
    }
  }

  lemma ParentOf(t: Tables, dir: string, k: Key)
    requires WellFormed(t) && DirExists(t.entries, dir) && k in t.entries && ChildPath(dir, PathOf(k))
    ensures k.parent == dir
  {
    assert ChildOk(t.entries, k);
    ComponentsJoin(k);
    DirIsNormal(t.entries, dir);
    DirIsNormal(t.entries, k.parent);
    var n := |Components(dir)|;
    assert (Components(k.parent) + [k.name])[..n] == Components(k.parent);
    ComponentsInjective(dir, k.parent);
  }

  /** Replacing one file's row and node by ones that agree keeps the simulation. */
  lemma FileChangeSimulates(t: Tables, a: Tree, k: Key, size: nat, rows: Rows, n: Node)
    requires Simulates(t, a) && k in t.entries && PathOf(k) in a
    requires var after := Tables(Schema.SetSize(t.entries, k, size), WithRows(t.blocks, k, rows));
             WellFormed(after) && NodeAgrees(t.entries[k].(size := size), rows, n)
    ensures Simulates(Tables(Schema.SetSize(t.entries, k, size), WithRows(t.blocks, k, rows)), a[PathOf(k) := n])
  {
    var after, b := Tables(Schema.SetSize(t.entries, k, size), WithRows(t.blocks, k, rows)), a[PathOf(k) := n];
    EntryKey(t, k);
    forall j | j in after.entries
      ensures EntryAgrees(after, b, j)
    {
      EntryKey(t, j);
      assert EntryAgrees(t, a, j);
      RowsOfWithRows(t.blocks, k, rows, j);
    }
    forall p | p in b
      ensures HasEntry(after, p)
    {
      assert HasEntry(t, p);
    }
  }

  lemma InsertedSimulates(t: Tables, a: Tree, k: Key, kind: Kind)
    requires Simulates(t, a) && ValidName(k.name) && k !in t.entries && WellFormed(Inserted(t, k, kind))
    ensures Simulates(Inserted(t, k, kind), a[PathOf(k) := if kind == Dir then DirNode else FileNode([], {})])
  {
    var after, b := Inserted(t, k, kind), a[PathOf(k) := if kind == Dir then DirNode else FileNode([], {})];
    SplitJoin(k);
    assert k in t.blocks ==> RowsOk(t.entries, t.blocks, k);
    assert FileRows(t.blocks, k) == map[];
    forall j | j in after.entries
      ensures EntryAgrees(after, b, j)
    {
      if j != k {
        EntryKey(t, j);
        assert EntryAgrees(t, a, j);
      }
    }
    forall p | p in b
      ensures HasEntry(after, p)
    {
      if p != PathOf(k) {
        assert HasEntry(t, p);
      }
    }
  }

  lemma RemovedSimulates(t: Tables, a: Tree, k: Key)
    requires Simulates(t, a) && k in t.entries && WellFormed(Unlinked(t, k))
    ensures Simulates(Unlinked(t, k), a - {PathOf(k)})
  {
    var after, b := Unlinked(t, k), a - {PathOf(k)};
    EntryKey(t, k);
    forall j | j in after.entries
      ensures EntryAgrees(after, b, j)
    {
      EntryKey(t, j);
      assert EntryAgrees(t, a, j);
    }
    forall p | p in b
      ensures HasEntry(after, p)
    {
      assert HasEntry(t, p);
    }
  }

  /** Nothing of the tree lies at or under a checked rename's target, but the target itself. */
  lemma TargetAlone(t: Tables, a: Tree, src: Key, to: Key, s: string)
    requires Simulates(t, a) && RenameReady(t, src, to) && s in a && s != PathOf(to)
    ensures !Moves(PathOf(to), s)
  {
    var k := SplitPath(s);
    assert HasEntry(t, s);
    EntryKey(t, k);
    TargetPathFree(t, src, to, k);
    UnderJoin(PathOf(to), k);
  }

  lemma MovedNode(t: Tables, a: Tree, src: Key, to: Key, k: Key)
    requires Simulates(t, a) && RenameReady(t, src, to) && k in t.entries && k != to && PathOf(k) in a
    ensures PathOf(RekeyKey(src, to, k)) in MovedTree(a, PathOf(src), PathOf(to))
    ensures MovedTree(a, PathOf(src), PathOf(to))[PathOf(RekeyKey(src, to, k))] == a[PathOf(k)]
  {
    var p, q, s := PathOf(src), PathOf(to), PathOf(k);
    EntryKey(t, k);
    RenamedEntry(t, src, to, k);
    if s == q {
      PathInjective(k, to);
    }
    TargetAlone(t, a, src, to, s);
    if Moves(p, s) {
      RekeyLands(p, q, s);
      RekeyBack(p, q, s);
    }
  }

  lemma RenamedSimulates(t: Tables, a: Tree, src: Key, to: Key)
    requires Simulates(t, a) && RenameReady(t, src, to)
    ensures Simulates(Renamed(t, src, to), MovedTree(a, PathOf(src), PathOf(to)))
  {
    var after, b := Renamed(t, src, to), MovedTree(a, PathOf(src), PathOf(to));
    RenamedWellFormed(t, src, to);
    forall j | j in after.entries
      ensures EntryAgrees(after, b, j)
    {
      var k := RenamedOrigin(t, src, to, j);
      RenamedEntry(t, src, to, k);
      assert EntryAgrees(t, a, k);
      MovedNode(t, a, src, to, k);
    }
    forall r | r in b
      ensures HasEntry(after, r)
    {
      var s :| s in a && s != PathOf(to) && Rekey(PathOf(src), PathOf(to), s) == r;
      assert HasEntry(t, s);
      var k := SplitPath(s);
      RenamedEntry(t, src, to, k);
      SplitJoin(RekeyKey(src, to, k));
    }
  }

  /** Both sides give the same reply. */
  lemma RepliesAgree(t: Tables, a: Tree, op: Op)
    requires Simulates(t, a) && Enabled(t, op)
    ensures StepReply(t, op) == TreeReply(a, op)
  {
    match op
    case Create(k) => SimulatedKey(t, a, k);
    case Mkdir(k) => SimulatedKey(t, a, k);
    case Write(_, _, _) =>
    case Flush(_, _) =>
    case SetSize(k, _) => SimulatedKey(t, a, k);
    case Unlink(_) =>
    case Rmdir(k) =>
      SimulatedKey(t, a, k);
      OccupiedIsChildren(t, a, k);
    case Rename(src, to) => RenameRepliesAgree(t, a, src, to);
  }

  lemma RenameRepliesAgree(t: Tables, a: Tree, src: Key, to: Key)
    requires Simulates(t, a) && ValidName(src.name) && ValidName(to.name) && DirExists(t.entries, to.parent)
    ensures PathOf(src) != PathOf(to) ==> RenameChecks(t, src, to) == PosixRename(a, PathOf(src), PathOf(to))
    ensures PathOf(src) in a <==> src in t.entries
  {
    SimulatedKey(t, a, src);
    SimulatedKey(t, a, to);
    OccupiedIsChildren(t, a, to);
    if Under(PathOf(src), PathOf(to)) {
      UnderJoin(PathOf(src), to);
      UnderNeedsDir(t.entries, src, to.parent);
    }
  }

  /** The reply to a rename is the POSIX one except exactly when a path that does not exist is renamed to itself. */
  lemma PosixReplyExact(t: Tables, a: Tree, src: Key, to: Key)
    requires Simulates(t, a) && ValidName(src.name) && ValidName(to.name) && DirExists(t.entries, to.parent)
    ensures StepReply(t, Rename(src, to)) == PosixRename(a, PathOf(src), PathOf(to))
            <==> !(PathOf(src) == PathOf(to) && src !in t.entries)
  {
    RenameRepliesAgree(t, a, src, to);
  }

  /** The input that shows it: any name in an empty filesystem, renamed to itself, is answered with success. */
  lemma MissingRenamedToItself(name: string)
    requires ValidName(name)
    ensures var t, k := Tables(map[], map[]), Key("", name);
            && Enabled(t, Rename(k, k)) && StepReply(t, Rename(k, k)) == Done
            && PosixRename(map[], PathOf(k), PathOf(k)) == Failed(ENOENT)
  {
  }

  lemma WriteSimulates(t: Tables, a: Tree, k: Key, offset: nat, data: Bytes)
    requires Simulates(t, a) && Enabled(t, Write(k, offset, data)) && PathOf(k) in a
    ensures Simulates(Written(t, k, offset, data), a[PathOf(k) := WrittenNode(a[PathOf(k)], offset, data)])
  {
    var e, rows, n := t.entries[k], FileRows(t.blocks, k), a[PathOf(k)];
    assert EntryAgrees(t, a, k);
    if data != [] {
      WrittenAgrees(e, rows, n, offset, data);
      WrittenWellFormed(t, k, offset, data);
      FileChangeSimulates(t, a, k, Max(e.size, offset + |data|), WriteRows(rows, offset, data),
                          WrittenNode(n, offset, data));
    } else {
      assert a[PathOf(k) := n] == a;
    }
  }

  /** A clean flush changes no abstract file. */
  lemma CleanFlush(n: Node, ws: seq<WriteOp>)
    requires Buffered(ws) == map[]
    ensures FlushedNode(n, ws) == n
  {
    if n.FileNode? {
      CleanBuffer(ws, |n.bytes|);
      assert FlushedBytes(n.bytes, ws) == n.bytes;
    }
  }

  lemma FlushSimulates(t: Tables, a: Tree, k: Key, ws: seq<WriteOp>)
    requires Simulates(t, a) && Enabled(t, Flush(k, ws))
    ensures Simulates(Flushed(t, k, ws), if PathOf(k) in a then a[PathOf(k) := FlushedNode(a[PathOf(k)], ws)] else a)
  {
    if Buffered(ws) == map[] {
      NothingFlushed(t, k, ws);
      if PathOf(k) in a {
        CleanFlush(a[PathOf(k)], ws);
        assert a[PathOf(k) := a[PathOf(k)]] == a;
      }
    } else {
      assert EntryAgrees(t, a, k);
      DirtyFlushSimulates(t, a, k, ws);
    }
  }

  lemma DirtyFlushSimulates(t: Tables, a: Tree, k: Key, ws: seq<WriteOp>)
    requires Simulates(t, a) && Enabled(t, Flush(k, ws)) && Buffered(ws) != map[] && PathOf(k) in a
    ensures Simulates(Flushed(t, k, ws), a[PathOf(k) := FlushedNode(a[PathOf(k)], ws)])
  {
    var e, rows, n := t.entries[k], FileRows(t.blocks, k), a[PathOf(k)];
    assert EntryAgrees(t, a, k);
    FlushedAgrees(e, rows, n, ws);
    FlushWellFormed(t, k, ws);
    FlushedIs(t, k, ws);
    FileChangeSimulates(t, a, k, SizeAfter(e.size, ws), rows + Buffered(ws), FlushedNode(n, ws));
  }

  lemma SetSizeSimulates(t: Tables, a: Tree, k: Key, size: nat)
    requires Simulates(t, a) && IsFile(t, k) && SizeInRange(t, k, size) && PathOf(k) in a
    ensures Simulates(Truncated(t, k, size), a[PathOf(k) := ResizedNode(a[PathOf(k)], size)])
  {
    var e, rows, n := t.entries[k], FileRows(t.blocks, k), a[PathOf(k)];
    assert EntryAgrees(t, a, k);
    ResizedAgrees(e, rows, n, size);
    TruncatedWellFormed(t, k, size);
    FileChangeSimulates(t, a, k, size, TruncateRows(rows, e.size, size), ResizedNode(n, size));
  }

  lemma FlushedIs(t: Tables, k: Key, ws: seq<WriteOp>)
    requires k in t.entries
    ensures Flushed(t, k, ws) == Tables(Schema.SetSize(t.entries, k, SizeAfter(t.entries[k].size, ws)),
                                        WithRows(t.blocks, k, FileRows(t.blocks, k) + Buffered(ws)))
  {
    SizeAfterIs(t.entries[k].size, ws);
    if SizeAfter(0, ws) == 0 {
      assert Schema.SetSize(t.entries, k, t.entries[k].size) == t.entries;
    }
  }

  /** Unlinking a name that is not there changes nothing on either side. */
  lemma UnlinkSimulates(t: Tables, a: Tree, k: Key)
    requires Simulates(t, a) && Enabled(t, Unlink(k)) && WellFormed(Unlinked(t, k))
    ensures Simulates(Unlinked(t, k), a - {PathOf(k)})
  {
    if k in t.entries {
      RemovedSimulates(t, a, k);
    } else {
      SimulatedKey(t, a, k);
      UnlinkedOwned(t, k);
      assert a - {PathOf(k)} == a;
    }
  }

  /** One operation: the same reply on both sides, and the simulation is kept. */
  lemma StepSimulates(t: Tables, a: Tree, op: Op)
    requires Simulates(t, a) && Enabled(t, op)
    ensures StepReply(t, op) == TreeReply(a, op)
    ensures Simulates(Step(t, op), TreeStep(a, op))
  {
    RepliesAgree(t, a, op);
    if StepReply(t, op) == Done {
      StepWellFormed(t, op);
      match op {
        case Create(k) => InsertedSimulates(t, a, k, File);
        case Mkdir(k) => InsertedSimulates(t, a, k, Dir);
        case Write(k, offset, data) =>
          assert EntryAgrees(t, a, k);
          WriteSimulates(t, a, k, offset, data);
        case Flush(k, ws) => FlushSimulates(t, a, k, ws);
        case SetSize(k, size) =>
          assert EntryAgrees(t, a, k);
          SetSizeSimulates(t, a, k, size);
        case Unlink(k) => UnlinkSimulates(t, a, k);
        case Rmdir(k) =>
          DirHasNoRows(t, k);
          RemovedSimulates(t, a, k);
        case Rename(src, to) =>
          if PathOf(src) != PathOf(to) {
            ChecksSuffice(t, src, to);
            RenamedSimulates(t, a, src, to);
          }
      }
    }
  }

  // ---------------------------------------------------------------- every run

  /** Each operation of the run is one the kernel would issue in the state it meets. */
  ghost predicate RunEnabled(t: Tables, ops: seq<Op>)
    requires WellFormed(t)
    decreases |ops|
  {
    ops == [] || (Enabled(t, ops[0]) && (StepWellFormed(t, ops[0]); RunEnabled(Step(t, ops[0]), ops[1..])))
  }

  ghost function Run(t: Tables, ops: seq<Op>): Tables
    requires WellFormed(t) && RunEnabled(t, ops)
    decreases |ops|
  {
    if ops == [] then t else StepWellFormed(t, ops[0]); Run(Step(t, ops[0]), ops[1..])
  }

  ghost function Replies(t: Tables, ops: seq<Op>): seq<Reply>
    requires WellFormed(t) && RunEnabled(t, ops)
    decreases |ops|
  {
    if ops == [] then []
    else StepWellFormed(t, ops[0]); [StepReply(t, ops[0])] + Replies(Step(t, ops[0]), ops[1..])
  }

  function TreeRun(a: Tree, ops: seq<Op>): Tree
    decreases |ops|
  {
    if ops == [] then a else TreeRun(TreeStep(a, ops[0]), ops[1..])
  }

  function TreeReplies(a: Tree, ops: seq<Op>): seq<Reply>
    decreases |ops|
  {
    if ops == [] then [] else [TreeReply(a, ops[0])] + TreeReplies(TreeStep(a, ops[0]), ops[1..])
  }

  /** Over every run the tables simulate the tree of flat files and give the same replies. */
  lemma {:induction false} RunSimulates(t: Tables, a: Tree, ops: seq<Op>)
    requires Simulates(t, a) && RunEnabled(t, ops)
    ensures Simulates(Run(t, ops), TreeRun(a, ops))
    ensures Replies(t, ops) == TreeReplies(a, ops)
    decreases |ops|
  {
    if ops != [] {
      StepSimulates(t, a, ops[0]);
      StepWellFormed(t, ops[0]);
      RunSimulates(Step(t, ops[0]), TreeStep(a, ops[0]), ops[1..]);
    }
  }

  /** A read of a simulated file shows the abstract bytes at every offset outside the residue. */
  lemma ReadAgrees(t: Tables, a: Tree, k: Key, i: nat)
    requires Simulates(t, a) && IsFile(t, k)
    ensures PathOf(k) in a && a[PathOf(k)].FileNode? && |Content(t, k)| == |a[PathOf(k)].bytes|
    ensures i < |Content(t, k)| && i !in a[PathOf(k)].residue ==> Content(t, k)[i] == a[PathOf(k)].bytes[i]
    ensures a[PathOf(k)].residue == {} ==> Content(t, k) == a[PathOf(k)].bytes
  {
    assert EntryAgrees(t, a, k);
  }

  // ---------------------------------------------------------------- runs without aligned shrinks

  ghost predicate Clean(a: Tree) {
    forall p :: p in a && a[p].FileNode? ==> a[p].residue == {}
  }

  /** The one branch that leaves residue: a file is shrunk to a multiple of the block size. */
  predicate AlignedShrink(a: Tree, op: Op) {
    op.SetSize? && PathOf(op.k) in a && a[PathOf(op.k)].FileNode?
    && op.size < |a[PathOf(op.k)].bytes| && op.size % BLOCK_SIZE == 0
  }

  predicate NoAlignedShrink(a: Tree, ops: seq<Op>)
    decreases |ops|
  {
    ops == [] || (!AlignedShrink(a, ops[0]) && NoAlignedShrink(TreeStep(a, ops[0]), ops[1..]))
  }

  lemma CleanStep(a: Tree, op: Op)
    requires Clean(a) && !AlignedShrink(a, op)
    ensures Clean(TreeStep(a, op))
  {
    var after := TreeStep(a, op);
    forall p | p in after && after[p].FileNode?
      ensures after[p].residue == {}
    {
      if op.SetSize? && p in a && a[p].FileNode? && p == PathOf(op.k) {
        assert ResidueAfter({}, |a[p].bytes|, op.size) == {};
      }
    }
  }

  lemma {:induction false} CleanRun(a: Tree, ops: seq<Op>)
    requires Clean(a) && NoAlignedShrink(a, ops)
    ensures Clean(TreeRun(a, ops))
    decreases |ops|
  {
    if ops != [] {
      CleanStep(a, ops[0]);
      CleanRun(TreeStep(a, ops[0]), ops[1..]);
    }
  }

  /**
   * From an empty filesystem, over every run without a shrink to a block boundary, every file
   * reads back exactly as the flat file it stands for.
   */
  lemma RunExact(ops: seq<Op>, k: Key)
    requires WellFormed(Tables(map[], map[])) && RunEnabled(Tables(map[], map[]), ops) && NoAlignedShrink(map[], ops)
    requires IsFile(Run(Tables(map[], map[]), ops), k)
    ensures var a := TreeRun(map[], ops);
            PathOf(k) in a && a[PathOf(k)].FileNode? && Content(Run(Tables(map[], map[]), ops), k) == a[PathOf(k)].bytes
  {
    var empty: Tree := map[];
    RunSimulates(Tables(map[], map[]), empty, ops);
    CleanRun(empty, ops);
    ReadAgrees(Run(Tables(map[], map[]), ops), TreeRun(empty, ops), k, 0);
  }
}
