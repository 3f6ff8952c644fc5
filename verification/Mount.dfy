/**
 * The mounted filesystem: tables, inode maps and open handles together. Over every run of callbacks
 * an inode follows its entry through creations, removals and renames around it, and reading through
 * it shows the abstract file; a handle keeps the key it was opened with, so its bytes reach the
 * inode's file exactly when that file has not moved.
 */
module Mount {
  import opened Base
  import opened Paths
  import opened Schema
  import opened Chunks
  import opened WriteBack
  import opened Operations
  import opened InodeMaps
  import opened Refinement

  /** An open handle: the key of the file when it was opened, and the writes since its last flush. */
  datatype Handle = Handle(key: Key, writes: seq<WriteOp>)

  /**
   * A callback: an operation on the tables; a lookup or listing that asks for a path's inode; opening
   * an inode; writing to, flushing and releasing a handle; or a flush the database fails.
   */
  datatype Call =
    | Do(op: Op)
    | Ask(path: string)
    | Open(ino: nat)
    | Put(fh: nat, w: WriteOp)
    | Sync(fh: nat)
    | Close(fh: nat)
    | Lose(fh: nat)

  datatype State = State(tables: Tables, maps: Inodes, handles: map<nat, Handle>, nextFh: nat)

  ghost predicate Pending(s: State, fh: nat)
    requires fh in s.handles
  {
    fh < s.nextFh && forall w :: w in s.handles[fh].writes ==> InRange(w)
  }

  ghost predicate Healthy(s: State) {
    && WellFormed(s.tables) && Consistent(s.maps)
    && forall fh {:trigger Pending(s, fh)} :: fh in s.handles ==> Pending(s, fh)
  }

  // ---------------------------------------------------------------- one callback

  /** What a callback does to the tables: a flush or release writes the handle's pending writes back. */
  function TablesOp(s: State, c: Call): Option<Op> {
    match c
    case Do(op) => Some(op)
    case Sync(fh) => if fh in s.handles then Some(Flush(s.handles[fh].key, s.handles[fh].writes)) else None
    case Close(fh) => if fh in s.handles then Some(Flush(s.handles[fh].key, s.handles[fh].writes)) else None
    case Ask(_) => None
    case Open(_) => None
    case Put(_, _) => None
    case Lose(_) => None
  }

  /** What a callback does to the inode maps: only one that replies success touches them. */
  function MapsOp(t: Tables, c: Call): Option<InoOp> {
    match c
    case Ask(path) => Some(Intern(path))
    case Do(op) => if StepReply(t, op) == Done then OpOnMaps(op) else None
    case Open(_) => None
    case Put(_, _) => None
    case Sync(_) => None
    case Close(_) => None
    case Lose(_) => None
  }

  function OpOnMaps(op: Op): Option<InoOp> {
    match op
    case Create(k) => Some(Intern(PathOf(k)))
    case Mkdir(k) => Some(Intern(PathOf(k)))
    case Unlink(k) => Some(Forget(PathOf(k)))
    case Rmdir(k) => Some(Forget(PathOf(k)))
    case Rename(src, to) => if PathOf(src) == PathOf(to) then None else Some(Move(PathOf(src), PathOf(to)))
    case Write(_, _, _) => None
    case Flush(_, _) => None
    case SetSize(_, _) => None
  }

  /** The kernel writes only to handles that are open, and the flushes keep the tree. */
  predicate MayIssue(s: State, c: Call) {
    && (c.Do? ==> !c.op.Flush?)
    && (c.Put? ==> c.fh in s.handles && InRange(c.w))
    && var op := TablesOp(s, c); op.Some? ==> Enabled(s.tables, op.value)
  }

  function MapsAfter(t: Tables, m: Inodes, c: Call): Inodes {
    var op := MapsOp(t, c);
    if op.Some? then Apply(m, op.value) else m
  }

  /** The key a callback opens a handle on: an open, or a create that succeeds. */
  function OpenedKey(s: State, c: Call): Option<Key> {
    if c.Open? then
      var path := PathOfIno(s.maps, c.ino);
      if path.Some? then Some(SplitPath(path.value)) else None
    else if c.Do? && c.op.Create? && StepReply(s.tables, c.op) == Done then Some(c.op.k)
    else None
  }

  function HandlesAfter(s: State, c: Call): map<nat, Handle> {
    var key := OpenedKey(s, c);
    if key.Some? then s.handles[s.nextFh := Handle(key.value, [])] else KeptHandles(s, c)
  }

  function KeptHandles(s: State, c: Call): map<nat, Handle> {
    match c
    case Put(fh, w) =>
      if fh in s.handles then s.handles[fh := Handle(s.handles[fh].key, s.handles[fh].writes + [w])] else s.handles
    case Sync(fh) => if fh in s.handles then s.handles[fh := Handle(s.handles[fh].key, [])] else s.handles
    case Close(fh) => s.handles - {fh}
    case Lose(fh) => s.handles - {fh}
    case Open(_) => s.handles
    case Do(_) => s.handles
    case Ask(_) => s.handles
  }

  ghost function CallStep(s: State, c: Call): State
    requires Healthy(s) && MayIssue(s, c)
  {
    var op := TablesOp(s, c);
    State(if op.Some? then Step(s.tables, op.value) else s.tables,
          MapsAfter(s.tables, s.maps, c), HandlesAfter(s, c), if OpenedKey(s, c).Some? then s.nextFh + 1 else s.nextFh)
  }

  lemma MapsOpAllowed(s: State, c: Call)
    requires Healthy(s) && MayIssue(s, c) && MapsOp(s.tables, c).Some?
    ensures Allowed(MapsOp(s.tables, c).value)
  {
    if c.Do? && c.op.Rename? {
      ChecksSuffice(s.tables, c.op.src, c.op.to);
      ReadyApart(s.tables, c.op.src, c.op.to);
    }
  }

  lemma MapsHealthy(s: State, c: Call)
    requires Healthy(s) && MayIssue(s, c)
    ensures Consistent(MapsAfter(s.tables, s.maps, c))
  {
    if MapsOp(s.tables, c).Some? {
      MapsOpAllowed(s, c);
      ApplyConsistent(s.maps, MapsOp(s.tables, c).value);
    }
  }

  lemma CallHealthy(s: State, c: Call)
    requires Healthy(s) && MayIssue(s, c)
    ensures Healthy(CallStep(s, c))
  {
    var after := CallStep(s, c);
    MapsHealthy(s, c);
    if TablesOp(s, c).Some? {
      StepWellFormed(s.tables, TablesOp(s, c).value);
    }
    forall fh | fh in after.handles
      ensures Pending(after, fh)
    {
      if fh in s.handles {
        assert Pending(s, fh);
      }
    }
  }

  // ---------------------------------------------------------------- an inode and its entry

  /** Where a callback leaves the entry at `k`, unless it removes or replaces it. */
  function Whither(t: Tables, c: Call, k: Key): Option<Key> {
    if !c.Do? || StepReply(t, c.op) != Done then Some(k)
    else
      match c.op
      case Unlink(gone) => if gone == k then None else Some(k)
      case Rmdir(gone) => if gone == k then None else Some(k)
      case Rename(src, to) =>
        if PathOf(src) == PathOf(to) then Some(k) else if k == to then None else Some(RekeyKey(src, to, k))
      case Create(_) => Some(k)
      case Mkdir(_) => Some(k)
      case Write(_, _, _) => Some(k)
      case Flush(_, _) => Some(k)
      case SetSize(_, _) => Some(k)
  }

  lemma RenamedPath(t: Tables, src: Key, to: Key, k: Key)
    requires WellFormed(t) && Enabled(t, Rename(src, to)) && k in t.entries
    ensures Moves(PathOf(src), PathOf(k)) ==> Rekey(PathOf(src), PathOf(to), PathOf(k)) ==
                                              PathOf(to) + PathOf(k)[|PathOf(src)|..]
    ensures PathOf(RekeyKey(src, to, k)) == Rekey(PathOf(src), PathOf(to), PathOf(k))
    ensures Moves(PathOf(src), PathOf(k)) && PathOf(src) == PathOf(to) ==>
              PathOf(to) + PathOf(k)[|PathOf(src)|..] == PathOf(k)
  {
    assert ChildOk(t.entries, k);
    RekeyKeyPath(src, to, k);
  }

  /**
   * An entry is lost only by a successful unlink or rmdir of it or by a rename onto it; otherwise it
   * is where it was, or, if its path is the renamed one or lies under it, at the rewritten path.
   */
  lemma WhitherExact(s: State, c: Call, k: Key)
    requires Healthy(s) && MayIssue(s, c) && k in s.tables.entries
    ensures Whither(s.tables, c, k).None? <==>
              && c.Do? && StepReply(s.tables, c.op) == Done
              && (|| c.op == Unlink(k) || c.op == Rmdir(k)
                  || (c.op.Rename? && c.op.to == k && PathOf(c.op.src) != PathOf(k)))
    ensures Whither(s.tables, c, k).Some? ==>
              var renames := c.Do? && c.op.Rename? && StepReply(s.tables, c.op) == Done;
              PathOf(Whither(s.tables, c, k).value) ==
              if renames && Moves(PathOf(c.op.src), PathOf(k))
              then PathOf(c.op.to) + PathOf(k)[|PathOf(c.op.src)|..]
              else PathOf(k)
  {
    if c.Do? && c.op.Rename? && StepReply(s.tables, c.op) == Done {
      RenamedPath(s.tables, c.op.src, c.op.to, k);
    }
  }

  /** `ino` is the inode of the entry at `k`. */
  predicate Names(s: State, ino: nat, k: Key) {
    k in s.tables.entries && PathOf(k) in s.maps.byPath && s.maps.byPath[PathOf(k)] == ino
  }

  /** A lookup of an entry, and its creation, give it an inode: the one its path had, or the next number. */
  lemma AskedIsNamed(s: State, c: Call, k: Key)
    requires Healthy(s) && MayIssue(s, c)
    requires (c == Ask(PathOf(k)) && k in s.tables.entries)
             || ((c == Do(Create(k)) || c == Do(Mkdir(k))) && k !in s.tables.entries)
    ensures var ino := if PathOf(k) in s.maps.byPath then s.maps.byPath[PathOf(k)] else s.maps.next;
            Names(CallStep(s, c), ino, k)
    ensures forall p :: p in CallStep(s, c).maps.byPath ==> p in s.maps.byPath || p == PathOf(k)
  {
  }

  lemma RemovalKeepsNames(s: State, ino: nat, k: Key, gone: Key)
    requires Healthy(s) && Names(s, ino, k) && ValidName(gone.name) && gone != k
    ensures PathOf(k) in Forgotten(s.maps, PathOf(gone)).byPath
    ensures Forgotten(s.maps, PathOf(gone)).byPath[PathOf(k)] == ino
  {
    assert ChildOk(s.tables.entries, k);
    if PathOf(gone) == PathOf(k) {
      PathInjective(gone, k);
    }
  }

  lemma RenameKeepsNames(s: State, src: Key, to: Key, ino: nat, k: Key)
    requires Healthy(s) && Enabled(s.tables, Rename(src, to)) && StepReply(s.tables, Rename(src, to)) == Done
    requires PathOf(src) != PathOf(to) && Names(s, ino, k) && k != to
    ensures Names(CallStep(s, Do(Rename(src, to))), ino, RekeyKey(src, to, k))
    ensures CallStep(s, Do(Rename(src, to))).tables.entries[RekeyKey(src, to, k)] == s.tables.entries[k]
  {
    ChecksSuffice(s.tables, src, to);
    RenameCommutes(s.tables, s.maps, src, to, k);
  }

  /** One callback: the inode still names its entry, of the same kind, wherever that went. */
  lemma CallKeepsNames(s: State, c: Call, ino: nat, k: Key)
    requires Healthy(s) && MayIssue(s, c) && Names(s, ino, k) && Whither(s.tables, c, k).Some?
    ensures Names(CallStep(s, c), ino, Whither(s.tables, c, k).value)
    ensures CallStep(s, c).tables.entries[Whither(s.tables, c, k).value].kind == s.tables.entries[k].kind
  {
    if c.Do? && StepReply(s.tables, c.op) == Done {
      match c.op {
        case Unlink(gone) => RemovalKeepsNames(s, ino, k, gone);
        case Rmdir(gone) => RemovalKeepsNames(s, ino, k, gone);
        case Rename(src, to) =>
          if PathOf(src) != PathOf(to) {
            RenameKeepsNames(s, src, to, ino, k);
          }
        case Create(_) =>
        case Mkdir(_) =>
        case Write(_, _, _) =>
        case Flush(_, _) =>
        case SetSize(_, _) =>
      }
    }
  }

  // ---------------------------------------------------------------- every run of callbacks

  ghost predicate Session(s: State, calls: seq<Call>)
    requires Healthy(s)
    decreases |calls|
  {
    calls == [] || (MayIssue(s, calls[0]) && (CallHealthy(s, calls[0]); Session(CallStep(s, calls[0]), calls[1..])))
  }

  ghost function After(s: State, calls: seq<Call>): State
    requires Healthy(s) && Session(s, calls)
    decreases |calls|
  {
    if calls == [] then s else CallHealthy(s, calls[0]); After(CallStep(s, calls[0]), calls[1..])
  }

  /** Where the entry at `k` is after the run, if nothing removed or replaced it. */
  ghost function Fate(s: State, calls: seq<Call>, k: Key): Option<Key>
    requires Healthy(s) && Session(s, calls)
    decreases |calls|
  {
    if calls == [] then Some(k)
    else
      CallHealthy(s, calls[0]);
      match Whither(s.tables, calls[0], k)
      case None => None
      case Some(j) => Fate(CallStep(s, calls[0]), calls[1..], j)
  }

  function TreeCall(s: State, a: Tree, c: Call): Tree {
    var op := TablesOp(s, c);
    if op.Some? then TreeStep(a, op.value) else a
  }

  /** The abstract tree after the run. */
  ghost function TreeAfter(s: State, a: Tree, calls: seq<Call>): Tree
    requires Healthy(s) && Session(s, calls)
    decreases |calls|
  {
    if calls == [] then a
    else CallHealthy(s, calls[0]); TreeAfter(CallStep(s, calls[0]), TreeCall(s, a, calls[0]), calls[1..])
  }

  lemma {:induction false} SessionSimulates(s: State, a: Tree, calls: seq<Call>)
    requires Healthy(s) && Simulates(s.tables, a) && Session(s, calls)
    ensures Healthy(After(s, calls)) && Simulates(After(s, calls).tables, TreeAfter(s, a, calls))
    decreases |calls|
  {
    if calls != [] {
      var c := calls[0];
      CallHealthy(s, c);
      if TablesOp(s, c).Some? {
        StepSimulates(s.tables, a, TablesOp(s, c).value);
      }
      SessionSimulates(CallStep(s, c), TreeCall(s, a, c), calls[1..]);
    }
  }

  lemma {:induction false} SessionKeepsNames(s: State, calls: seq<Call>, ino: nat, k: Key)
    requires Healthy(s) && Session(s, calls) && Names(s, ino, k) && Fate(s, calls, k).Some?
    ensures Healthy(After(s, calls)) && Names(After(s, calls), ino, Fate(s, calls, k).value)
    ensures After(s, calls).tables.entries[Fate(s, calls, k).value].kind == s.tables.entries[k].kind
    decreases |calls|
  {
    if calls != [] {
      var c := calls[0];
      CallHealthy(s, c);
      CallKeepsNames(s, c, ino, k);
      SessionKeepsNames(CallStep(s, c), calls[1..], ino, Whither(s.tables, c, k).value);
    }
  }

  /**
   * Over every run of callbacks an inode resolves to where its entry now is, at any depth, and a
   * read through it shows the abstract file's bytes at every offset outside the residue.
   */
  lemma InodeReads(s: State, a: Tree, calls: seq<Call>, ino: nat, k: Key)
    requires Healthy(s) && Simulates(s.tables, a) && Session(s, calls)
    requires Names(s, ino, k) && Fate(s, calls, k).Some?
    ensures var after, tree, j := After(s, calls), TreeAfter(s, a, calls), Fate(s, calls, k).value;
            && PathOfIno(after.maps, ino) == Some(PathOf(j)) && SplitPath(PathOf(j)) == j
            && j in after.tables.entries && after.tables.entries[j].kind == s.tables.entries[k].kind
            && (IsFile(s.tables, k) ==>
                  && PathOf(j) in tree && tree[PathOf(j)].FileNode?
                  && |Content(after.tables, j)| == |tree[PathOf(j)].bytes|
                  && forall i :: 0 <= i < |Content(after.tables, j)| && i !in tree[PathOf(j)].residue ==>
                       Content(after.tables, j)[i] == tree[PathOf(j)].bytes[i])
  {
    var after, tree, j := After(s, calls), TreeAfter(s, a, calls), Fate(s, calls, k).value;
    SessionSimulates(s, a, calls);
    SessionKeepsNames(s, calls, ino, k);
    EntryKey(after.tables, j);
    assert ChildOk(after.tables.entries, j);
    if IsFile(s.tables, k) {
      ReadAgrees(after.tables, tree, j, 0);
      forall i | 0 <= i < |Content(after.tables, j)| && i !in tree[PathOf(j)].residue
        ensures Content(after.tables, j)[i] == tree[PathOf(j)].bytes[i]
      {
        ReadAgrees(after.tables, tree, j, i);
      }
    }
  }

  // ---------------------------------------------------------------- inodes of removed entries

  lemma {:induction false} SessionKeepsUnknown(s: State, calls: seq<Call>, ino: nat)
    requires Healthy(s) && Session(s, calls) && ino !in s.maps.byIno && ino < s.maps.next
    ensures ino !in After(s, calls).maps.byIno
    decreases |calls|
  {
    if calls != [] {
      CallHealthy(s, calls[0]);
      SessionKeepsUnknown(CallStep(s, calls[0]), calls[1..], ino);
    }
  }

  /** Once unlink or rmdir has removed its entry an inode resolves to nothing, over every run that follows. */
  lemma RemovedStaysUnknown(s: State, calls: seq<Call>, ino: nat, k: Key)
    requires Healthy(s) && Session(s, calls) && Names(s, ino, k)
    requires calls != [] && (calls[0] == Do(Unlink(k)) || calls[0] == Do(Rmdir(k)))
    requires StepReply(s.tables, calls[0].op) == Done
    ensures PathOfIno(After(s, calls).maps, ino).None?
  {
    var c := calls[0];
    assert ChildOk(s.tables.entries, k);
    assert CallStep(s, c).maps == Forgotten(s.maps, PathOf(k));
    CallHealthy(s, c);
    SessionKeepsUnknown(CallStep(s, c), calls[1..], ino);
    assert ino != ROOT_INO;
  }

  // ---------------------------------------------------------------- handles

  /** A handle's number is never given out again, and its key never changes. */
  lemma {:induction false} HandleKeepsKey(s: State, calls: seq<Call>, fh: nat)
    requires Healthy(s) && Session(s, calls) && fh < s.nextFh && fh in After(s, calls).handles
    ensures fh in s.handles && After(s, calls).handles[fh].key == s.handles[fh].key
    decreases |calls|
  {
    if calls != [] {
      CallHealthy(s, calls[0]);
      HandleKeepsKey(CallStep(s, calls[0]), calls[1..], fh);
    }
  }

  /** After a flush of `ws` to `k`, the file at `j` shows the last written bytes if it is `k`, else no change. */
  ghost predicate Shows(before: Tables, after: Tables, k: Key, j: Key, ws: seq<WriteOp>)
    requires j in before.entries && j in after.entries
  {
    if j == k then
      && |Content(after, j)| == SizeAfter(|Content(before, j)|, ws)
      && forall i :: 0 <= i < |Content(after, j)| ==>
           Content(after, j)[i] ==
           if TouchedBy(ws, i / BLOCK_SIZE) then Latest(ws, i) else RowByte(FileRows(before.blocks, j), i)
    else Content(after, j) == Content(before, j)
  }

  lemma FlushShows(t: Tables, k: Key, j: Key, ws: seq<WriteOp>)
    requires j in t.entries
    ensures j in Flushed(t, k, ws).entries && Shows(t, Flushed(t, k, ws), k, j, ws)
  {
    var after, rows := Flushed(t, k, ws), FileRows(t.blocks, k);
    RowsOfWithRows(t.blocks, k, rows + Buffered(ws), j);
    if j == k {
      SizeAfterIs(t.entries[j].size, ws);
      forall i | 0 <= i < |Content(after, j)|
        ensures Content(after, j)[i] == if TouchedBy(ws, i / BLOCK_SIZE) then Latest(ws, i) else RowByte(rows, i)
      {
        FlushedByte(rows, ws, i);
      }
    }
  }

  /** A flush or release of a handle in a session shows its pending writes in the file at its key, in no other. */
  lemma SyncShows(s: State, c: Call, fh: nat, j: Key)
    requires Healthy(s) && MayIssue(s, c) && (c == Sync(fh) || c == Close(fh))
    requires fh in s.handles && j in s.tables.entries
    ensures j in CallStep(s, c).tables.entries
    ensures Shows(s.tables, CallStep(s, c).tables, s.handles[fh].key, j, s.handles[fh].writes)
  {
    FlushShows(s.tables, s.handles[fh].key, j, s.handles[fh].writes);
  }

  /** Only operations, flushes and releases reach the tables; a write to a handle or a failed flush does not. */
  lemma OthersLeaveTables(s: State, c: Call)
    requires Healthy(s) && MayIssue(s, c)
    ensures c.Ask? || c.Open? || c.Put? || c.Lose? ==> CallStep(s, c).tables == s.tables
    ensures c.Do? ==> CallStep(s, c).tables == Step(s.tables, c.op)
  {
  }

  /** A handle stays open, over every run, exactly until it is released or a flush of it fails. */
  lemma {:induction false} OpenUntilClosed(s: State, calls: seq<Call>, fh: nat)
    requires Healthy(s) && Session(s, calls) && fh in s.handles
    ensures fh in After(s, calls).handles <==> Close(fh) !in calls && Lose(fh) !in calls
    decreases |calls|
  {
    assert Pending(s, fh);
    if calls != [] {
      var next := CallStep(s, calls[0]);
      CallHealthy(s, calls[0]);
      assert calls == [calls[0]] + calls[1..];
      if fh in next.handles {
        OpenUntilClosed(next, calls[1..], fh);
      } else if fh in After(next, calls[1..]).handles {
        HandleKeepsKey(next, calls[1..], fh);
      }
    }
  }

  /** Opening an inode's entry, or creating one, records its key under the next number; the others stay. */
  lemma OpenRecords(s: State, ino: nat, k: Key)
    requires Healthy(s) && Names(s, ino, k)
    ensures var after := CallStep(s, Open(ino));
            && after.handles == s.handles[s.nextFh := Handle(k, [])]
            && s.nextFh !in s.handles && after.nextFh == s.nextFh + 1
  {
    assert s.nextFh in s.handles ==> Pending(s, s.nextFh);
    EntryKey(s.tables, k);
    assert ChildOk(s.tables.entries, k);
  }

  lemma CreateRecords(s: State, k: Key)
    requires Healthy(s) && MayIssue(s, Do(Create(k))) && k !in s.tables.entries
    ensures var after := CallStep(s, Do(Create(k)));
            && after.handles == s.handles[s.nextFh := Handle(k, [])]
            && s.nextFh !in s.handles && after.nextFh == s.nextFh + 1
  {
    assert s.nextFh in s.handles ==> Pending(s, s.nextFh);
  }

  /** The writes put through a handle since it was last flushed, read off the calls. */
  function PutSince(earlier: seq<WriteOp>, calls: seq<Call>, fh: nat): seq<WriteOp>
    decreases |calls|
  {
    if calls == [] then earlier
    else if calls[0] == Sync(fh) then PutSince([], calls[1..], fh)
    else if calls[0].Put? && calls[0].fh == fh then PutSince(earlier + [calls[0].w], calls[1..], fh)
    else PutSince(earlier, calls[1..], fh)
  }

  /** A handle that is still open holds exactly the writes put through it since it was last flushed. */
  lemma {:induction false} HandleHolds(s: State, calls: seq<Call>, fh: nat)
    requires Healthy(s) && Session(s, calls) && fh in s.handles && fh in After(s, calls).handles
    ensures After(s, calls).handles[fh] == Handle(s.handles[fh].key, PutSince(s.handles[fh].writes, calls, fh))
    decreases |calls|
  {
    assert Pending(s, fh);
    if calls != [] {
      var next := CallStep(s, calls[0]);
      CallHealthy(s, calls[0]);
      HandleKeepsKey(next, calls[1..], fh);
      HandleHolds(next, calls[1..], fh);
    }
  }

  /** When a flush changes what the file at its key shows: never through bytes that were there already. */
  lemma FlushChanges(t: Tables, k: Key, ws: seq<WriteOp>)
    requires k in t.entries
    ensures var before, after := Content(t, k), Flushed(t, k, ws);
            && k in after.entries
            && (Content(after, k) == before <==>
                && SizeAfter(0, ws) <= |before|
                && forall i :: 0 <= i < |before| && TouchedBy(ws, i / BLOCK_SIZE) ==> Latest(ws, i) == before[i])
  {
    var before := Content(t, k);
    FlushShows(t, k, k, ws);
    var after := Content(Flushed(t, k, ws), k);
    SizeAfterIs(|before|, ws);
    if after == before {
      forall i | 0 <= i < |before| && TouchedBy(ws, i / BLOCK_SIZE)
        ensures Latest(ws, i) == before[i]
      {
        assert after[i] == before[i];
      }
    }
  }

  /**
   * A read through a handle flushes it first. For a handle opened on the file an inode names, and
   * any run since: if the file is still at its key the read shows in it the bytes put through the
   * handle, and if it has moved the flush leaves it as it was, whether or not another file now has
   * that key.
   */
  lemma HandleReaches(s: State, calls: seq<Call>, fh: nat, ino: nat, k: Key)
    requires Healthy(s) && Session(s, calls) && Names(s, ino, k)
    requires fh in s.handles && s.handles[fh].key == k
    requires Fate(s, calls, k).Some? && fh in After(s, calls).handles
    ensures var now, j := After(s, calls), Fate(s, calls, k).value;
            var ws := PutSince(s.handles[fh].writes, calls, fh);
            var read := Flushed(now.tables, k, ws);
            && Names(now, ino, j) && PathOfIno(now.maps, ino) == Some(PathOf(j)) && SplitPath(PathOf(j)) == j
            && now.handles[fh] == Handle(k, ws)
            && j in read.entries && Shows(now.tables, read, k, j, ws)
  {
    var now, j := After(s, calls), Fate(s, calls, k).value;
    SessionKeepsNames(s, calls, ino, k);
    HandleHolds(s, calls, fh);
    FlushShows(now.tables, k, j, PutSince(s.handles[fh].writes, calls, fh));
    EntryKey(now.tables, j);
    assert ChildOk(now.tables.entries, j);
  }

  /**
   * The other half: whatever file has the handle's key now, the one it was opened on or another
   * since, gets the handle's bytes. Its content changes iff some write ends past its end or a touched
   * block does not already hold, at every visible offset, what the flush puts there.
   */
  lemma HandleStrays(s: State, calls: seq<Call>, fh: nat, k: Key)
    requires Healthy(s) && Session(s, calls) && fh in s.handles && s.handles[fh].key == k
    requires fh in After(s, calls).handles && IsFile(After(s, calls).tables, k)
    ensures var now, ws := After(s, calls), PutSince(s.handles[fh].writes, calls, fh);
            var before, after := Content(now.tables, k), Flushed(now.tables, k, ws);
            && now.handles[fh] == Handle(k, ws) && k in after.entries && Shows(now.tables, after, k, k, ws)
            && (Content(after, k) == before <==>
                && SizeAfter(0, ws) <= |before|
                && forall i :: 0 <= i < |before| && TouchedBy(ws, i / BLOCK_SIZE) ==> Latest(ws, i) == before[i])
  {
    var now, ws := After(s, calls), PutSince(s.handles[fh].writes, calls, fh);
    HandleHolds(s, calls, fh);
    FlushShows(now.tables, k, k, ws);
    FlushChanges(now.tables, k, ws);
  }

  /**
   * The law of a session: bytes put through a handle, and then flushed, are what a read through the
   * inode of its file shows, whatever ran in between, as long as the file has not moved.
   */
  lemma PutSyncRead(s: State, calls: seq<Call>, fh: nat, ino: nat, k: Key, i: nat)
    requires Healthy(s) && Session(s, calls) && Names(s, ino, k)
    requires fh in s.handles && s.handles[fh] == Handle(k, []) && fh in After(s, calls).handles
    requires Fate(s, calls, k) == Some(k)
    requires Healthy(After(s, calls)) && MayIssue(After(s, calls), Sync(fh))
    requires Covered(PutSince([], calls, fh), i)
    ensures var synced := CallStep(After(s, calls), Sync(fh));
            && PathOfIno(synced.maps, ino) == Some(PathOf(k)) && k in synced.tables.entries
            && i < |Content(synced.tables, k)| && Content(synced.tables, k)[i] == Latest(PutSince([], calls, fh), i)
            && synced.handles[fh] == Handle(k, [])
  {
    var now, ws := After(s, calls), PutSince([], calls, fh);
    HandleReaches(s, calls, fh, ino, k);
    SyncShows(now, Sync(fh), fh, k);
    CoveredIsTouched(ws, i);
    SizeAfterIs(now.tables.entries[k].size, ws);
    if i >= SizeAfter(0, ws) {
      PastTheEnd(ws, i);
    }
  }
}
