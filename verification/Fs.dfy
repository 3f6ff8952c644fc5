/**
 * The FUSE callbacks: inode numbers in, replies out, the tables and the in-memory maps behind. The
 * callbacks that change the tree give the tables and maps of a step of `Mount`. Every callback keeps
 * the caches in order; the tables stay a tree unless a write or flush goes to a key that no longer
 * names a file, which `WritesFile` and `FlushesFile` rule out.
 */
module Fs {
  import opened Base
  import opened Paths
  import opened Chunks
  import opened Schema
  import opened Renaming
  import opened Database
  import opened WriteBack
  import opened Operations
  import opened InodeMaps
  import Mount

  /** A (parent inode, name) pair as a database key. */
  function Resolved(m: Inodes, parent: nat, name: string): Option<Key> {
    match PathOfIno(m, parent)
    case Some(path) => Some(Key(path, name))
    case None => None
  }

  /** The root's inode gives a name in the root; an inode gives no key exactly if it is not known. */
  lemma ResolvedRoot(m: Inodes, parent: nat, name: string)
    requires Consistent(m) && ValidName(name)
    ensures Resolved(m, ROOT_INO, name).Some? && Components(PathOf(Resolved(m, ROOT_INO, name).value)) == [name]
    ensures Resolved(m, parent, name).None? <==> parent !in m.byIno
  {
    ComponentsJoin(Key("", name));
  }

  /** The key a callback acts on is, in the tree, the name one step below the directory the inode names. */
  lemma ResolvedIsChild(s: Mount.State, ino: nat, d: Key, name: string)
    requires Mount.Healthy(s) && Mount.Names(s, ino, d) && IsDir(s.tables, d) && ValidName(name)
    ensures var k := Resolved(s.maps, ino, name);
            && k.Some? && DirExists(s.tables.entries, k.value.parent)
            && Components(PathOf(k.value)) == Components(PathOf(d)) + [name]
  {
    assert ChildOk(s.tables.entries, d);
    SplitJoin(d);
    ComponentsJoin(Key(PathOf(d), name));
    assert ino != ROOT_INO;
  }

  function PathsOf(t: Tables): set<string> { set k | k in t.entries :: PathOf(k) }

  /** One path appears, an empty file or a directory; no other entry changes. */
  ghost predicate Adds(t: Tables, after: Tables, path: string, kind: Kind) {
    && path !in PathsOf(t) && PathsOf(after) == PathsOf(t) + {path}
    && forall k :: k in after.entries ==>
         if PathOf(k) == path then after.entries[k] == Entry(kind, 0)
         else k in t.entries && after.entries[k] == t.entries[k]
  }

  /** One path disappears, if it was there; no other entry changes. */
  ghost predicate Removes(t: Tables, after: Tables, path: string) {
    && PathsOf(after) == PathsOf(t) - {path}
    && forall k :: k in after.entries ==> k in t.entries && after.entries[k] == t.entries[k]
  }

  lemma InsertedAdds(t: Tables, k: Key, kind: Kind)
    requires WellFormed(t) && ValidName(k.name) && k !in t.entries
    ensures Adds(t, Inserted(t, k, kind), PathOf(k), kind)
  {
    forall j | j in t.entries
      ensures PathOf(j) != PathOf(k)
    {
      assert ChildOk(t.entries, j);
      if PathOf(j) == PathOf(k) {
        PathInjective(j, k);
      }
    }
    var after := Inserted(t, k, kind);
    assert forall j :: j in t.entries ==> j in after.entries;
    assert k in after.entries;
  }

  lemma DroppedRemoves(t: Tables, k: Key, after: Tables)
    requires WellFormed(t) && ValidName(k.name) && after.entries == t.entries - {k}
    ensures Removes(t, after, PathOf(k))
  {
    forall j | j in t.entries && j != k
      ensures PathOf(j) != PathOf(k)
    {
      assert ChildOk(t.entries, j);
      if PathOf(j) == PathOf(k) {
        PathInjective(j, k);
      }
    }
    assert forall j :: j in after.entries ==> j in t.entries;
    assert forall p :: p in PathsOf(t) && p != PathOf(k) ==> p in PathsOf(after);
  }

  lemma OpenOnView(v: Mount.State, ino: nat)
    ensures var path := PathOfIno(v.maps, ino);
            Mount.HandlesAfter(v, Mount.Open(ino)) ==
            if path.Some? then v.handles[v.nextFh := Mount.Handle(SplitPath(path.value), [])] else v.handles
  {
  }

  /** The kernel's guarantees hold for `op` if its directory inodes resolve. */
  predicate MayCall(t: Tables, k: Option<Key>, op: Key -> Op) { k.Some? ==> Enabled(t, op(k.value)) }

  /** The latest-handle pointers left by the release of handle `id` of `ino`: all but that inode's and that handle's. */
  function Retained(latest: map<nat, nat>, ino: nat, id: nat): (left: map<nat, nat>)
    ensures ino !in left && forall i :: i in left ==> left[i] != id
    ensures forall i :: i in left ==> i in latest && left[i] == latest[i]
    ensures forall i :: i in latest && i !in left ==> i == ino || latest[i] == id
  {
    map i | i in latest && i != ino && latest[i] != id :: latest[i]
  }

  /** What a listing says of a child. */
  datatype Listed = Listed(ino: nat, kind: Kind)

  /** The kernel passes names, and directories that exist. */
  predicate RenameNamed(t: Tables, src: Key, to: Key) {
    ValidName(src.name) && ValidName(to.name) && DirExists(t.entries, to.parent)
  }

  /** What the transaction of a checked rename replies and leaves. */
  ghost predicate Moved(t: Tables, src: Key, to: Key, r: Reply, after: Tables)
    requires RenameReady(t, src, to)
  {
    && (RenameSafe(t, src, to) ==> r == Done && after == Renamed(t, src, to) && WellFormed(after))
    && (!RenameSafe(t, src, to) ==>
          && (r != Done ==> r == Failed(EIO) && after == t)
          && (r == Done ==>
                && StatementsDistinct(TargetDropped(t, to), src, to, t.entries[src].kind)
                && after == StatementsResult(TargetDropped(t, to), src, to, t.entries[src].kind)))
  }

  /** What the rename callback replies and leaves in tables and maps. */
  ghost predicate RenameOutcome(t: Tables, m: Inodes, src: Key, to: Key, r: Reply, after: Tables, maps: Inodes)
    requires WellFormed(t) && RenameNamed(t, src, to)
  {
    && (r != Done ==> after == t && maps == m)
    && (Enabled(t, Operations.Rename(src, to)) ==>
          && r == StepReply(t, Operations.Rename(src, to)) && after == Step(t, Operations.Rename(src, to))
          && maps == Mount.MapsAfter(t, m, Mount.Do(Operations.Rename(src, to))))
    && (!Enabled(t, Operations.Rename(src, to)) ==>
          && RenameReady(t, src, to) && Moved(t, src, to, r, after)
          && (r == Done ==> maps == Rekeyed(m, PathOf(src), PathOf(to))))
  }

  lemma EnabledIsSafe(t: Tables, src: Key, to: Key)
    requires WellFormed(t) && RenameNamed(t, src, to) && PathOf(src) != PathOf(to) && RenameChecks(t, src, to) == Done
    ensures RenameReady(t, src, to) && (Enabled(t, Operations.Rename(src, to)) <==> RenameSafe(t, src, to))
  {
    ChecksSuffice(t, src, to);
  }

  /** What a write to an open buffer leaves there, with the casts as they are. */
  ghost predicate BufferTakes(before: Rows, size: nat, buf: HandleBuffer, offset: nat, data: Bytes, ok: bool)
    requires data != []
    reads buf
  {
    var rows := CodeRows(before, offset, data);
    && (ok <==> rows.Some?) && buf.maxSize == Max(size, offset + |data|)
    && buf.dirtyBlocks == if ok then rows.value else before
  }

  /** A buffer's key names a file, or the buffer is clean. */
  ghost predicate KeepsTree(t: Tables, buf: HandleBuffer)
    reads buf
  {
    IsFile(t, buf.key) || buf.dirtyBlocks == map[]
  }

  class PgFs {
    const db: Db
    var inoByPath: PathMap
    var pathByIno: InoMap
    var nextIno: nat
    var nextFh: nat
    var openHandles: map<nat, HandleBuffer>
    var openHandlesByIno: map<nat, nat>

    constructor (db: Db)
      requires WellFormed(db.State())
      ensures Valid() && this.db == db && Maps() == MOUNTED && openHandles == map[]
    {
      this.db := db;
      inoByPath, pathByIno, nextIno := MOUNTED.byPath, MOUNTED.byIno, MOUNTED.next;
      nextFh, openHandles, openHandlesByIno := 1, map[], map[];
    }

    ghost function Maps(): Inodes
      reads this`inoByPath, this`pathByIno, this`nextIno
    {
      Inodes(inoByPath, pathByIno, nextIno)
    }

    ghost predicate HandlesOk()
      reads this`nextFh, this`openHandles, openHandles.Values
    {
      && 0 < nextFh && 0 !in openHandles
      && (forall h :: h in openHandles ==> h < nextFh && openHandles[h].Valid())
      && (forall g, h :: g in openHandles && h in openHandles && openHandles[g] == openHandles[h] ==> g == h)
    }

    ghost predicate Valid()
      reads this, db, openHandles.Values
    {
      WellFormed(db.State()) && CachesOk()
    }

    /** The in-memory part of `Valid`. */
    ghost predicate CachesOk()
      reads this, openHandles.Values
    {
      Consistent(Maps()) && HandlesOk()
    }

    ghost function Handles(): map<nat, Mount.Handle>
      reads this`openHandles, openHandles.Values
    {
      map h | h in openHandles :: Mount.Handle(openHandles[h].key, openHandles[h].writes)
    }

    /** Tables, maps and handles together, as the runs of `Mount` see them. */
    ghost function View(): Mount.State
      reads this, db, openHandles.Values
    {
      Mount.State(db.State(), Maps(), Handles(), nextFh)
    }

    method InoFor(path: string) returns (ino: nat)
      requires Consistent(Maps())
      modifies this`inoByPath, this`pathByIno, this`nextIno
      ensures Maps() == Interned(old(Maps()), path) && Consistent(Maps())
      ensures path in inoByPath && ino == inoByPath[path]
    {
      if path !in inoByPath {
        inoByPath := inoByPath[path := nextIno];
        pathByIno := pathByIno[nextIno := path];
        nextIno := nextIno + 1;
      }
      ino := inoByPath[path];
    }

    method ForgetPath(path: string)
      requires Consistent(Maps()) && path != ""
      modifies this`inoByPath, this`pathByIno
      ensures Maps() == Forgotten(old(Maps()), path) && Consistent(Maps())
    {
      ghost var before := Maps();
      if path in inoByPath {
        var ino := inoByPath[path];
        inoByPath := inoByPath - {path};
        pathByIno := pathByIno - {ino};
      }
      ApplyConsistent(before, Forget(path));
    }

    method Resolve(parent: nat, name: string) returns (k: Option<Key>)
      ensures k == Resolved(Maps(), parent, name)
    {
      if parent == ROOT_INO {
        k := Some(Key(ROOT_PATH, name));
      } else if parent in pathByIno {
        k := Some(Key(pathByIno[parent], name));
      } else {
        k := None;
      }
    }

    /** `seen` is the entries table the read is served from: the primary's, or a standby's. */
    method Lookup(parent: nat, name: string, seen: EntryTable) returns (r: Result<nat, Errno>)
      requires Valid()
      modifies this`inoByPath, this`pathByIno, this`nextIno
      ensures Valid()
      ensures var k := Resolved(old(Maps()), parent, name);
              if k.Some? && k.value in seen
              then Maps() == Interned(old(Maps()), PathOf(k.value)) && r == Ok(Maps().byPath[PathOf(k.value)])
              else Maps() == old(Maps()) && r == Err(ENOENT)
      ensures r.Ok? ==>
                var dir := PathOfIno(old(Maps()), parent);
                && dir.Some? && Key(dir.value, name) in seen
                && Join(dir.value, name) in inoByPath && r.value == inoByPath[Join(dir.value, name)]
    {
      var k := Resolve(parent, name);
      if k.None? || k.value !in seen {
        return Err(ENOENT);
      }
      var ino := InoFor(PathOf(k.value));
      return Ok(ino);
    }

    /**
     * Every child, with its kind, and the directory's parent get an inode, the same one as before if
     * they had one, and no other path does; the tables are not touched.
     */
    method Readdir(ino: nat, seen: EntryTable) returns (listing: Option<map<Key, Listed>>, up: nat)
      requires Valid()
      modifies this`inoByPath, this`pathByIno, this`nextIno
      ensures Valid()
      ensures PathOfIno(old(Maps()), ino).None? ==> listing.None? && Maps() == old(Maps())
      ensures PathOfIno(old(Maps()), ino).Some? ==>
                && listing.Some? && listing.value.Keys == ChildrenOf(seen, PathOfIno(old(Maps()), ino).value)
                && (forall k :: k in listing.value ==>
                      PathOf(k) in inoByPath && listing.value[k] == Listed(inoByPath[PathOf(k)], seen[k].kind))
                && SplitPath(PathOfIno(old(Maps()), ino).value).parent in inoByPath
                && up == inoByPath[SplitPath(PathOfIno(old(Maps()), ino).value).parent]
                && (forall p :: p in old(inoByPath) ==> p in inoByPath && inoByPath[p] == old(inoByPath[p]))
                && (forall p :: p in inoByPath ==>
                      || p in old(inoByPath) || p == SplitPath(PathOfIno(old(Maps()), ino).value).parent
                      || exists k :: k in listing.value && PathOf(k) == p)
    {
      if ino != ROOT_INO && ino !in pathByIno {
        return None, 0;
      }
      var path := if ino == ROOT_INO then ROOT_PATH else pathByIno[ino];
      var found;
      found, up := ListPath(path, seen);
      return Some(found), up;
    }

    method ListPath(path: string, seen: EntryTable) returns (found: map<Key, Listed>, up: nat)
      requires Consistent(Maps())
      modifies this`inoByPath, this`pathByIno, this`nextIno
      ensures Consistent(Maps()) && found.Keys == ChildrenOf(seen, path)
      ensures forall k :: k in found ==>
                PathOf(k) in inoByPath && found[k] == Listed(inoByPath[PathOf(k)], seen[k].kind)
      ensures SplitPath(path).parent in inoByPath && up == inoByPath[SplitPath(path).parent]
      ensures forall p :: p in old(inoByPath) ==> p in inoByPath && inoByPath[p] == old(inoByPath[p])
      ensures forall p :: p in inoByPath ==>
                p in old(inoByPath) || p == SplitPath(path).parent || exists k :: k in found && PathOf(k) == p
    {
      up := InoFor(SplitPath(path).parent);
      var inos := InternAll(ChildrenOf(seen, path));
      found := map k | k in inos :: Listed(inos[k], seen[k].kind);
    }

    /** An inode for each key, asked for in an arbitrary order. */
    method InternAll(keys: set<Key>) returns (found: map<Key, nat>)
      requires Consistent(Maps())
      modifies this`inoByPath, this`pathByIno, this`nextIno
      ensures Consistent(Maps()) && found.Keys == keys
      ensures forall k :: k in found ==> PathOf(k) in inoByPath && found[k] == inoByPath[PathOf(k)]
      ensures forall p :: p in old(inoByPath) ==> p in inoByPath && inoByPath[p] == old(inoByPath[p])
      ensures forall p :: p in inoByPath ==> p in old(inoByPath) || exists k :: k in keys && PathOf(k) == p
    {
      var todo := keys;
      found := map[];
      while todo != {}
        invariant todo <= keys && found.Keys == keys - todo
        invariant Consistent(Maps())
        invariant forall k :: k in found ==> PathOf(k) in inoByPath && found[k] == inoByPath[PathOf(k)]
        invariant forall p :: p in old(inoByPath) ==> p in inoByPath && inoByPath[p] == old(inoByPath[p])
        invariant forall p :: p in inoByPath ==> p in old(inoByPath) || exists k :: k in keys && PathOf(k) == p
        decreases todo
      {
        var k := Pick(todo);
        var child := InoFor(PathOf(k));
        found := found[k := child];
        todo := todo - {k};
      }
    }

    method OpenHandle(k: Key) returns (fh: nat)
      requires HandlesOk()
      modifies this`nextFh, this`openHandles
      ensures HandlesOk() && fh == old(nextFh) && fh in openHandles && fresh(openHandles[fh])
      ensures openHandles == old(openHandles)[fh := openHandles[fh]] && openHandles - {fh} == old(openHandles)
      ensures openHandles[fh].key == k && openHandles[fh].writes == [] && nextFh == old(nextFh) + 1
      ensures Handles() == old(Handles())[fh := Mount.Handle(k, [])]
    {
      fh := nextFh;
      nextFh := nextFh + 1;
      var buf := new HandleBuffer(k);
      assert forall h :: h in openHandles ==> openHandles[h] != buf;
      openHandles := openHandles[fh := buf];
    }

    method Create(parent: nat, name: string) returns (r: Reply, ino: nat, fh: nat)
      requires Valid() && MayCall(db.State(), Resolved(Maps(), parent, name), k => Operations.Create(k))
      modifies this, db
      ensures Valid()
      ensures r != Done ==> db.State() == old(db.State()) && Maps() == old(Maps()) && openHandles == old(openHandles)
      ensures var k := Resolved(old(Maps()), parent, name);
              if k.None? then r == Failed(ENOENT)
              else
                && r == StepReply(old(db.State()), Operations.Create(k.value))
                && db.State() == Step(old(db.State()), Operations.Create(k.value))
                && Maps() == Mount.MapsAfter(old(db.State()), old(Maps()), Mount.Do(Operations.Create(k.value)))
                && (r == Done ==>
                      && PathOf(k.value) in inoByPath && ino == inoByPath[PathOf(k.value)]
                      && fh == old(nextFh) && fh in openHandles
                      && openHandles == old(openHandles)[fh := openHandles[fh]]
                      && openHandles[fh].key == k.value && openHandles[fh].writes == [])
      ensures openHandlesByIno == old(openHandlesByIno)
      ensures r == Done ==>
                var dir := PathOfIno(old(Maps()), parent);
                dir.Some? && Adds(old(db.State()), db.State(), Join(dir.value, name), File)
    {
      ino, fh := 0, 0;
      var k := Resolve(parent, name);
      if k.None? {
        return Failed(ENOENT), ino, fh;
      }
      var meta := db.GetattrPrimary(k.value);
      if meta.Some? {
        return Failed(EEXIST), ino, fh;
      }
      StepWellFormed(db.State(), Operations.Create(k.value));
      InsertedAdds(db.State(), k.value, File);
      db.Create(k.value);
      ino, fh := Publish(k.value);
      r := Done;
    }

    /** A handle and an inode for a file just created. */
    method Publish(k: Key) returns (ino: nat, fh: nat)
      requires CachesOk()
      modifies this
      ensures CachesOk() && Maps() == Interned(old(Maps()), PathOf(k))
      ensures PathOf(k) in inoByPath && ino == inoByPath[PathOf(k)]
      ensures fh == old(nextFh) && fh in openHandles && openHandles == old(openHandles)[fh := openHandles[fh]]
      ensures openHandles[fh].key == k && openHandles[fh].writes == []
      ensures openHandlesByIno == old(openHandlesByIno)
    {
      fh := OpenHandle(k);
      ino := InoFor(PathOf(k));
    }

    method Mkdir(parent: nat, name: string) returns (r: Reply, ino: nat)
      requires Valid() && MayCall(db.State(), Resolved(Maps(), parent, name), k => Operations.Mkdir(k))
      modifies this`inoByPath, this`pathByIno, this`nextIno, db
      ensures Valid()
      ensures r != Done ==> db.State() == old(db.State()) && Maps() == old(Maps())
      ensures var k := Resolved(old(Maps()), parent, name);
              if k.None? then r == Failed(ENOENT)
              else
                && r == StepReply(old(db.State()), Operations.Mkdir(k.value))
                && db.State() == Step(old(db.State()), Operations.Mkdir(k.value))
                && Maps() == Mount.MapsAfter(old(db.State()), old(Maps()), Mount.Do(Operations.Mkdir(k.value)))
                && (r == Done ==> PathOf(k.value) in inoByPath && ino == inoByPath[PathOf(k.value)])
      ensures r == Done ==>
                var dir := PathOfIno(old(Maps()), parent);
                dir.Some? && Adds(old(db.State()), db.State(), Join(dir.value, name), Dir)
    {
      ino := 0;
      var k := Resolve(parent, name);
      if k.None? {
        return Failed(ENOENT), ino;
      }
      var meta := db.GetattrPrimary(k.value);
      if meta.Some? {
        return Failed(EEXIST), ino;
      }
      StepWellFormed(db.State(), Operations.Mkdir(k.value));
      InsertedAdds(db.State(), k.value, Dir);
      db.Mkdir(k.value);
      ino := InoFor(PathOf(k.value));
      r := Done;
    }

    method Unlink(parent: nat, name: string) returns (r: Reply)
      requires Valid() && MayCall(db.State(), Resolved(Maps(), parent, name), k => Operations.Unlink(k))
      modifies this`inoByPath, this`pathByIno, db
      ensures Valid()
      ensures r != Done ==> db.State() == old(db.State()) && Maps() == old(Maps())
      ensures var k := Resolved(old(Maps()), parent, name);
              if k.None? then r == Failed(ENOENT)
              else
                && r == Done && db.State() == Step(old(db.State()), Operations.Unlink(k.value))
                && Maps() == Mount.MapsAfter(old(db.State()), old(Maps()), Mount.Do(Operations.Unlink(k.value)))
      ensures r == Done ==>
                var dir := PathOfIno(old(Maps()), parent);
                dir.Some? && Removes(old(db.State()), db.State(), Join(dir.value, name))
    {
      var k := Resolve(parent, name);
      if k.None? {
        return Failed(ENOENT);
      }
      StepWellFormed(db.State(), Operations.Unlink(k.value));
      DroppedRemoves(db.State(), k.value, Unlinked(db.State(), k.value));
      db.Unlink(k.value);
      ForgetPath(PathOf(k.value));
      r := Done;
    }

    method Rmdir(parent: nat, name: string) returns (r: Reply)
      requires Valid() && MayCall(db.State(), Resolved(Maps(), parent, name), k => Operations.Rmdir(k))
      modifies this`inoByPath, this`pathByIno, db
      ensures Valid()
      ensures r != Done ==> db.State() == old(db.State()) && Maps() == old(Maps())
      ensures var k := Resolved(old(Maps()), parent, name);
              if k.None? then r == Failed(ENOENT)
              else
                && r == StepReply(old(db.State()), Operations.Rmdir(k.value))
                && db.State() == Step(old(db.State()), Operations.Rmdir(k.value))
                && Maps() == Mount.MapsAfter(old(db.State()), old(Maps()), Mount.Do(Operations.Rmdir(k.value)))
      ensures r == Done ==>
                var dir := PathOfIno(old(Maps()), parent);
                dir.Some? && Removes(old(db.State()), db.State(), Join(dir.value, name))
    {
      var k := Resolve(parent, name);
      if k.None? {
        return Failed(ENOENT);
      }
      var meta := db.GetattrPrimary(k.value);
      if meta.None? {
        return Failed(ENOENT);
      }
      StepWellFormed(db.State(), Operations.Rmdir(k.value));
      DroppedRemoves(db.State(), k.value, Unlinked(db.State(), k.value));
      var deleted := db.Rmdir(k.value);
      if !deleted {
        return Failed(ENOTEMPTY);
      }
      ForgetPath(PathOf(k.value));
      r := Done;
    }

    /**
     * The checks of the callback, then the transaction, then the re-keying of both maps. The tables
     * stay a tree if the operation is enabled; a success outside that is described by its statements.
     */
    method Rename(parent: nat, name: string, newParent: nat, newName: string, flags: nat) returns (r: Reply)
      requires Valid()
      requires var src, to := Resolved(Maps(), parent, name), Resolved(Maps(), newParent, newName);
               src.Some? && to.Some? ==> RenameNamed(db.State(), src.value, to.value)
      modifies this`inoByPath, this`pathByIno, db
      ensures CachesOk()
      ensures r != Done ==> db.State() == old(db.State()) && Maps() == old(Maps())
      ensures flags != 0 ==> r == Failed(EINVAL)
      ensures var src, to := Resolved(old(Maps()), parent, name), Resolved(old(Maps()), newParent, newName);
              flags == 0 ==>
                if src.None? || to.None? then r == Failed(ENOENT)
                else
                  && RenameOutcome(old(db.State()), old(Maps()), src.value, to.value, r, db.State(), Maps())
                  && (Enabled(old(db.State()), Operations.Rename(src.value, to.value)) ==> Valid())
    {
      if flags != 0 {
        r := Failed(EINVAL);
      } else {
        var src := Resolve(parent, name);
        var to := Resolve(newParent, newName);
        if src.None? || to.None? {
          r := Failed(ENOENT);
        } else {
          r := RenameStep(src.value, to.value);
        }
      }
    }

    method RenameStep(src: Key, to: Key) returns (r: Reply)
      requires WellFormed(db.State()) && Consistent(Maps()) && RenameNamed(db.State(), src, to)
      modifies this`inoByPath, this`pathByIno, db
      ensures Consistent(Maps())
      ensures RenameOutcome(old(db.State()), old(Maps()), src, to, r, db.State(), Maps())
      ensures Enabled(old(db.State()), Operations.Rename(src, to)) ==> WellFormed(db.State())
    {
      if PathOf(to) == PathOf(src) {
        return Done;
      }
      r := CheckRename(src, to);
      if r != Done {
        return;
      }
      r := MoveChecked(src, to);
      EnabledIsSafe(old(db.State()), src, to);
    }

    /** The transaction, then the maps. If the cascade fits the transaction cannot fail. */
    method MoveChecked(src: Key, to: Key) returns (r: Reply)
      requires RenameReady(db.State(), src, to) && Consistent(Maps())
      modifies this`inoByPath, this`pathByIno, db
      ensures Moved(old(db.State()), src, to, r, db.State()) && Consistent(Maps())
      ensures Maps() == if r == Done then Rekeyed(old(Maps()), PathOf(src), PathOf(to)) else old(Maps())
    {
      r := RenameRows(src, to);
      if r == Done {
        RekeyPathMaps(PathOf(src), PathOf(to));
      }
    }

    method RenameRows(src: Key, to: Key) returns (r: Reply)
      requires RenameReady(db.State(), src, to)
      modifies db
      ensures Moved(old(db.State()), src, to, r, db.State()) && Apart(PathOf(src), PathOf(to))
    {
      ReadyApart(db.State(), src, to);
      RenamedWellFormed(db.State(), src, to);
      var renamed := db.Rename(src, to);
      r := if renamed.Ok? then Done else Failed(EIO);
    }

    method RekeyPathMaps(src: string, dst: string)
      requires Consistent(Maps()) && Apart(src, dst)
      modifies this`inoByPath, this`pathByIno
      ensures Maps() == Rekeyed(old(Maps()), src, dst) && Consistent(Maps())
    {
      RekeyedConsistent(Maps(), src, dst);
      var maps := RekeyMaps(Inodes(inoByPath, pathByIno, nextIno), src, dst);
      inoByPath, pathByIno := maps.byPath, maps.byIno;
    }

    /** The callback's decisions, read from the primary. */
    method CheckRename(src: Key, to: Key) returns (r: Reply)
      requires PathOf(src) != PathOf(to)
      ensures r == RenameChecks(db.State(), src, to)
      ensures WellFormed(db.State()) && RenameNamed(db.State(), src, to) ==>
                (r == Done <==> RenameReady(db.State(), src, to) && SameKind(db.entries, src, to))
    {
      if WellFormed(db.State()) && RenameNamed(db.State(), src, to) {
        ChecksSuffice(db.State(), src, to);
      }
      if PathOf(src) + "/" <= PathOf(to) {
        return Failed(EINVAL);
      }
      var sourceMeta := db.GetattrPrimary(src);
      if sourceMeta.None? {
        return Failed(ENOENT);
      }
      var targetMeta := db.GetattrPrimary(to);
      if targetMeta.Some? {
        match (sourceMeta.value.kind, targetMeta.value.kind) {
          case (File, Dir) => return Failed(EISDIR);
          case (Dir, File) => return Failed(ENOTDIR);
          case (Dir, Dir) =>
            var children := db.ListPrimary(PathOf(to));
            if children != {} {
              return Failed(ENOTEMPTY);
            }
          case (File, File) =>
        }
      }
      return Done;
    }

    /** The size change of setattr: straight to the database, past any open handle's buffer. */
    method Setattr(ino: nat, size: Option<nat>) returns (r: Reply)
      requires Valid()
      requires var path := PathOfIno(Maps(), ino);
               ino != ROOT_INO && path.Some? && size.Some? ==>
                 Enabled(db.State(), Operations.SetSize(SplitPath(path.value), size.value))
      modifies db
      ensures Valid()
      ensures ino == ROOT_INO ==> r == Done && db.State() == old(db.State())
      ensures ino != ROOT_INO && PathOfIno(Maps(), ino).None? ==> r == Failed(ENOENT) && db.State() == old(db.State())
      ensures var path := PathOfIno(Maps(), ino);
              ino != ROOT_INO && path.Some? && size.Some? ==>
                && r == StepReply(old(db.State()), Operations.SetSize(SplitPath(path.value), size.value))
                && db.State() == Step(old(db.State()), Operations.SetSize(SplitPath(path.value), size.value))
      ensures var path := PathOfIno(Maps(), ino);
              ino != ROOT_INO && path.Some? && size.None? ==>
                && r == (if SplitPath(path.value) in db.State().entries then Done else Failed(ENOENT))
                && db.State() == old(db.State())
    {
      if ino == ROOT_INO {
        return Done;
      }
      if ino !in pathByIno {
        return Failed(ENOENT);
      }
      var k := SplitPath(pathByIno[ino]);
      var meta := db.GetattrPrimary(k);
      if meta.None? {
        return Failed(ENOENT);
      }
      if size.Some? {
        if meta.value.kind == Dir {
          return Failed(EISDIR);
        }
        StepWellFormed(db.State(), Operations.SetSize(k, size.value));
        var truncated := db.Truncate(k, size.value);
      }
      return Done;
    }

    method Open(ino: nat) returns (fh: Option<nat>)
      requires Valid()
      modifies this`nextFh, this`openHandles, this`openHandlesByIno
      ensures Valid() && (fh.Some? <==> PathOfIno(Maps(), ino).Some?)
      ensures fh.Some? ==>
                && fh.value == old(nextFh) && fh.value in openHandles && fh.value !in old(openHandles)
                && openHandles - {fh.value} == old(openHandles)
                && openHandles[fh.value].key == SplitPath(PathOfIno(Maps(), ino).value)
                && openHandles[fh.value].writes == []
                && openHandlesByIno == old(openHandlesByIno)[ino := fh.value]
      ensures fh.None? ==> openHandles == old(openHandles) && openHandlesByIno == old(openHandlesByIno)
      ensures Handles() == Mount.HandlesAfter(old(View()), Mount.Open(ino))
      ensures nextFh == if fh.Some? then old(nextFh) + 1 else old(nextFh)
    {
      OpenOnView(View(), ino);
      if ino != ROOT_INO && ino !in pathByIno {
        return None;
      }
      var path := if ino == ROOT_INO then ROOT_PATH else pathByIno[ino];
      var handle := OpenKey(ino, SplitPath(path));
      return Some(handle);
    }

    method OpenKey(ino: nat, k: Key) returns (fh: nat)
      requires CachesOk()
      modifies this`nextFh, this`openHandles, this`openHandlesByIno
      ensures CachesOk() && fh == old(nextFh) && fh in openHandles && fh !in old(openHandles)
      ensures openHandles - {fh} == old(openHandles) && nextFh == old(nextFh) + 1
      ensures openHandles[fh].key == k && openHandles[fh].writes == []
      ensures openHandlesByIno == old(openHandlesByIno)[ino := fh]
      ensures Handles() == old(Handles())[old(nextFh) := Mount.Handle(k, [])]
    {
      fh := OpenHandle(k);
      openHandlesByIno := openHandlesByIno[ino := fh];
    }

    /** The handle a read, write or flush uses: the one it names, or the inode's latest. */
    function HandleFor(ino: nat, fh: nat): Option<nat>
      reads this
    {
      if fh != 0 then Some(fh) else if ino in openHandlesByIno then Some(openHandlesByIno[ino]) else None
    }

    /** A callback that names an open handle uses it; one that names none uses the inode's latest. */
    lemma HandleForIs(ino: nat, fh: nat)
      ensures fh != 0 ==> HandleFor(ino, fh) == Some(fh)
      ensures fh == 0 && ino in openHandlesByIno ==> HandleFor(ino, fh) == Some(openHandlesByIno[ino])
      ensures fh == 0 && ino !in openHandlesByIno ==> HandleFor(ino, fh) == None
    {
    }

    /** The buffer a write lands in, if the handle is still open. */
    ghost function BufferFor(ino: nat, fh: nat): Option<HandleBuffer>
      reads this
    {
      var h := HandleFor(ino, fh);
      if h.Some? && h.value in openHandles then Some(openHandles[h.value]) else None
    }

    /** The one buffer a callback on a handle may change. */
    ghost function BufferAt(h: nat): set<HandleBuffer>
      reads this
    {
      if h in openHandles then {openHandles[h]} else {}
    }

    ghost function BuffersFor(ino: nat, fh: nat): set<HandleBuffer>
      reads this
    {
      var buf := BufferFor(ino, fh);
      if buf.Some? then {buf.value} else {}
    }

    /** The flush of a callback, if it makes one, keeps the tree. */
    ghost predicate FlushesFile(ino: nat, fh: nat)
      reads this, db, openHandles.Values
    {
      var buf := BufferFor(ino, fh);
      buf.Some? ==> KeepsTree(db.State(), buf.value)
    }

    /** An unbuffered write goes to a file. */
    ghost predicate WritesFile(ino: nat, fh: nat)
      reads this, db
    {
      var path := PathOfIno(Maps(), ino);
      BufferFor(ino, fh).None? && path.Some? ==> IsFile(db.State(), SplitPath(path.value))
    }

    /**
     * Into the handle's buffer if it is open, else straight to the file the inode's path names. Past
     * 2^47 the casts decide what is written; `ok` is false if the code panics.
     */
    method Write(ino: nat, fh: nat, offset: nat, data: Bytes) returns (r: Reply, ok: bool)
      requires CachesOk() && offset + |data| < TWO_63
      modifies db, BuffersFor(ino, fh)
      ensures offset + |data| <= MAX_BYTES || data == [] ==> ok && CachesOk()
      ensures BufferFor(ino, fh).Some? ==>
                && db.State() == old(db.State()) && (ok ==> r == Done)
                && (offset + |data| <= MAX_BYTES ==>
                      BufferFor(ino, fh).value.writes == old(BufferFor(ino, fh).value.writes) + [WriteOp(offset, data)])
                && (data != [] ==>
                      BufferTakes(old(BufferFor(ino, fh).value.dirtyBlocks), old(BufferFor(ino, fh).value.maxSize),
                                  BufferFor(ino, fh).value, offset, data, ok))
      ensures fh != 0 && fh in openHandles && offset + |data| <= MAX_BYTES ==>
                openHandles[fh].writes == old(openHandles[fh].writes) + [WriteOp(offset, data)]
      ensures BufferFor(ino, fh).None? ==>
                var path := PathOfIno(Maps(), ino);
                && CachesOk()
                && if path.None? then ok && r == Failed(ENOENT) && db.State() == old(db.State())
                   else (ok ==> r == Done)
                        && WriteOutcome(old(db.State()), SplitPath(path.value), offset, data, ok, db.State())
      ensures offset + |data| <= MAX_BYTES && old(WellFormed(db.State())) && old(WritesFile(ino, fh)) ==> Valid()
    {
      var h := HandleFor(ino, fh);
      if h.Some? && h.value in openHandles {
        var buf := openHandles[h.value];
        ok := buf.Write(offset, data);
        return Done, ok;
      }
      if ino != ROOT_INO && ino !in pathByIno {
        return Failed(ENOENT), true;
      }
      var k := SplitPath(if ino == ROOT_INO then ROOT_PATH else pathByIno[ino]);
      if WellFormed(db.State()) && IsFile(db.State(), k) && offset + |data| <= MAX_BYTES {
        WrittenWellFormed(db.State(), k, offset, data);
      }
      ok := db.WriteRange(k, offset, data);
      return Done, ok;
    }

    /**
     * Flush one handle. `commits` says whether the database transaction succeeds: if it does not,
     * the tables are unchanged and the handle, with its buffered data, is gone.
     */
    method FlushHandle(h: nat, commits: bool) returns (ok: bool)
      requires CachesOk()
      modifies this`openHandles, db, BufferAt(h)
      ensures CachesOk()
      ensures h !in old(openHandles) ==> ok && db.State() == old(db.State()) && openHandles == old(openHandles)
      ensures h in old(openHandles) && ok ==>
                && openHandles == old(openHandles) && openHandles[h].writes == []
                && db.State() == Flushed(old(db.State()), openHandles[h].key, old(openHandles[h].writes))
      ensures h in old(openHandles) ==> (ok <==> commits || !old(openHandles[h].Dirty()))
      ensures !ok ==> openHandles == old(openHandles) - {h}
      ensures !commits ==> db.State() == old(db.State())
      ensures old(WellFormed(db.State())) && (h in old(openHandles) ==> old(KeepsTree(db.State(), openHandles[h]))) ==>
                Valid()
    {
      if h !in openHandles {
        return true;
      }
      var handle := openHandles[h];
      ghost var before := openHandles;
      openHandles := openHandles - {h};
      ok := FlushBuffer(handle, commits);
      if ok {
        openHandles := openHandles[h := handle];
        assert openHandles == before;
      }
    }

    method FlushBuffer(handle: HandleBuffer, commits: bool) returns (ok: bool)
      requires handle.Valid()
      modifies db, handle
      ensures handle.Valid()
      ensures ok <==> commits || !old(handle.Dirty())
      ensures ok ==> handle.writes == [] && db.State() == Flushed(old(db.State()), handle.key, old(handle.writes))
      ensures !commits ==> db.State() == old(db.State())
      ensures old(WellFormed(db.State())) && old(KeepsTree(db.State(), handle)) ==> WellFormed(db.State())
    {
      if WellFormed(db.State()) && KeepsTree(db.State(), handle) {
        FlushWellFormed(db.State(), handle.key, handle.writes);
      }
      if handle.Dirty() {
        if !commits {
          return false;
        }
        db.WriteBlocksBatch(handle.key, handle.dirtyBlocks, handle.maxSize);
      } else {
        NothingFlushed(db.State(), handle.key, handle.writes);
      }
      handle.Clear();
      return true;
    }

    /** The handle a callback names, or 0, which no handle has. */
    function HandleId(ino: nat, fh: nat): nat
      reads this
    {
      var h := HandleFor(ino, fh);
      if h.Some? then h.value else 0
    }

    /** Flush the handle a callback names, if it names one. */
    method FlushFor(ino: nat, fh: nat, commits: bool) returns (id: nat)
      requires CachesOk()
      modifies this`openHandles, db, BuffersFor(ino, fh)
      ensures CachesOk()
      ensures id == old(HandleId(ino, fh))
      ensures old(BufferFor(ino, fh)).Some? && commits ==>
                var key := old(BufferFor(ino, fh).value.key);
                db.State() == Flushed(old(db.State()), key, old(BufferFor(ino, fh).value.writes))
      ensures old(BufferFor(ino, fh)).None? || !commits ==> db.State() == old(db.State())
      ensures old(BufferFor(ino, fh)).None? || commits ==> openHandles == old(openHandles)
      ensures openHandles - {id} == old(openHandles) - {id}
      ensures id in openHandles ==> openHandles[id].writes == []
      ensures old(WellFormed(db.State())) && old(FlushesFile(ino, fh)) ==> WellFormed(db.State())
    {
      id := HandleId(ino, fh);
      var flushed := FlushHandle(id, commits);
    }

    /**
     * Flush the handle, whatever comes of it, then read the range from the primary. `ok` is false if
     * a read past 2^47 panics.
     */
    method Read(ino: nat, fh: nat, offset: nat, len: nat, commits: bool) returns (r: Result<Bytes, Errno>, ok: bool)
      requires CachesOk() && offset + len < TWO_63
      requires offset + len <= MAX_BYTES || (WellFormed(db.State()) && FlushesFile(ino, fh))
      modifies this`openHandles, db, BuffersFor(ino, fh)
      ensures CachesOk()
      ensures old(BufferFor(ino, fh)).Some? && commits ==>
                var buf := old(BufferFor(ino, fh)).value;
                db.State() == Flushed(old(db.State()), buf.key, old(BufferFor(ino, fh).value.writes))
      ensures old(BufferFor(ino, fh)).None? || !commits ==> db.State() == old(db.State())
      ensures old(BufferFor(ino, fh)).None? || commits ==> openHandles == old(openHandles)
      ensures var id := old(HandleId(ino, fh));
              openHandles - {id} == old(openHandles) - {id} && (id in openHandles ==> openHandles[id].writes == [])
      ensures var path := PathOfIno(Maps(), ino);
              if path.None? then ok && r == Err(ENOENT)
              else ReadOutcome(db.State(), SplitPath(path.value), offset, len,
                               if r.Ok? then Some(r.value) else None, ok)
      ensures ok && r.Err? ==> r == Err(ENOENT)
      ensures old(WellFormed(db.State())) && old(FlushesFile(ino, fh)) ==> Valid()
    {
      var id := FlushFor(ino, fh, commits);
      if ino != ROOT_INO && ino !in pathByIno {
        return Err(ENOENT), true;
      }
      var k := SplitPath(if ino == ROOT_INO then ROOT_PATH else pathByIno[ino]);
      if WellFormed(db.State()) {
        FileRowsFit(db.State(), k);
      }
      var data;
      data, ok := db.ReadRangePrimary(k, offset, len);
      r := if data.Some? then Ok(data.value) else Err(ENOENT);
    }

    /** Flush, then drop the handle and every inode's pointer to it. */
    method Release(ino: nat, fh: nat, commits: bool)
      requires CachesOk()
      modifies this`openHandles, this`openHandlesByIno, db, BuffersFor(ino, fh)
      ensures CachesOk()
      ensures openHandles == old(openHandles) - {old(HandleId(ino, fh))}
      ensures openHandlesByIno == Retained(old(openHandlesByIno), ino, old(HandleId(ino, fh)))
      ensures old(BufferFor(ino, fh)).Some? && commits ==>
                var key := old(BufferFor(ino, fh).value.key);
                db.State() == Flushed(old(db.State()), key, old(BufferFor(ino, fh).value.writes))
      ensures old(BufferFor(ino, fh)).None? || !commits ==> db.State() == old(db.State())
      ensures old(WellFormed(db.State())) && old(FlushesFile(ino, fh)) ==> Valid()
    {
      var id := FlushFor(ino, fh, commits);
      CloseHandle(id);
      openHandlesByIno := Retained(openHandlesByIno, ino, id);
    }

    method CloseHandle(id: nat)
      requires HandlesOk()
      modifies this`openHandles
      ensures HandlesOk() && openHandles == old(openHandles) - {id}
    {
      openHandles := openHandles - {id};
    }
  }
}
