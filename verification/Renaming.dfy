/**
 * What a rename does to the two tables: the SQL's rewrite of parent columns followed by the move
 * of the entry's own rows is one collision-free relabelling of keys, and keeps the tree well-formed.
 */
module Renaming {
  import opened Paths
  import opened Schema
  import opened Cascade
  import opened Relabel

  /** The cascade's key rewrite: the parent column only. */
  function CascadeKey(from: string, to: string): Key -> Key {
    (k: Key) => Key(CascadeParent(from, to, k.parent), k.name)
  }

  /** The rewrite of the entry's own row. */
  function MoveKey(src: Key, to: Key): Key -> Key {
    (k: Key) => if k == src then to else k
  }

  function Rekeying(src: Key, to: Key): Key -> Key {
    (k: Key) => RekeyKey(src, to, k)
  }

  /** The target can be dropped: it is absent, a file or an empty directory. */
  predicate Droppable(entries: EntryTable, to: Key) {
    to in entries && entries[to].kind == Dir ==> !HasChildren(entries, PathOf(to))
  }

  /** An existing target is of the source's kind. */
  predicate SameKind(entries: EntryTable, src: Key, to: Key) {
    src in entries && to in entries ==> entries[to].kind == entries[src].kind
  }

  /** What a rename's statements need of a well-formed tree. */
  ghost predicate RenameReady(t: Tables, src: Key, to: Key) {
    && WellFormed(t)
    && src in t.entries && src != to && !Under(PathOf(src), PathOf(to))
    && ValidName(to.name) && DirExists(t.entries, to.parent)
    && Droppable(t.entries, to)
  }

  /** The cascade treats every row that survives the removal of the target as the rename means to. */
  predicate CascadeFits(entries: EntryTable, src: Key, to: Key) {
    forall k :: k in entries && k != to ==> RowFits(PathOf(src), PathOf(to), k.parent)
  }

  /** A checked rename whose SQL does what it is meant to. */
  ghost predicate RenameSafe(t: Tables, src: Key, to: Key) {
    RenameReady(t, src, to) && (t.entries[src].kind == Dir ==> CascadeFits(t.entries, src, to))
  }

  // ---------------------------------------------------------------- what is free, what is outside

  /** Only an existing directory has anything under its path. */
  lemma NothingUnder(entries: EntryTable, d: Key, k: Key)
    requires TreeOk(entries) && ValidName(d.name) && k in entries
    requires d in entries && entries[d].kind == Dir ==> !HasChildren(entries, PathOf(d))
    ensures !Moves(PathOf(d), k.parent)
  {
    SplitJoin(d);
    assert ChildOk(entries, k);
    forall c | c in entries
      ensures c.parent != PathOf(d)
    {
      assert ChildOk(entries, c);
    }
    NoChildrenNothingUnder(entries, PathOf(d), k.parent);
  }

  lemma TargetPathFree(t: Tables, src: Key, to: Key, k: Key)
    requires RenameReady(t, src, to) && k in t.entries
    ensures !Moves(PathOf(to), k.parent)
  {
    NothingUnder(t.entries, to, k);
  }

  lemma EndsStay(t: Tables, src: Key, to: Key)
    requires RenameReady(t, src, to)
    ensures !Moves(PathOf(src), src.parent) && !Moves(PathOf(src), to.parent)
    ensures !Moves(PathOf(to), to.parent) && ValidName(src.name)
  {
    assert ChildOk(t.entries, src);
    UnderJoin(PathOf(src), to);
  }

  // ---------------------------------------------------------------- no collisions

  /** The whole rewrite is injective and hits no surviving key of `entries`. */
  lemma RekeyCollisionFree(t: Tables, src: Key, to: Key)
    requires RenameReady(t, src, to)
    ensures CollisionFree(t.entries - {to}, Rekeying(src, to))
  {
    var f, o, n := Rekeying(src, to), PathOf(src), PathOf(to);
    var table := t.entries - {to};
    EndsStay(t, src, to);
    forall k | k in table
      ensures f(k) != k ==> f(k) !in table
      ensures k != src && f(k) != k ==> Moves(n, f(k).parent) && Moves(o, k.parent)
    {
      if k != src && Moves(o, k.parent) {
        RekeyLands(o, n, k.parent);
        if f(k) in table {
          TargetPathFree(t, src, to, f(k));
        }
      }
    }
    forall a, b | a in table && b in table && f(a) == f(b)
      ensures a == b
    {
      if a != src && b != src && f(a) != a && f(b) != b {
        RekeyBack(o, n, a.parent);
        RekeyBack(o, n, b.parent);
      }
    }
  }

  /** Every group of block rows belongs to an entry. */
  ghost predicate Owned(t: Tables) { t.blocks.Keys <= t.entries.Keys }

  ghost predicate NoCollision(t: Tables, f: Key -> Key) {
    CollisionFree(t.entries, f) && CollisionFree(t.blocks, f)
  }

  /** No two rows of a table get the same key. */
  ghost predicate Distinct(t: Tables, f: Key -> Key) {
    Injective(t.entries, f) && Injective(t.blocks, f)
  }

  /** Both tables with their keys rewritten. */
  ghost function Updated(t: Tables, f: Key -> Key): Tables
    requires Distinct(t, f)
  {
    Tables(Relabelled(t.entries, f), Relabelled(t.blocks, f))
  }

  /** A collision-free rewrite of `entries` is one of `blocks` too, and keeps rows with their entries. */
  lemma LiftToBlocks(t: Tables, f: Key -> Key)
    requires Owned(t) && CollisionFree(t.entries, f)
    ensures NoCollision(t, f) && Owned(Updated(t, f))
  {
    forall j | j in Relabelled(t.blocks, f)
      ensures j in Relabelled(t.entries, f)
    {
      var k := RelabelledOrigin(t.blocks, f, j);
      RelabelledRow(t.entries, f, k);
    }
  }

  lemma UnlinkedOwned(t: Tables, k: Key)
    requires WellFormed(t)
    ensures Owned(Unlinked(t, k))
    ensures k !in t.entries ==> Unlinked(t, k) == t
  {
    assert forall f :: f in t.blocks ==> RowsOk(t.entries, t.blocks, f);
  }

  lemma SamePathSameKey(t: Tables, src: Key, to: Key)
    requires RenameReady(t, src, to)
    ensures PathOf(src) != PathOf(to)
  {
    assert ChildOk(t.entries, src);
    if PathOf(src) == PathOf(to) {
      PathInjective(src, to);
    }
  }

  /** A directory's cascade never collides, and leaves the directory's own row and the target's key alone. */
  lemma CascadeCollisionFree(t: Tables, src: Key, to: Key)
    requires RenameSafe(t, src, to) && t.entries[src].kind == Dir
    ensures CollisionFree(t.entries - {to}, CascadeKey(PathOf(src), PathOf(to)))
    ensures CascadeKey(PathOf(src), PathOf(to))(src) == src
    ensures forall k :: k in t.entries - {to} ==>
              CascadeKey(PathOf(src), PathOf(to))(k) == if k == src then src else RekeyKey(src, to, k)
    ensures forall k :: k in t.entries - {to} ==> CascadeKey(PathOf(src), PathOf(to))(k) != to
  {
    var o, n := PathOf(src), PathOf(to);
    var f, table := CascadeKey(o, n), t.entries - {to};
    RekeyCollisionFree(t, src, to);
    EndsStay(t, src, to);
    forall k | k in table
      ensures f(k) == if k == src then src else RekeyKey(src, to, k)
      ensures f(k) != to && (f(k) != k ==> f(k) !in table)
    {
      assert RowFits(o, n, k.parent);
      RowFitsExact(o, n, k.parent) by {
        SamePathSameKey(t, src, to);
      }
      if k != src {
        assert Rekeying(src, to)(k) == f(k) && Rekeying(src, to)(src) == to;
      }
    }
    forall a, b | a in table && b in table && f(a) == f(b)
      ensures a == b
    {
      assert Rekeying(src, to)(a) == RekeyKey(src, to, a) && Rekeying(src, to)(b) == RekeyKey(src, to, b);
    }
  }

  lemma MoveCollisionFree(entries: EntryTable, src: Key, to: Key)
    requires src in entries ==> to !in entries
    ensures CollisionFree(entries, MoveKey(src, to))
  {
  }

  // ---------------------------------------------------------------- the tables after a rename

  /** The target's rows dropped, every other row kept under its rewritten key. */
  ghost function Renamed(t: Tables, src: Key, to: Key): Tables
    requires RenameReady(t, src, to)
  {
    RekeyNoCollision(t, src, to);
    Updated(Unlinked(t, to), Rekeying(src, to))
  }

  lemma RekeyNoCollision(t: Tables, src: Key, to: Key)
    requires RenameReady(t, src, to)
    ensures NoCollision(Unlinked(t, to), Rekeying(src, to)) && Owned(Unlinked(t, to))
  {
    RekeyCollisionFree(t, src, to);
    UnlinkedOwned(t, to);
    LiftToBlocks(Unlinked(t, to), Rekeying(src, to));
  }

  /** No two surviving entries are given the same key. */
  lemma RekeyDistinct(t: Tables, src: Key, to: Key, a: Key, b: Key)
    requires RenameReady(t, src, to) && a in t.entries && b in t.entries && a != to && b != to
    requires RekeyKey(src, to, a) == RekeyKey(src, to, b)
    ensures a == b
  {
    RekeyNoCollision(t, src, to);
    assert Rekeying(src, to)(a) == Rekeying(src, to)(b);
  }

  lemma DirectoryNoCollision(t: Tables, src: Key, to: Key)
    requires RenameSafe(t, src, to) && t.entries[src].kind == Dir
    ensures var txn, f, g := Unlinked(t, to), CascadeKey(PathOf(src), PathOf(to)), MoveKey(src, to);
            && NoCollision(txn, f) && src in Updated(txn, f).entries && NoCollision(Updated(txn, f), g)
            && Owned(txn) && forall k :: k in txn.entries ==> g(f(k)) == Rekeying(src, to)(k)
  {
    var txn := Unlinked(t, to);
    var f, g, h := CascadeKey(PathOf(src), PathOf(to)), MoveKey(src, to), Rekeying(src, to);
    CascadeCollisionFree(t, src, to);
    UnlinkedOwned(t, to);
    LiftToBlocks(txn, f);
    RelabelledRow(txn.entries, f, src);
    assert to !in Updated(txn, f).entries by {
      if to in Updated(txn, f).entries {
        var k := RelabelledOrigin(txn.entries, f, to);
      }
    }
    MoveCollisionFree(Updated(txn, f).entries, src, to);
    LiftToBlocks(Updated(txn, f), g);
    forall k | k in txn.entries
      ensures g(f(k)) == h(k)
    {
      assert f(k) == f(src) ==> k == src;
    }
  }

  /** Cascade then own row, on both tables: no statement collides and the result is `Renamed`. */
  lemma DirectoryStatements(t: Tables, src: Key, to: Key)
    requires RenameSafe(t, src, to) && t.entries[src].kind == Dir
    ensures var txn, f, g := Unlinked(t, to), CascadeKey(PathOf(src), PathOf(to)), MoveKey(src, to);
            && NoCollision(txn, f) && src in Updated(txn, f).entries
            && NoCollision(Updated(txn, f), g) && Updated(Updated(txn, f), g) == Renamed(t, src, to)
  {
    var txn := Unlinked(t, to);
    var f, g, h := CascadeKey(PathOf(src), PathOf(to)), MoveKey(src, to), Rekeying(src, to);
    DirectoryNoCollision(t, src, to);
    RekeyNoCollision(t, src, to);
    RelabelTwice(txn.entries, f, g, h);
    RelabelTwice(txn.blocks, f, g, h);
  }

  /** A file has nothing under it, so moving its own rows is all there is. */
  lemma FileStatements(t: Tables, src: Key, to: Key)
    requires RenameReady(t, src, to) && t.entries[src].kind == File
    ensures NoCollision(Unlinked(t, to), MoveKey(src, to))
    ensures Updated(Unlinked(t, to), MoveKey(src, to)) == Renamed(t, src, to)
  {
    var txn := Unlinked(t, to);
    var g, h := MoveKey(src, to), Rekeying(src, to);
    MoveCollisionFree(txn.entries, src, to);
    UnlinkedOwned(t, to);
    LiftToBlocks(txn, g);
    assert ChildOk(t.entries, src);
    forall k | k in txn.entries
      ensures g(k) == h(k)
    {
      NothingUnder(t.entries, src, k);
    }
    RelabelSame(txn.entries, g, h);
    RelabelSame(txn.blocks, g, h);
    RekeyNoCollision(t, src, to);
  }

  /** No statement after the target's removal collides or finds its row missing. */
  ghost predicate StatementsOk(txn: Tables, src: Key, to: Key, kind: Kind) {
    var f, g := CascadeKey(PathOf(src), PathOf(to)), MoveKey(src, to);
    if kind == Dir then NoCollision(txn, f) && src in Updated(txn, f).entries && NoCollision(Updated(txn, f), g)
    else src in txn.entries && NoCollision(txn, g)
  }

  /** No statement gives two rows the same key, or finds its row missing. */
  ghost predicate StatementsDistinct(txn: Tables, src: Key, to: Key, kind: Kind) {
    var f, g := CascadeKey(PathOf(src), PathOf(to)), MoveKey(src, to);
    if kind == Dir then Distinct(txn, f) && src in Updated(txn, f).entries && Distinct(Updated(txn, f), g)
    else src in txn.entries && Distinct(txn, g)
  }

  ghost function StatementsResult(txn: Tables, src: Key, to: Key, kind: Kind): Tables
    requires StatementsDistinct(txn, src, to, kind)
  {
    var f, g := CascadeKey(PathOf(src), PathOf(to)), MoveKey(src, to);
    if kind == Dir then Updated(Updated(txn, f), g) else Updated(txn, g)
  }

  /** The statements of a checked rename all succeed, and together they are the relabelling `Renamed`. */
  lemma StatementsRename(t: Tables, src: Key, to: Key)
    requires RenameSafe(t, src, to)
    ensures StatementsOk(Unlinked(t, to), src, to, t.entries[src].kind)
    ensures StatementsResult(Unlinked(t, to), src, to, t.entries[src].kind) == Renamed(t, src, to)
    ensures to !in t.entries ==> Unlinked(t, to) == t
  {
    if t.entries[src].kind == Dir {
      DirectoryStatements(t, src, to);
    } else {
      FileStatements(t, src, to);
    }
    UnlinkedOwned(t, to);
  }

  // ---------------------------------------------------------------- what a rename means

  /** Every surviving entry is found at its rewritten path with the same kind, size and rows. */
  lemma RenamedEntry(t: Tables, src: Key, to: Key, k: Key)
    requires RenameReady(t, src, to) && k in t.entries && k != to
    ensures var after, j := Renamed(t, src, to), RekeyKey(src, to, k);
            && j in after.entries && after.entries[j] == t.entries[k]
            && FileRows(after.blocks, j) == FileRows(t.blocks, k)
            && ValidName(j.name) && PathOf(j) == Rekey(PathOf(src), PathOf(to), PathOf(k))
  {
    var txn, after, j := Unlinked(t, to), Renamed(t, src, to), RekeyKey(src, to, k);
    var f := Rekeying(src, to);
    RekeyNoCollision(t, src, to);
    assert f(k) == j;
    RelabelledRow(txn.entries, f, k);
    if k in t.blocks {
      RelabelledRow(txn.blocks, f, k);
    } else {
      assert j !in after.blocks by {
        if j in after.blocks {
          var b := RelabelledOrigin(txn.blocks, f, j);
          RekeyDistinct(t, src, to, k, b);
        }
      }
    }
    assert ChildOk(t.entries, src) && ChildOk(t.entries, k);
    RekeyKeyPath(src, to, k);
  }

  /** Nothing else appears: every entry afterwards is one that was there, rewritten. */
  lemma RenamedOrigin(t: Tables, src: Key, to: Key, j: Key) returns (k: Key)
    requires RenameReady(t, src, to) && j in Renamed(t, src, to).entries
    ensures k in t.entries && k != to && RekeyKey(src, to, k) == j
  {
    RekeyNoCollision(t, src, to);
    k := RelabelledOrigin(t.entries - {to}, Rekeying(src, to), j);
  }

  /** Directories survive: the parent of a surviving entry is found at its rewritten path. */
  lemma RenamedDir(t: Tables, src: Key, to: Key, path: string)
    requires RenameReady(t, src, to) && DirExists(t.entries, path) && path != PathOf(to)
    ensures DirExists(Renamed(t, src, to).entries, Rekey(PathOf(src), PathOf(to), path))
  {
    assert ChildOk(t.entries, src);
    if path != "" {
      var k := SplitPath(path);
      RenamedEntry(t, src, to, k);
      SplitJoin(RekeyKey(src, to, k));
    } else {
      assert PathOf(src) != "";
    }
  }

  lemma RenamedWellFormed(t: Tables, src: Key, to: Key)
    requires RenameReady(t, src, to)
    ensures WellFormed(Renamed(t, src, to))
  {
    var after := Renamed(t, src, to);
    EndsStay(t, src, to);
    forall j | j in after.entries
      ensures ChildOk(after.entries, j)
    {
      var k := RenamedOrigin(t, src, to, j);
      assert ChildOk(t.entries, k);
      if k == src {
        RenamedDir(t, src, to, to.parent);
      } else {
        TargetPathFree(t, src, to, k);
        RenamedDir(t, src, to, k.parent);
      }
    }
    RekeyNoCollision(t, src, to);
    forall j | j in after.blocks
      ensures RowsOk(after.entries, after.blocks, j)
    {
      var k := RelabelledOrigin(t.blocks - {to}, Rekeying(src, to), j);
      assert RowsOk(t.entries, t.blocks, k);
      RenamedEntry(t, src, to, k);
    }
  }

  // ---------------------------------------------------------------- what the statements need

  /** What is given before the question of the source's own subtree: names, the new directory, a droppable target. */
  ghost predicate RenameGiven(t: Tables, src: Key, to: Key) {
    && WellFormed(t) && src in t.entries && src != to
    && ValidName(to.name) && DirExists(t.entries, to.parent) && Droppable(t.entries, to)
  }

  /** The statements can succeed and leave a tree. */
  ghost predicate LeavesTree(t: Tables, src: Key, to: Key)
    requires src in t.entries
  {
    var txn, kind := Unlinked(t, to), t.entries[src].kind;
    StatementsDistinct(txn, src, to, kind) && WellFormed(StatementsResult(txn, src, to, kind))
  }

  /** After the statements the moved row is at its new key and no row is at the old one. */
  lemma MovedRow(t: Tables, src: Key, to: Key)
    requires RenameGiven(t, src, to) && StatementsDistinct(Unlinked(t, to), src, to, t.entries[src].kind)
    ensures var after := StatementsResult(Unlinked(t, to), src, to, t.entries[src].kind).entries;
            to in after && src !in after
  {
    var kind, g := t.entries[src].kind, MoveKey(src, to);
    var txn := Unlinked(t, to);
    var before := if kind == Dir then Updated(txn, CascadeKey(PathOf(src), PathOf(to))).entries else txn.entries;
    RelabelledRow(before, g, src);
    assert g(src) == to;
    if src in Relabelled(before, g) {
      var k := RelabelledOrigin(before, g, src);
    }
  }

  /** In a tree, a directory with something under it is an entry. */
  lemma UnderNeedsDir(entries: EntryTable, dir: Key, path: string)
    requires TreeOk(entries) && ValidName(dir.name) && DirExists(entries, path) && Moves(PathOf(dir), path)
    ensures dir in entries && entries[dir].kind == Dir
  {
    SplitJoin(dir);
    if path != PathOf(dir) {
      if HasChildren(entries, PathOf(dir)) {
        var c :| c in entries && c.parent == PathOf(dir);
        assert ChildOk(entries, c);
      } else {
        NoChildrenNothingUnder(entries, PathOf(dir), path);
      }
    }
  }

  /**
   * The one check the statements need: with everything else given, and a cascade that fits, they
   * succeed in every order of rows and leave a tree iff the new path is not under the old one; if it
   * is, they leave none even if they succeed. (That the target is of the source's kind is only for
   * the reply.)
   */
  lemma StatementsNeed(t: Tables, src: Key, to: Key)
    requires RenameGiven(t, src, to) && (t.entries[src].kind == Dir ==> CascadeFits(t.entries, src, to))
    ensures LeavesTree(t, src, to) <==> !Under(PathOf(src), PathOf(to))
    ensures LeavesTree(t, src, to) ==> StatementsOk(Unlinked(t, to), src, to, t.entries[src].kind)
  {
    if !Under(PathOf(src), PathOf(to)) {
      StatementsRename(t, src, to);
      RenamedWellFormed(t, src, to);
    } else if LeavesTree(t, src, to) {
      var after := StatementsResult(Unlinked(t, to), src, to, t.entries[src].kind).entries;
      MovedRow(t, src, to);
      assert ChildOk(t.entries, src) && ChildOk(after, to);
      UnderJoin(PathOf(src), to);
      UnderNeedsDir(after, src, to.parent);
    }
  }
}
