/**
 * The two tables, what it means for them to be a file tree, and what each file-level statement
 * makes of them. `mtime` and the unused `data` column of `entries` are not modelled.
 */
module Schema {
  import opened Base
  import opened Paths
  import opened Chunks

  datatype Kind = File | Dir

  datatype Entry = Entry(kind: Kind, size: nat)

  type EntryTable = map<Key, Entry>

  /** The rows of `blocks` with the same (parent, name) columns; at least one. */
  type Group = rows: Rows | rows != map[] witness (var one: Rows := map[0 := []]; assert 0 in one; one)

  /** The rows of `blocks`, grouped by (parent, name). */
  type BlockTable = map<Key, Group>

  datatype Tables = Tables(entries: EntryTable, blocks: BlockTable)

  // ---------------------------------------------------------------- one file's rows

  function FileRows(blocks: BlockTable, f: Key): Rows {
    if f in blocks then blocks[f] else map[]
  }

  /** The table with the rows of `f` replaced by `rows`. */
  function WithRows(blocks: BlockTable, f: Key, rows: Rows): BlockTable {
    if rows == map[] then blocks - {f} else blocks[f := rows]
  }

  lemma RowsOfWithRows(blocks: BlockTable, f: Key, rows: Rows, g: Key)
    ensures FileRows(WithRows(blocks, f, rows), g) == if g == f then rows else FileRows(blocks, g)
  {
  }

  // ---------------------------------------------------------------- well-formed trees

  /** `path` is the root or an existing directory. */
  predicate DirExists(entries: EntryTable, path: string) {
    path == ""
    || (var k := SplitPath(path); PathOf(k) == path && k in entries && entries[k].kind == Dir)
  }

  ghost predicate ChildOk(entries: EntryTable, k: Key) {
    ValidName(k.name) && DirExists(entries, k.parent)
  }

  ghost predicate TreeOk(entries: EntryTable) {
    forall k {:trigger ChildOk(entries, k)} :: k in entries ==> ChildOk(entries, k)
  }

  ghost predicate RowsOk(entries: EntryTable, blocks: BlockTable, f: Key)
    requires f in blocks
  {
    f in entries && entries[f].kind == File && RowsFit(blocks[f])
  }

  /** A tree of files and directories whose block rows all belong to files and fit their blocks. */
  ghost predicate WellFormed(t: Tables) {
    && TreeOk(t.entries)
    && forall f {:trigger RowsOk(t.entries, t.blocks, f)} :: f in t.blocks ==> RowsOk(t.entries, t.blocks, f)
  }

  predicate HasChildren(entries: EntryTable, path: string) {
    exists k :: k in entries && k.parent == path
  }

  /** The rows a directory listing selects. */
  function ChildrenOf(entries: EntryTable, path: string): (s: set<Key>)
    ensures s == {} <==> !HasChildren(entries, path)
    ensures forall k :: k in s <==> k in entries && k.parent == path
  {
    var s := set k | k in entries && k.parent == path;
    assert HasChildren(entries, path) ==> s != {} by {
      if k :| k in entries && k.parent == path {
        assert k in s;
      }
    }
    s
  }

  predicate IsFile(t: Tables, k: Key) { k in t.entries && t.entries[k].kind == File }

  predicate IsDir(t: Tables, k: Key) { k in t.entries && t.entries[k].kind == Dir }

  /** The bytes a reader of the whole file sees. */
  function Content(t: Tables, k: Key): Bytes
    requires k in t.entries
  {
    Flat(FileRows(t.blocks, k), t.entries[k].size)
  }

  /** In a well-formed tree every directory path in use is made of valid names. */
  lemma {:induction false} DirIsNormal(entries: EntryTable, path: string)
    requires TreeOk(entries) && DirExists(entries, path)
    ensures NormalPath(path)
    decreases |path|
  {
    if path != "" {
      var k := SplitPath(path);
      assert ChildOk(entries, k);
      DirIsNormal(entries, k.parent);
    }
  }

  /** Everything under a path of a well-formed tree hangs off a child row of that path. */
  lemma {:induction false} NoChildrenNothingUnder(entries: EntryTable, dir: string, path: string)
    requires TreeOk(entries) && DirExists(entries, path)
    requires dir != "" && !HasChildren(entries, dir)
    ensures !Under(dir, path)
    decreases |path|
  {
    if path != "" {
      var k := SplitPath(path);
      assert ChildOk(entries, k);
      UnderJoin(dir, k);
      if Under(dir, path) {
        if k.parent != dir {
          NoChildrenNothingUnder(entries, dir, k.parent);
        }
      }
    }
  }

  // ---------------------------------------------------------------- what the statements do

  /** UPDATE entries SET size = ... WHERE the key matches: no row, no change. */
  function SetSize(entries: EntryTable, k: Key, size: nat): EntryTable {
    if k in entries then entries[k := entries[k].(size := size)] else entries
  }

  function SizeOf(entries: EntryTable, k: Key): nat {
    if k in entries then entries[k].size else 0
  }

  function Written(t: Tables, k: Key, offset: nat, data: Bytes): Tables {
    if data == [] then t
    else Tables(SetSize(t.entries, k, Max(SizeOf(t.entries, k), offset + |data|)),
                WithRows(t.blocks, k, WriteRows(FileRows(t.blocks, k), offset, data)))
  }

  function Truncated(t: Tables, k: Key, newSize: nat): Tables {
    var size := SizeOf(t.entries, k);
    Tables(SetSize(t.entries, k, newSize), WithRows(t.blocks, k, TruncateRows(FileRows(t.blocks, k), size, newSize)))
  }

  /** A flushed buffer replaces whole rows and can only grow the size. */
  function Batched(t: Tables, k: Key, dirty: Rows, newSize: nat): Tables {
    Tables(if newSize > 0 then SetSize(t.entries, k, Max(SizeOf(t.entries, k), newSize)) else t.entries,
           WithRows(t.blocks, k, FileRows(t.blocks, k) + dirty))
  }

  /** INSERT ... ON CONFLICT DO NOTHING. */
  function Inserted(t: Tables, k: Key, kind: Kind): Tables {
    if k in t.entries then t else t.(entries := t.entries[k := Entry(kind, 0)])
  }

  function Unlinked(t: Tables, k: Key): Tables {
    Tables(t.entries - {k}, t.blocks - {k})
  }
}
