/**
 * When a directory rename's SQL does what it is meant to: exactly when the cascade treats each
 * stored row rightly, and, for every tree at once, exactly when the old path is ASCII without
 * metacharacters.
 */
module CascadeLimits {
  import opened Paths
  import opened Schema
  import opened Cascade
  import opened Relabel
  import opened Renaming

  // ---------------------------------------------------------------- for one tree

  /** A tree with the same names and kinds; sizes and contents may differ. */
  ghost predicate SameNames(t: Tables, u: Tables) {
    && WellFormed(u) && u.entries.Keys == t.entries.Keys
    && forall k :: k in t.entries ==> u.entries[k].kind == t.entries[k].kind
  }

  lemma SameNamesReady(t: Tables, u: Tables, src: Key, to: Key)
    requires RenameReady(t, src, to) && SameNames(t, u)
    ensures RenameReady(u, src, to)
    ensures CascadeFits(u.entries, src, to) <==> CascadeFits(t.entries, src, to)
  {
  }

  /** No statement can fail, in any order of rows, and the outcome is the rename. */
  ghost predicate AlwaysRight(t: Tables, src: Key, to: Key) {
    && RenameReady(t, src, to) && IsDir(t, src)
    && StatementsOk(Unlinked(t, to), src, to, Dir)
    && StatementsResult(Unlinked(t, to), src, to, Dir) == Renamed(t, src, to)
  }

  /** The statements can succeed in some order of rows with the rename as outcome. */
  ghost predicate EverRight(t: Tables, src: Key, to: Key) {
    RenameReady(t, src, to) && IsDir(t, src)
    && StatementsDistinct(Unlinked(t, to), src, to, Dir)
    && StatementsResult(Unlinked(t, to), src, to, Dir) == Renamed(t, src, to)
  }

  /** No two entries are alike. */
  ghost predicate Unlike(u: Tables) {
    forall a, b {:trigger u.entries[a], u.entries[b]} ::
      a in u.entries && b in u.entries && u.entries[a] == u.entries[b] ==> a == b
  }

  /** A different number for each key. */
  ghost predicate Numbers(s: set<Key>, m: map<Key, nat>) {
    && m.Keys == s && (forall a :: a in m ==> m[a] < |s|)
    && forall a, b :: a in m && b in m && m[a] == m[b] ==> a == b
  }

  lemma {:induction false} Numbering(s: set<Key>) returns (m: map<Key, nat>)
    ensures Numbers(s, m)
  {
    if s == {} {
      m := map[];
    } else {
      var k :| k in s;
      m := Numbering(s - {k});
      m := m[k := |s| - 1];
    }
  }

  function Resized(t: Tables, sizes: map<Key, nat>): Tables {
    Tables(map k | k in t.entries :: Entry(t.entries[k].kind, if k in sizes then sizes[k] else 0), map[])
  }

  /** A tree of the same names in which every entry has a size of its own, and no content. */
  lemma UnlikeTree(t: Tables) returns (u: Tables)
    requires WellFormed(t)
    ensures SameNames(t, u) && Unlike(u)
  {
    var sizes := Numbering(t.entries.Keys);
    u := Resized(t, sizes);
    forall k | k in u.entries
      ensures ChildOk(u.entries, k)
    {
      assert ChildOk(t.entries, k);
    }
  }

  /** If unlike entries end up as the rename puts them, each one was sent to its rewritten key. */
  lemma RowSent(u: Tables, src: Key, to: Key, k: Key)
    requires EverRight(u, src, to) && Unlike(u) && k in u.entries && k != to
    ensures MoveKey(src, to)(CascadeKey(PathOf(src), PathOf(to))(k)) == RekeyKey(src, to, k)
  {
    var j := MoveKey(src, to)(CascadeKey(PathOf(src), PathOf(to))(k));
    SentRow(u, src, to, k);
    var m := RenamedOrigin(u, src, to, j);
    RenamedEntry(u, src, to, m);
    assert u.entries[m] == u.entries[k];
  }

  /** The statements put each entry under the key they compute for it. */
  lemma SentRow(u: Tables, src: Key, to: Key, k: Key)
    requires EverRight(u, src, to) && k in u.entries && k != to
    ensures var j := MoveKey(src, to)(CascadeKey(PathOf(src), PathOf(to))(k));
            j in Renamed(u, src, to).entries && Renamed(u, src, to).entries[j] == u.entries[k]
  {
    var f, g := CascadeKey(PathOf(src), PathOf(to)), MoveKey(src, to);
    var txn := Unlinked(u, to);
    RelabelledRow(txn.entries, f, k);
    RelabelledRow(Updated(txn, f).entries, g, f(k));
  }

  /** Some row carries the directory's own key after the cascade: its own row. */
  lemma SourceStays(u: Tables, src: Key, to: Key)
    requires EverRight(u, src, to) && Unlike(u)
    ensures CascadeKey(PathOf(src), PathOf(to))(src) == src
  {
    var k := RelabelledOrigin(Unlinked(u, to).entries, CascadeKey(PathOf(src), PathOf(to)), src);
    RowSent(u, src, to, k);
    RekeyDistinct(u, src, to, k, src);
  }

  lemma RightFits(u: Tables, src: Key, to: Key)
    requires EverRight(u, src, to) && Unlike(u)
    ensures CascadeFits(u.entries, src, to)
  {
    forall k | k in u.entries && k != to
      ensures RowFits(PathOf(src), PathOf(to), k.parent)
    {
      RightFitsRow(u, src, to, k);
    }
  }

  lemma RightFitsRow(u: Tables, src: Key, to: Key, k: Key)
    requires EverRight(u, src, to) && Unlike(u) && k in u.entries && k != to
    ensures RowFits(PathOf(src), PathOf(to), k.parent)
  {
    SamePathSameKey(u, src, to);
    SourceStays(u, src, to);
    RowFitsExact(PathOf(src), PathOf(to), k.parent);
    if k == src {
      EndsStay(u, src, to);
    } else {
      RowSent(u, src, to, k);
      if RekeyKey(src, to, k) == to {
        RekeyDistinct(u, src, to, k, src);
      }
    }
  }

  /**
   * For a checked rename of a directory: the SQL gives the rename in every tree of the same names,
   * whatever order the rows are visited in, iff the cascade fits every stored row. Otherwise there
   * is such a tree for which it does so in no order.
   */
  lemma StatementsExact(t: Tables, src: Key, to: Key)
    requires RenameReady(t, src, to) && IsDir(t, src)
    ensures CascadeFits(t.entries, src, to) <==> forall u :: SameNames(t, u) ==> AlwaysRight(u, src, to)
    ensures CascadeFits(t.entries, src, to) <==> forall u :: SameNames(t, u) ==> EverRight(u, src, to)
  {
    forall u | SameNames(t, u) && CascadeFits(t.entries, src, to)
      ensures AlwaysRight(u, src, to)
    {
      SameNamesReady(t, u, src, to);
      StatementsRename(u, src, to);
    }
    forall u | AlwaysRight(u, src, to)
      ensures EverRight(u, src, to)
    {
    }
    var u := UnlikeTree(t);
    if EverRight(u, src, to) {
      RightFits(u, src, to);
      SameNamesReady(t, u, src, to);
    }
  }

  // ---------------------------------------------------------------- for every tree

  /** The keys of a path and of all directories above it. */
  function Chain(path: string): set<Key>
    decreases |path|
  {
    if path == "" then {} else {SplitPath(path)} + Chain(SplitPath(path).parent)
  }

  lemma {:induction false} ChainKeys(path: string, k: Key)
    requires NormalPath(path) && k in Chain(path)
    ensures ValidName(k.name) && |PathOf(k)| <= |path|
    ensures k.parent == "" || (SplitPath(k.parent) in Chain(path) && PathOf(SplitPath(k.parent)) == k.parent)
    decreases |path|
  {
    var top := SplitPath(path);
    if k != top {
      ChainKeys(top.parent, k);
    }
  }

  /** The smallest tree with directory `o` and a directory at `w` that is not empty. */
  function Sparse(o: string, w: string): Tables {
    Tables(map k | k in Chain(o) + Chain(w) + {Key(w, "y")} :: Entry(Dir, 0), map[])
  }

  lemma SparseIsTree(o: string, w: string)
    requires NormalPath(o) && NormalPath(w) && o != "" && w != ""
    ensures WellFormed(Sparse(o, w)) && IsDir(Sparse(o, w), SplitPath(o))
    ensures forall k :: k in Sparse(o, w).entries ==> |PathOf(k)| <= |o| + |w| + 2
  {
    var entries := Sparse(o, w).entries;
    forall k | k in entries
      ensures ChildOk(entries, k) && |PathOf(k)| <= |o| + |w| + 2
    {
      if k in Chain(o) {
        ChainKeys(o, k);
      } else if k in Chain(w) {
        ChainKeys(w, k);
      } else {
        assert SplitPath(w) in Chain(w) && PathOf(SplitPath(w)) == w;
      }
    }
  }

  function Repeat(c: char, n: nat): string { seq(n, _ => c) }

  lemma UnderHasSlash(dir: string, path: string)
    ensures Under(dir, path) ==> '/' in path
  {
    if Under(dir, path) {
      assert path[|dir|] == '/';
    }
  }

  /** Every directory whose path is not safe has a tree in which renaming it goes wrong. */
  lemma UnsafeTree(src: Key) returns (t: Tables, to: Key)
    requires ValidName(src.name) && NormalPath(src.parent) && !CascadeSafe(PathOf(src))
    ensures RenameReady(t, src, to) && IsDir(t, src) && !CascadeFits(t.entries, src, to)
  {
    var o := PathOf(src);
    NormalJoin(src);
    SplitJoin(src);
    NormalIsNeat(o);
    var w := UnsafeShows(o);
    NormalIsNeat(w);
    SparseIsTree(o, w);
    t, to := Sparse(o, w), Key("", Repeat('z', |o| + |w| + 3));
    assert to !in t.entries;
    assert !Under(o, PathOf(to)) by {
      UnderHasSlash(o, PathOf(to));
    }
    assert Key(w, "y") in t.entries && !RowFits(o, PathOf(to), w);
  }

  /** Renaming the directory is right in every tree, to every target, iff its path is safe. */
  lemma CascadeSafeExact(src: Key)
    requires ValidName(src.name) && NormalPath(src.parent)
    ensures CascadeSafe(PathOf(src)) <==>
              forall t, to :: RenameReady(t, src, to) && IsDir(t, src) ==> CascadeFits(t.entries, src, to)
  {
    if CascadeSafe(PathOf(src)) {
      forall t, to | RenameReady(t, src, to) && IsDir(t, src)
        ensures CascadeFits(t.entries, src, to)
      {
        forall k | k in t.entries && k != to
          ensures RowFits(PathOf(src), PathOf(to), k.parent)
        {
          SafeFits(PathOf(src), PathOf(to), k.parent);
        }
      }
    } else {
      var t, to := UnsafeTree(src);
    }
  }
}
