/**
 * The in-memory inode numbers: path to inode and inode to path, allocated lazily, re-keyed after a
 * rename by a loop over a hash map's keys.
 */
module InodeMaps {
  import opened Base
  import opened Paths
  import opened Schema
  import opened Renaming
  import opened Database

  type PathMap = map<string, nat>
  type InoMap = map<nat, string>

  datatype Inodes = Inodes(byPath: PathMap, byIno: InoMap, next: nat)

  const ROOT_INO: nat := 1
  const ROOT_PATH: string := ""

  const MOUNTED: Inodes := Inodes(map[ROOT_PATH := ROOT_INO], map[ROOT_INO := ROOT_PATH], ROOT_INO + 1)

  /** A cached path's inode leads back to the path; inode 1 is the root; every known number is below `next`. */
  ghost predicate Consistent(m: Inodes) {
    && ROOT_PATH in m.byPath && m.byPath[ROOT_PATH] == ROOT_INO
    && ROOT_INO in m.byIno && m.byIno[ROOT_INO] == ROOT_PATH
    && (forall p :: p in m.byPath ==> m.byPath[p] in m.byIno && m.byIno[m.byPath[p]] == p)
    && (forall i :: i in m.byIno ==> i < m.next)
  }

  function PathOfIno(m: Inodes, ino: nat): Option<string> {
    if ino == ROOT_INO then Some(ROOT_PATH)
    else if ino in m.byIno then Some(m.byIno[ino])
    else None
  }

  /** The maps after asking for a path's inode, allocating the next number for a path not seen yet. */
  function Interned(m: Inodes, path: string): Inodes {
    if path in m.byPath then m else Inodes(m.byPath[path := m.next], m.byIno[m.next := path], m.next + 1)
  }

  /** The maps after a removed entry's path is dropped. */
  function Forgotten(m: Inodes, path: string): Inodes {
    if path in m.byPath then Inodes(m.byPath - {path}, m.byIno - {m.byPath[path]}, m.next) else m
  }

  // ---------------------------------------------------------------- re-keying

  /** Two different paths, neither the root, neither under the other. */
  predicate Apart(src: string, dst: string) {
    src != "" && dst != "" && src != dst && !Under(src, dst) && !Under(dst, src)
  }

  lemma ApartMoves(src: string, dst: string, path: string)
    requires Apart(src, dst) && Moves(src, path)
    ensures !Moves(dst, path)
  {
    if Under(src, path) && Under(dst, path) {
      UnderComparable(src, dst, path);
    }
  }

  /** Path `q` now holds what `Origin` held before, when all moved keys but those in `todo` have moved. */
  function Origin(before: PathMap, src: string, dst: string, todo: set<string>, q: string): string {
    if Moves(dst, q) && Rekey(dst, src, q) in before && Rekey(dst, src, q) !in todo then Rekey(dst, src, q) else q
  }

  predicate Present(before: PathMap, src: string, dst: string, todo: set<string>, q: string) {
    var o := Origin(before, src, dst, todo, q);
    o in before && (o != q || !Moves(src, q) || q in todo)
  }

  ghost predicate PathsPartly(before: PathMap, src: string, dst: string, todo: set<string>, now: PathMap) {
    && (forall q :: q in now <==> Present(before, src, dst, todo, q))
    && (forall q :: q in now ==> now[q] == before[Origin(before, src, dst, todo, q)])
  }

  /** An inode's path after the re-keying of the paths not in `todo`. */
  function InoPath(before: Inodes, src: string, dst: string, todo: set<string>, i: nat): string
    requires i in before.byIno
  {
    var p := before.byIno[i];
    if p in before.byPath && before.byPath[p] == i && Moves(src, p) && p !in todo then Rekey(src, dst, p) else p
  }

  ghost predicate InosPartly(before: Inodes, src: string, dst: string, todo: set<string>, now: InoMap) {
    && now.Keys == before.byIno.Keys
    && forall i :: i in now ==> now[i] == InoPath(before, src, dst, todo, i)
  }

  /** Taking `p` off the list changes what its own key and its image hold, and nothing else. */
  lemma OriginStep(before: PathMap, src: string, dst: string, todo: set<string>, p: string, q: string)
    requires Apart(src, dst) && p in before && p in todo && Moves(src, p)
    ensures q == p ==> Present(before, src, dst, todo, q) && !Present(before, src, dst, todo - {p}, q)
    ensures q == p ==> Origin(before, src, dst, todo, q) == p
    ensures q == Rekey(src, dst, p) ==>
              Present(before, src, dst, todo - {p}, q) && Origin(before, src, dst, todo - {p}, q) == p
    ensures q != p && q != Rekey(src, dst, p) ==>
              && Origin(before, src, dst, todo - {p}, q) == Origin(before, src, dst, todo, q)
              && Present(before, src, dst, todo - {p}, q) == Present(before, src, dst, todo, q)
  {
    ApartMoves(src, dst, p);
    RekeyLands(src, dst, p);
    RekeyBack(src, dst, p);
    if Moves(dst, q) {
      RekeyBack(dst, src, q);
    }
  }

  lemma MoveOnePath(before: PathMap, src: string, dst: string, todo: set<string>, now: PathMap, p: string)
    requires Apart(src, dst) && PathsPartly(before, src, dst, todo, now)
    requires p in before && p in todo && Moves(src, p)
    ensures p in now && now[p] == before[p]
    ensures PathsPartly(before, src, dst, todo - {p}, (now - {p})[Rekey(src, dst, p) := now[p]])
  {
    OriginStep(before, src, dst, todo, p, p);
    var next := (now - {p})[Rekey(src, dst, p) := now[p]];
    forall q
      ensures q in next <==> Present(before, src, dst, todo - {p}, q)
      ensures q in next ==> next[q] == before[Origin(before, src, dst, todo - {p}, q)]
    {
      OriginStep(before, src, dst, todo, p, q);
    }
  }

  lemma MoveOneIno(before: Inodes, src: string, dst: string, todo: set<string>, now: InoMap, p: string)
    requires InosPartly(before, src, dst, todo, now) && Consistent(before)
    requires p in before.byPath && p in todo && Moves(src, p)
    ensures InosPartly(before, src, dst, todo - {p}, now[before.byPath[p] := Rekey(src, dst, p)])
  {
  }

  /** Every key equal to or under `src` moved, no other key touched, an occupied image overwritten. */
  ghost predicate PathsRekeyed(before: PathMap, src: string, dst: string, now: PathMap) {
    PathsPartly(before, src, dst, {}, now)
  }

  function Images(before: PathMap, src: string, dst: string): set<string> {
    set p | p in before :: Rekey(src, dst, p)
  }

  function Rekeyed(m: Inodes, src: string, dst: string): Inodes {
    Inodes(map q | q in m.byPath.Keys + Images(m.byPath, src, dst) && Present(m.byPath, src, dst, {}, q)
             :: m.byPath[Origin(m.byPath, src, dst, {}, q)],
           map i | i in m.byIno :: InoPath(m, src, dst, {}, i),
           m.next)
  }

  lemma RekeyedIs(m: Inodes, src: string, dst: string, byPath: PathMap, byIno: InoMap)
    requires PathsRekeyed(m.byPath, src, dst, byPath) && InosPartly(m, src, dst, {}, byIno)
    ensures Inodes(byPath, byIno, m.next) == Rekeyed(m, src, dst)
  {
    forall q | q in byPath
      ensures q in Rekeyed(m, src, dst).byPath
    {
      var o := Origin(m.byPath, src, dst, {}, q);
      if o != q {
        RekeyBack(dst, src, q);
        assert Rekey(src, dst, o) == q;
      }
    }
    assert byPath == Rekeyed(m, src, dst).byPath;
    assert byIno == Rekeyed(m, src, dst).byIno;
  }

  ghost predicate Partly(m: Inodes, src: string, dst: string, todo: set<string>, byPath: PathMap, byIno: InoMap) {
    PathsPartly(m.byPath, src, dst, todo, byPath) && InosPartly(m, src, dst, todo, byIno)
  }

  /** Remove one path's entry and insert it, with its inode, under the moved path. */
  method MoveEntry(ghost m: Inodes, src: string, dst: string, ghost todo: set<string>,
                   byPath: PathMap, byIno: InoMap, p: string, moved: string)
    returns (byPath': PathMap, byIno': InoMap)
    requires Consistent(m) && Apart(src, dst) && Partly(m, src, dst, todo, byPath, byIno)
    requires p in m.byPath && p in todo && Moves(src, p) && moved == Rekey(src, dst, p)
    ensures Partly(m, src, dst, todo - {p}, byPath', byIno')
  {
    MoveOnePath(m.byPath, src, dst, todo, byPath, p);
    MoveOneIno(m, src, dst, todo, byIno, p);
    var ino := byPath[p];
    byPath' := (byPath - {p})[moved := ino];
    byIno' := byIno[ino := moved];
  }

  /** Exactly the cached paths equal to or under `src` move; each keeps its inode. */
  lemma RekeyedExactly(m: Inodes, src: string, dst: string, q: string)
    requires Apart(src, dst)
    ensures q in Rekeyed(m, src, dst).byPath <==>
              (Moves(dst, q) && Rekey(dst, src, q) in m.byPath) || (q in m.byPath && !Moves(src, q))
    ensures q in Rekeyed(m, src, dst).byPath ==>
              Rekeyed(m, src, dst).byPath[q] ==
              m.byPath[if Moves(dst, q) && Rekey(dst, src, q) in m.byPath then Rekey(dst, src, q) else q]
  {
    if Moves(dst, q) {
      RekeyLands(dst, src, q);
      RekeyBack(dst, src, q);
      ApartMoves(src, dst, Rekey(dst, src, q));
    }
    if q in m.byPath && !Moves(src, q) {
      assert Rekey(src, dst, q) == q;
    }
  }

  /**
   * The re-keying: the path itself, then every cached path under it in an arbitrary order. The
   * outcome is the same for every order.
   */
  method RekeyMaps(m: Inodes, src: string, dst: string) returns (r: Inodes)
    requires Consistent(m) && Apart(src, dst)
    ensures r == Rekeyed(m, src, dst)
  {
    var byPath, byIno := m.byPath, m.byIno;
    ghost var all := set p | p in byPath && Moves(src, p);
    StartPartly(m, src, dst, all);
    if src in byPath {
      byPath, byIno := MoveEntry(m, src, dst, all, byPath, byIno, src, dst);
    } else {
      assert all - {src} == all;
    }
    var todo := set p | p in byPath && Under(src, p);
    TodoIs(m.byPath, src, dst, all - {src}, byPath);
    while todo != {}
      invariant todo <= all - {src}
      invariant Partly(m, src, dst, todo, byPath, byIno)
      decreases todo
    {
      var p := Pick(todo);
      var moved := dst + "/" + p[|src + "/"|..];
      SamePath(src, dst, p);
      byPath, byIno := MoveEntry(m, src, dst, todo, byPath, byIno, p, moved);
      assert todo - {p} < todo;
      todo := todo - {p};
    }
    RekeyedIs(m, src, dst, byPath, byIno);
    r := Inodes(byPath, byIno, m.next);
  }

  lemma StartPartly(m: Inodes, src: string, dst: string, all: set<string>)
    requires all == set p | p in m.byPath && Moves(src, p)
    ensures PathsPartly(m.byPath, src, dst, all, m.byPath) && InosPartly(m, src, dst, all, m.byIno)
  {
    forall q
      ensures Origin(m.byPath, src, dst, all, q) == q
    {
      if Moves(dst, q) {
        RekeyLands(dst, src, q);
      }
    }
  }

  lemma TodoIs(before: PathMap, src: string, dst: string, left: set<string>, now: PathMap)
    requires Apart(src, dst) && PathsPartly(before, src, dst, left, now)
    requires left == (set p | p in before && Moves(src, p)) - {src}
    ensures (set p | p in now && Under(src, p)) == left
  {
    forall q | Under(src, q)
      ensures q in now <==> q in left
    {
      ApartMoves(src, dst, q);
    }
  }

  lemma SamePath(src: string, dst: string, p: string)
    requires Under(src, p)
    ensures dst + "/" + p[|src + "/"|..] == Rekey(src, dst, p)
  {
    assert p[|src|..] == "/" + p[|src| + 1..];
  }

  // ---------------------------------------------------------------- the invariant, over every run

  datatype InoOp = Intern(path: string) | Forget(path: string) | Move(src: string, dst: string)

  /** Removed entries are not the root, and a rename's paths are apart. */
  predicate Allowed(op: InoOp) {
    match op
    case Intern(_) => true
    case Forget(path) => path != ""
    case Move(src, dst) => Apart(src, dst)
  }

  function Apply(m: Inodes, op: InoOp): Inodes {
    match op
    case Intern(path) => Interned(m, path)
    case Forget(path) => Forgotten(m, path)
    case Move(src, dst) => Rekeyed(m, src, dst)
  }

  function Run(m: Inodes, ops: seq<InoOp>): Inodes {
    if ops == [] then m else Apply(Run(m, ops[..|ops| - 1]), ops[|ops| - 1])
  }

  lemma RekeyedConsistent(m: Inodes, src: string, dst: string)
    requires Consistent(m) && Apart(src, dst)
    ensures Consistent(Rekeyed(m, src, dst))
  {
    var after := Rekeyed(m, src, dst);
    forall q | q in after.byPath
      ensures after.byPath[q] in after.byIno && after.byIno[after.byPath[q]] == q
    {
      var o := Origin(m.byPath, src, dst, {}, q);
      if o != q {
        RekeyLands(dst, src, q);
        RekeyBack(dst, src, q);
      }
    }
    assert !Moves(src, "") && !Moves(dst, "");
    assert Origin(m.byPath, src, dst, {}, "") == "" && Present(m.byPath, src, dst, {}, "");
  }

  lemma ApplyConsistent(m: Inodes, op: InoOp)
    requires Consistent(m) && Allowed(op)
    ensures Consistent(Apply(m, op)) && m.next <= Apply(m, op).next
  {
    match op
    case Intern(_) =>
    case Forget(_) =>
    case Move(src, dst) => RekeyedConsistent(m, src, dst);
  }

  /** The maps stay consistent over every run; no two cached paths ever share an inode. */
  lemma {:induction false} RunConsistent(m: Inodes, ops: seq<InoOp>)
    requires Consistent(m) && forall op :: op in ops ==> Allowed(op)
    ensures Consistent(Run(m, ops)) && m.next <= Run(m, ops).next
    ensures forall p, q :: p in Run(m, ops).byPath && q in Run(m, ops).byPath ==>
              (Run(m, ops).byPath[p] == Run(m, ops).byPath[q] <==> p == q)
  {
    if ops != [] {
      RunConsistent(m, ops[..|ops| - 1]);
      assert Allowed(ops[|ops| - 1]);
      ApplyConsistent(Run(m, ops[..|ops| - 1]), ops[|ops| - 1]);
    }
  }

  /** A number once passed by the allocator is never handed out again, whatever is removed or moved. */
  lemma {:induction false} NumbersNeverReused(m: Inodes, ops: seq<InoOp>, i: nat)
    requires Consistent(m) && forall op :: op in ops ==> Allowed(op)
    requires i in Run(m, ops).byIno && i < m.next
    ensures i in m.byIno
  {
    if ops != [] {
      var before, op := Run(m, ops[..|ops| - 1]), ops[|ops| - 1];
      RunConsistent(m, ops[..|ops| - 1]);
      NumbersNeverReused(m, ops[..|ops| - 1], i);
    }
  }

  /** No two known inodes have the same path. */
  ghost predicate NoAlias(m: Inodes) {
    forall i, j {:trigger m.byIno[i], m.byIno[j]} :: i in m.byIno && j in m.byIno && m.byIno[i] == m.byIno[j] ==> i == j
  }

  /** Some known inode, cached or left over from a replaced target, has the path. */
  ghost predicate Known(m: Inodes, path: string) {
    exists j :: j in m.byIno && m.byIno[j] == path
  }

  /** Some cached path moves onto the path of a known inode. */
  ghost predicate Overwrites(m: Inodes, src: string, dst: string) {
    exists p :: p in m.byPath && Moves(src, p) && Known(m, Rekey(src, dst, p))
  }

  /** A moved path's inode and one that already has the path it moves onto both resolve to the latter. */
  lemma OverwrittenAliases(m: Inodes, src: string, dst: string, p: string, j: nat)
    requires Consistent(m) && Apart(src, dst) && p in m.byPath && Moves(src, p)
    requires j in m.byIno && m.byIno[j] == Rekey(src, dst, p)
    ensures var i, after := m.byPath[p], Rekeyed(m, src, dst);
            && i != j && i in after.byIno && j in after.byIno && after.byIno[i] == after.byIno[j] == Rekey(src, dst, p)
            && PathOfIno(after, i) == PathOfIno(after, j) == Some(Rekey(src, dst, p))
  {
    RekeyLands(src, dst, p);
    ApartMoves(src, dst, p);
    if Moves(src, Rekey(src, dst, p)) {
      ApartMoves(src, dst, Rekey(src, dst, p));
    }
    assert m.byIno[m.byPath[p]] == p && !Moves(dst, "") && !Moves(src, "");
  }

  /** A rename gives two inodes one path exactly when a cached path moves onto the path of a known inode. */
  lemma AliasesExactly(m: Inodes, src: string, dst: string)
    requires Consistent(m) && NoAlias(m) && Apart(src, dst)
    ensures NoAlias(Rekeyed(m, src, dst)) <==> !Overwrites(m, src, dst)
  {
    var after := Rekeyed(m, src, dst);
    if Overwrites(m, src, dst) {
      var p :| p in m.byPath && Moves(src, p) && Known(m, Rekey(src, dst, p));
      var j :| j in m.byIno && m.byIno[j] == Rekey(src, dst, p);
      OverwrittenAliases(m, src, dst, p, j);
    } else {
      forall i, j | i in after.byIno && j in after.byIno && after.byIno[i] == after.byIno[j]
        ensures i == j
      {
        MovedApart(m, src, dst, i, j);
      }
    }
  }

  lemma MovedApart(m: Inodes, src: string, dst: string, i: nat, j: nat)
    requires Consistent(m) && NoAlias(m) && !Overwrites(m, src, dst) && i in m.byIno && j in m.byIno
    requires InoPath(m, src, dst, {}, i) == InoPath(m, src, dst, {}, j)
    ensures i == j
  {
    var p, q := m.byIno[i], m.byIno[j];
    assert Known(m, p) && Known(m, q);
    if InoPath(m, src, dst, {}, i) != p {
      RekeyBack(src, dst, p);
    }
    if InoPath(m, src, dst, {}, j) != q {
      RekeyBack(src, dst, q);
    }
  }

  /** Asking for a path's inode gives two inodes one path exactly when the path is known but not cached. */
  lemma InternAliasesExactly(m: Inodes, path: string)
    requires Consistent(m) && NoAlias(m)
    ensures NoAlias(Interned(m, path)) <==> path in m.byPath || !Known(m, path)
  {
    var after := Interned(m, path);
    if path !in m.byPath && Known(m, path) {
      var j :| j in m.byIno && m.byIno[j] == path;
      assert after.byIno[j] == after.byIno[m.next] && j != m.next;
    }
  }

  /**
   * Replacing a target: with the source cached and nothing known under the target, the new path gets
   * a second inode exactly when the target had one.
   */
  lemma ReplacedInodeAliases(m: Inodes, src: string, dst: string)
    requires Consistent(m) && NoAlias(m) && Apart(src, dst) && src in m.byPath
    requires forall j :: j in m.byIno ==> !Under(dst, m.byIno[j])
    ensures NoAlias(Rekeyed(m, src, dst)) <==> !Known(m, dst)
    ensures dst in m.byPath ==>
              var after := Rekeyed(m, src, dst);
              PathOfIno(after, m.byPath[src]) == PathOfIno(after, m.byPath[dst]) == Some(dst)
  {
    AliasesExactly(m, src, dst);
    if Overwrites(m, src, dst) {
      var p :| p in m.byPath && Moves(src, p) && Known(m, Rekey(src, dst, p));
      RekeyLands(src, dst, p);
    }
    assert Rekey(src, dst, src) == dst;
    if dst in m.byPath {
      OverwrittenAliases(m, src, dst, src, m.byPath[dst]);
    }
  }

  /**
   * The replaced target's inode outlives the new file too: after that file is removed the inode still
   * has the path, and a file created there next is reached through both inodes.
   */
  lemma ReplacedInodeLingers(m: Inodes, src: string, dst: string)
    requires Consistent(m) && Apart(src, dst) && src in m.byPath && dst in m.byPath
    ensures var left, gone := m.byPath[dst], Forgotten(Rekeyed(m, src, dst), dst);
            && PathOfIno(gone, left) == Some(dst) && dst !in gone.byPath && left != gone.next
            && PathOfIno(Interned(gone, dst), left) == PathOfIno(Interned(gone, dst), gone.next) == Some(dst)
  {
    assert Rekey(src, dst, src) == dst;
    OverwrittenAliases(m, src, dst, src, m.byPath[dst]);
    KeptPath(m, src, dst, src);
  }

  // ---------------------------------------------------------------- rename, on both representations

  lemma ReadyApart(t: Tables, src: Key, to: Key)
    requires RenameReady(t, src, to)
    ensures Apart(PathOf(src), PathOf(to))
  {
    EndsStay(t, src, to);
    TargetPathFree(t, src, to, src);
    UnderJoin(PathOf(to), src);
    if PathOf(src) == PathOf(to) {
      PathInjective(src, to);
    }
  }

  /**
   * After a rename every inode whose cached path named an entry, other than the replaced target's,
   * still resolves, through the inode's path and the tables, to the same kind, size and rows.
   */
  lemma RenameCommutes(t: Tables, m: Inodes, src: Key, to: Key, k: Key)
    requires RenameReady(t, src, to) && Consistent(m)
    requires k in t.entries && k != to && PathOf(k) in m.byPath
    ensures var ino, j := m.byPath[PathOf(k)], RekeyKey(src, to, k);
            var after, tables := Rekeyed(m, PathOf(src), PathOf(to)), Renamed(t, src, to);
            && PathOfIno(after, ino) == Some(PathOf(j)) && SplitPath(PathOf(j)) == j
            && PathOf(j) in after.byPath && after.byPath[PathOf(j)] == ino
            && j in tables.entries && tables.entries[j] == t.entries[k]
            && FileRows(tables.blocks, j) == FileRows(t.blocks, k)
  {
    var o, n, p := PathOf(src), PathOf(to), PathOf(k);
    var j := RekeyKey(src, to, k);
    assert ChildOk(t.entries, k);
    ReadyApart(t, src, to);
    RenamedEntry(t, src, to, k);
    SplitJoin(j);
    KeptPath(m, o, n, p) by {
      TargetPathFree(t, src, to, k);
      UnderJoin(n, k);
      if p == n {
        PathInjective(k, to);
      }
    }
  }

  lemma KeptPath(m: Inodes, src: string, dst: string, p: string)
    requires Consistent(m) && Apart(src, dst) && p in m.byPath && p != "" && !Moves(dst, p)
    ensures PathOfIno(Rekeyed(m, src, dst), m.byPath[p]) == Some(Rekey(src, dst, p))
    ensures Rekey(src, dst, p) in Rekeyed(m, src, dst).byPath
    ensures Rekeyed(m, src, dst).byPath[Rekey(src, dst, p)] == m.byPath[p]
  {
    var q := Rekey(src, dst, p);
    if Moves(src, p) {
      RekeyLands(src, dst, p);
      RekeyBack(src, dst, p);
      ApartMoves(dst, src, q);
    }
    assert Origin(m.byPath, src, dst, {}, q) == p;
    assert q in Images(m.byPath, src, dst);
  }

  datatype Pair = Pair(src: Key, to: Key)

  /** Each rename of the run is one the callback's checks let through, in the tables it meets. */
  ghost predicate AllReady(t: Tables, rs: seq<Pair>)
    decreases |rs|
  {
    rs == [] || (RenameReady(t, rs[0].src, rs[0].to) && AllReady(Renamed(t, rs[0].src, rs[0].to), rs[1..]))
  }

  ghost function RenamedAll(t: Tables, rs: seq<Pair>): Tables
    requires AllReady(t, rs)
    decreases |rs|
  {
    if rs == [] then t else RenamedAll(Renamed(t, rs[0].src, rs[0].to), rs[1..])
  }

  function RekeyedAll(m: Inodes, rs: seq<Pair>): Inodes
    decreases |rs|
  {
    if rs == [] then m else RekeyedAll(Rekeyed(m, PathOf(rs[0].src), PathOf(rs[0].to)), rs[1..])
  }

  /** Where the entry at `k` ends up, if no rename of the run replaces it. */
  function FinalKey(k: Key, rs: seq<Pair>): Option<Key>
    decreases |rs|
  {
    if rs == [] then Some(k)
    else if k == rs[0].to then None
    else FinalKey(RekeyKey(rs[0].src, rs[0].to, k), rs[1..])
  }

  /** Over every run of renames an inode follows its entry, at any depth, until the entry is replaced. */
  lemma {:induction false} RenamesCommute(t: Tables, m: Inodes, rs: seq<Pair>, k: Key)
    requires AllReady(t, rs) && Consistent(m)
    requires k in t.entries && PathOf(k) in m.byPath && FinalKey(k, rs).Some?
    ensures var ino, j := m.byPath[PathOf(k)], FinalKey(k, rs).value;
            var after, tables := RekeyedAll(m, rs), RenamedAll(t, rs);
            && Consistent(after) && PathOfIno(after, ino) == Some(PathOf(j))
            && PathOf(j) in after.byPath && after.byPath[PathOf(j)] == ino
            && j in tables.entries && tables.entries[j] == t.entries[k]
            && FileRows(tables.blocks, j) == FileRows(t.blocks, k)
    decreases |rs|
  {
    if rs != [] {
      var src, to := rs[0].src, rs[0].to;
      ReadyApart(t, src, to);
      RekeyedConsistent(m, PathOf(src), PathOf(to));
      RenameCommutes(t, m, src, to, k);
      RenamesCommute(Renamed(t, src, to), Rekeyed(m, PathOf(src), PathOf(to)), rs[1..], RekeyKey(src, to, k));
    } else if PathOf(k) == ROOT_PATH {
      assert m.byPath[PathOf(k)] == ROOT_INO;
    }
  }
}
