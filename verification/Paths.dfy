/**
 * Paths as strings: joining and splitting keys, "strictly under", and the prefix rewrite of a
 * rename, each tied to the tree of components the strings stand for.
 */
module Paths {
  import opened Base

  /** The primary key of an entry: the full path of its directory and its own name. */
  datatype Key = Key(parent: string, name: string)

  predicate ValidName(name: string) { name != "" && '/' !in name }

  /** Full path of an entry; the root directory is the empty path. */
  function Join(parent: string, name: string): string {
    if parent == "" then name else parent + "/" + name
  }

  function PathOf(k: Key): string { Join(k.parent, k.name) }

  /** The index of the last `c` in `s`. */
  function RFind(s: string, c: char): (r: Option<nat>)
    ensures r.None? ==> c !in s
    ensures r.Some? ==> r.value < |s| && s[r.value] == c && c !in s[r.value + 1..]
  {
    if s == "" then None
    else if s[|s| - 1] == c then Some(|s| - 1)
    else RFind(s[..|s| - 1], c)
  }

  function SplitPath(path: string): (k: Key)
    ensures path != "" ==> |k.parent| < |path|
  {
    match RFind(path, '/')
    case Some(i) => Key(path[..i], path[i + 1..])
    case None => Key("", path)
  }

  lemma {:induction false} RFindIs(s: string, c: char, i: nat)
    requires i < |s| && s[i] == c && forall j :: i < j < |s| ==> s[j] != c
    ensures RFind(s, c) == Some(i)
  {
    if i < |s| - 1 {
      RFindIs(s[..|s| - 1], c, i);
    }
  }

  /** Splitting undoes joining for every slash-free name, under any parent string. */
  lemma SplitJoin(k: Key)
    requires ValidName(k.name)
    ensures SplitPath(PathOf(k)) == k
  {
    var path := PathOf(k);
    if k.parent != "" {
      assert path[..|k.parent|] == k.parent && path[|k.parent| + 1..] == k.name;
      forall j | |k.parent| < j < |path|
        ensures path[j] != '/'
      {
        assert path[j] == k.name[j - |k.parent| - 1];
      }
      RFindIs(path, '/', |k.parent|);
    }
  }

  /** Joining undoes splitting except for a path whose only slash is its first character. */
  lemma JoinSplit(path: string)
    ensures PathOf(SplitPath(path)) == path <==> RFind(path, '/') != Some(0)
  {
    match RFind(path, '/')
    case None =>
    case Some(i) =>
      assert path == path[..i] + "/" + path[i + 1..];
  }

  lemma PathInjective(a: Key, b: Key)
    requires ValidName(a.name) && ValidName(b.name) && PathOf(a) == PathOf(b)
    ensures a == b
  {
    SplitJoin(a);
    SplitJoin(b);
  }

  // ---------------------------------------------------------------- descent

  /** `path.starts_with(dir + "/")`. */
  predicate Under(dir: string, path: string) { dir + "/" <= path }

  /** An entry lies under `dir` exactly when its parent is `dir` or lies under `dir`. */
  lemma UnderJoin(dir: string, k: Key)
    requires dir != "" && ValidName(k.name)
    ensures Under(dir, PathOf(k)) <==> k.parent == dir || Under(dir, k.parent)
  {
    var path, start := PathOf(k), |PathOf(k)| - |k.name|;
    forall j | start <= j < |path|
      ensures path[j] != '/'
    {
      assert path[j] == k.name[j - start];
    }
    if k.parent == dir {
      assert path[..|dir| + 1] == dir + "/";
    }
    if Under(dir, k.parent) {
      assert path[..|dir| + 1] == k.parent[..|dir| + 1];
    }
    if Under(dir, path) {
      assert path[|dir|] == '/' && path[..|dir|] == dir;
      assert |dir| < start;
      assert k.parent == path[..start - 1];
      if |dir| < |k.parent| {
        assert k.parent[..|dir| + 1] == path[..|dir| + 1];
      }
    }
  }

  /** Two directories that both contain a path are the same or lie one under the other. */
  lemma UnderComparable(a: string, b: string, c: string)
    requires Under(a, c) && Under(b, c)
    ensures a == b || Under(a, b) || Under(b, a)
  {
    assert a == c[..|a|] && b == c[..|b|];
    if |a| < |b| {
      assert b[..|a| + 1] == c[..|a| + 1];
    }
    if |b| < |a| {
      assert a[..|b| + 1] == c[..|b| + 1];
    }
  }

  /** Paths built by joining non-empty slash-free names, the root included. */
  predicate NormalPath(path: string)
    decreases |path|
  {
    path == ""
    || var k := SplitPath(path);
       ValidName(k.name) && PathOf(k) == path && NormalPath(k.parent)
  }

  lemma NormalJoin(k: Key)
    requires ValidName(k.name) && NormalPath(k.parent)
    ensures NormalPath(PathOf(k)) && PathOf(k) != ""
  {
    SplitJoin(k);
  }

  /** No leading, trailing or doubled slash. */
  ghost predicate Neat(path: string) {
    path != "" && path[0] != '/' && path[|path| - 1] != '/'
    && forall i, j :: 0 <= i < j < |path| && j == i + 1 ==> path[i] != '/' || path[j] != '/'
  }

  lemma {:induction false} NormalIsNeat(path: string)
    requires path != ""
    ensures NormalPath(path) <==> Neat(path)
    decreases |path|
  {
    match RFind(path, '/')
    case None =>
      assert SplitPath(path) == Key("", path);
    case Some(i) =>
      var parent := path[..i];
      assert path == parent + "/" + path[i + 1..];
      if i > 0 {
        NormalIsNeat(parent);
        if Neat(path) {
          assert parent[i - 1] == path[i - 1] && path[i] == '/';
          assert Neat(parent);
        }
        if NormalPath(path) {
          NeatJoin(parent, path[i + 1..]);
        }
      }
  }

  lemma NeatJoin(parent: string, name: string)
    requires Neat(parent) && ValidName(name)
    ensures Neat(parent + "/" + name)
  {
    var path := parent + "/" + name;
    forall i, j | 0 <= i < j < |path| && j == i + 1
      ensures path[i] != '/' || path[j] != '/'
    {
      if j < |parent| {
        assert path[i] == parent[i] && path[j] == parent[j];
      } else if j == |parent| {
        assert path[i] == parent[i];
      } else {
        assert path[j] == name[j - |parent| - 1];
      }
    }
  }

  /** Putting a character that is not a slash anywhere into a path keeps it one. */
  lemma NeatInsert(path: string, i: nat, c: char)
    requires Neat(path) && i <= |path| && c != '/'
    ensures Neat(path[..i] + [c] + path[i..])
  {
    var w := path[..i] + [c] + path[i..];
    assert forall j :: 0 <= j < |w| ==> w[j] == if j < i then path[j] else if j == i then c else path[j - 1];
  }

  lemma NeatReplace(path: string, i: nat, c: char)
    requires Neat(path) && i < |path| && c != '/'
    ensures Neat(path[i := c])
  {
  }

  /** The names from the root down to a path. */
  function Components(path: string): seq<string>
    decreases |path|
  {
    if path == "" then [] else var k := SplitPath(path); Components(k.parent) + [k.name]
  }

  lemma ComponentsJoin(k: Key)
    requires ValidName(k.name)
    ensures Components(PathOf(k)) == Components(k.parent) + [k.name]
  {
    SplitJoin(k);
  }

  lemma {:induction false} ComponentsInjective(p: string, q: string)
    requires NormalPath(p) && NormalPath(q) && Components(p) == Components(q)
    ensures p == q
    decreases |p|
  {
    if p != "" && q != "" {
      var j, k := SplitPath(p), SplitPath(q);
      assert Components(p)[..|Components(p)| - 1] == Components(j.parent);
      assert Components(q)[..|Components(q)| - 1] == Components(k.parent);
      assert Components(p)[|Components(p)| - 1] == j.name && Components(q)[|Components(q)| - 1] == k.name;
      ComponentsInjective(j.parent, k.parent);
    }
  }

  ghost predicate StrictlyBelow(dir: seq<string>, path: seq<string>) {
    |dir| < |path| && path[..|dir|] == dir
  }

  lemma BelowSnoc(dir: seq<string>, path: seq<string>, name: string)
    ensures StrictlyBelow(dir, path + [name]) <==> dir == path || StrictlyBelow(dir, path)
  {
    var whole := path + [name];
    if |dir| <= |path| {
      assert whole[..|dir|] == path[..|dir|];
    }
  }

  /** "Starts with dir + '/'" is strict descent in the tree of components. */
  lemma {:induction false} UnderIsDescent(dir: string, path: string)
    requires NormalPath(dir) && NormalPath(path) && dir != ""
    ensures Under(dir, path) <==> StrictlyBelow(Components(dir), Components(path))
    decreases |path|
  {
    if path != "" {
      var k := SplitPath(path);
      UnderJoin(dir, k);
      UnderIsDescent(dir, k.parent);
      BelowSnoc(Components(dir), Components(k.parent), k.name);
      if Components(dir) == Components(k.parent) {
        ComponentsInjective(dir, k.parent);
      }
    }
  }

  // ---------------------------------------------------------------- the prefix rewrite

  predicate Moves(src: string, path: string) { path == src || Under(src, path) }

  /** A path after its ancestor-or-self `src` became `dst`. */
  function Rekey(src: string, dst: string, path: string): string {
    if path == src then dst
    else if Under(src, path) then dst + path[|src|..]
    else path
  }

  lemma RekeyLands(src: string, dst: string, path: string)
    requires Moves(src, path)
    ensures Moves(dst, Rekey(src, dst, path))
    ensures path != src ==> Under(dst, Rekey(src, dst, path))
  {
    if Under(src, path) {
      assert path[|src|] == '/';
      assert Rekey(src, dst, path)[..|dst| + 1] == dst + "/";
    }
  }

  /** Moved paths stay distinct, and renaming back restores each of them. */
  lemma RekeyBack(src: string, dst: string, path: string)
    requires Moves(src, path)
    ensures Rekey(dst, src, Rekey(src, dst, path)) == path
  {
    RekeyLands(src, dst, path);
    if Under(src, path) {
      assert (dst + path[|src|..])[|dst|..] == path[|src|..];
      assert path == path[..|src|] + path[|src|..];
    }
  }

  /** The key an entry is stored under after a rename of `src` to `to`. */
  function RekeyKey(src: Key, to: Key, k: Key): Key {
    if k == src then to else Key(Rekey(PathOf(src), PathOf(to), k.parent), k.name)
  }

  /** Rewriting keys (parent column, then the entry's own row) is rewriting full paths. */
  lemma RekeyKeyPath(src: Key, to: Key, k: Key)
    requires ValidName(src.name) && ValidName(to.name) && ValidName(k.name)
    ensures ValidName(RekeyKey(src, to, k).name)
    ensures PathOf(RekeyKey(src, to, k)) == Rekey(PathOf(src), PathOf(to), PathOf(k))
  {
    var o, n := PathOf(src), PathOf(to);
    UnderJoin(o, k);
    if k != src {
      if PathOf(k) == o {
        PathInjective(k, src);
      }
      if k.parent == o {
        assert PathOf(k)[|o|..] == "/" + k.name;
      } else if Under(o, k.parent) {
        assert PathOf(k)[|o|..] == k.parent[|o|..] + "/" + k.name;
      }
    }
  }

  /** In the tree, a rename replaces the leading components of the moved paths and of no others. */
  lemma {:induction false} RekeyMovesComponents(src: Key, to: Key, path: string)
    requires ValidName(src.name) && ValidName(to.name) && NormalPath(src.parent) && NormalPath(to.parent)
    requires NormalPath(path) && Moves(PathOf(src), path)
    ensures NormalPath(Rekey(PathOf(src), PathOf(to), path))
    ensures |Components(PathOf(src))| <= |Components(path)|
    ensures Components(Rekey(PathOf(src), PathOf(to), path)) ==
            Components(PathOf(to)) + Components(path)[|Components(PathOf(src))|..]
    decreases |path|
  {
    var o := PathOf(src);
    NormalJoin(src);
    NormalJoin(to);
    if path != o {
      var k := SplitPath(path);
      UnderJoin(o, k);
      RekeyMovesComponents(src, to, k.parent);
      RekeyStep(src, to, k);
    }
  }

  lemma RekeyStep(src: Key, to: Key, k: Key)
    requires ValidName(src.name) && ValidName(to.name) && ValidName(k.name) && k != src
    requires NormalPath(Rekey(PathOf(src), PathOf(to), k.parent))
    requires |Components(PathOf(src))| <= |Components(k.parent)|
    requires Components(Rekey(PathOf(src), PathOf(to), k.parent)) ==
             Components(PathOf(to)) + Components(k.parent)[|Components(PathOf(src))|..]
    ensures NormalPath(Rekey(PathOf(src), PathOf(to), PathOf(k)))
    ensures |Components(PathOf(src))| <= |Components(PathOf(k))|
    ensures Components(Rekey(PathOf(src), PathOf(to), PathOf(k))) ==
            Components(PathOf(to)) + Components(PathOf(k))[|Components(PathOf(src))|..]
  {
    var moved := RekeyKey(src, to, k);
    RekeyKeyPath(src, to, k);
    NormalJoin(moved);
    ComponentsJoin(moved);
    ComponentsJoin(k);
    SnocSuffix(Components(PathOf(to)), Components(k.parent), |Components(PathOf(src))|, k.name);
  }

  lemma SnocSuffix(lead: seq<string>, path: seq<string>, n: nat, name: string)
    requires n <= |path|
    ensures (lead + path[n..]) + [name] == lead + (path + [name])[n..]
  {
  }
}
