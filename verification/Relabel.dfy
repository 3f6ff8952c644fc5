/**
 * Rewriting the keys of a table: what an UPDATE of key columns does when no key collides, for
 * every order in which the rows are visited.
 */
module Relabel {
  import opened Base

  ghost predicate Injective<K(!new), V>(table: map<K, V>, f: K -> K) {
    forall a, b {:trigger f(a), f(b)} :: a in table && b in table && f(a) == f(b) ==> a == b
  }

  /** Distinct rows get distinct keys and no rewritten key is one that some row already has. */
  ghost predicate CollisionFree<K(!new), V>(table: map<K, V>, f: K -> K) {
    && Injective(table, f)
    && (forall k {:trigger f(k)} :: k in table && f(k) != k ==> f(k) !in table)
  }

  ghost predicate Image<K(!new), V>(table: map<K, V>, f: K -> K, j: K) {
    exists k :: k in table && f(k) == j
  }

  /** `r` holds every row of `table` under its new key, and no other row. */
  ghost predicate IsRelabelled<K(!new), V(!new)>(table: map<K, V>, f: K -> K, r: map<K, V>) {
    && (forall k {:trigger f(k)} :: k in table ==> f(k) in r && r[f(k)] == table[k])
    && (forall j {:trigger Image(table, f, j)} :: j in r ==> Image(table, f, j))
  }

  ghost function Relabelled<K(!new), V(!new)>(table: map<K, V>, f: K -> K): map<K, V>
    requires Injective(table, f)
  {
    var rows := map k | k in table :: f(k) := table[k];
    assert IsRelabelled(table, f, rows);
    var r :| IsRelabelled(table, f, r);
    r
  }

  lemma RelabelledOrigin<K(!new), V(!new)>(table: map<K, V>, f: K -> K, j: K) returns (k: K)
    requires Injective(table, f) && j in Relabelled(table, f)
    ensures k in table && f(k) == j
  {
    assert Image(table, f, j);
    k :| k in table && f(k) == j;
  }

  lemma RelabelledRow<K(!new), V(!new)>(table: map<K, V>, f: K -> K, k: K)
    requires Injective(table, f) && k in table
    ensures f(k) in Relabelled(table, f) && Relabelled(table, f)[f(k)] == table[k]
  {
  }

  lemma RelabelledIs<K(!new), V(!new)>(table: map<K, V>, f: K -> K, result: map<K, V>)
    requires Injective(table, f)
    requires forall k :: k in table ==> f(k) in result && result[f(k)] == table[k]
    requires forall j :: j in result ==> exists k :: k in table && f(k) == j
    ensures result == Relabelled(table, f)
  {
    forall j | j in Relabelled(table, f)
      ensures j in result && result[j] == Relabelled(table, f)[j]
    {
      var k := RelabelledOrigin(table, f, j);
    }
  }

  /**
   * Part-way through an update: the rows in `todo` still have their key, the others their new one,
   * and no new key was taken.
   */
  ghost predicate Progress<K(!new), V>(table: map<K, V>, f: K -> K, todo: set<K>, current: map<K, V>) {
    && todo <= table.Keys
    && (forall k :: k in todo ==> f(k) != k && k in current && current[k] == table[k])
    && (forall k :: k in table && k !in todo ==> f(k) !in todo && f(k) in current && current[f(k)] == table[k])
    && (forall j :: j in current ==> j in todo || exists k :: k in table && k !in todo && f(k) == j)
    && (forall a, b {:trigger f(a), f(b)} ::
          a in table && a !in todo && b in table && b !in todo && f(a) == f(b) ==> a == b)
  }

  lemma ProgressStep<K(!new), V(!new)>(table: map<K, V>, f: K -> K, todo: set<K>, current: map<K, V>, k: K)
    requires Progress(table, f, todo, current) && k in todo && f(k) !in current
    ensures Progress(table, f, todo - {k}, (current - {k})[f(k) := current[k]])
  {
    var next := (current - {k})[f(k) := current[k]];
    forall j | j in next
      ensures j in todo - {k} || exists m :: m in table && m !in todo - {k} && f(m) == j
    {
      if j == f(k) {
        assert k in table && k !in todo - {k};
      } else if j !in todo {
        var m :| m in table && m !in todo && f(m) == j;
        assert m !in todo - {k};
      }
    }
  }

  lemma NotBlocked<K(!new), V(!new)>(table: map<K, V>, f: K -> K, todo: set<K>, current: map<K, V>, k: K)
    requires CollisionFree(table, f) && Progress(table, f, todo, current) && k in todo
    ensures f(k) !in current
  {
  }

  /** Two successive rewrites are the rewrite by the composed key function. */
  lemma RelabelTwice<K(!new), V(!new)>(table: map<K, V>, f: K -> K, g: K -> K, h: K -> K)
    requires Injective(table, f) && Injective(Relabelled(table, f), g)
    requires forall k :: k in table ==> g(f(k)) == h(k)
    ensures Injective(table, h) && Relabelled(Relabelled(table, f), g) == Relabelled(table, h)
  {
    forall a, b | a in table && b in table && h(a) == h(b)
      ensures a == b
    {
      RelabelledRow(table, f, a);
      RelabelledRow(table, f, b);
    }
    var twice := Relabelled(Relabelled(table, f), g);
    forall k | k in table
      ensures h(k) in twice && twice[h(k)] == table[k]
    {
      RelabelledRow(table, f, k);
      RelabelledRow(Relabelled(table, f), g, f(k));
    }
    forall j | j in twice
      ensures exists k :: k in table && h(k) == j
    {
      var m := RelabelledOrigin(Relabelled(table, f), g, j);
      var k := RelabelledOrigin(table, f, m);
      assert h(k) == j;
    }
    RelabelledIs(table, h, twice);
  }

  lemma RelabelSame<K(!new), V(!new)>(table: map<K, V>, f: K -> K, g: K -> K)
    requires Injective(table, f) && forall k :: k in table ==> f(k) == g(k)
    ensures Injective(table, g) && Relabelled(table, f) == Relabelled(table, g)
  {
    forall j | j in Relabelled(table, f)
      ensures exists k :: k in table && g(k) == j
    {
      var k := RelabelledOrigin(table, f, j);
      assert g(k) == j;
    }
    RelabelledIs(table, g, Relabelled(table, f));
  }

  /**
   * One UPDATE of key columns, visiting the matched rows in an arbitrary order and failing at the
   * first row whose new key is taken. Whenever it succeeds no two rows got the same key and the
   * outcome is the relabelling; a collision-free rewrite succeeds in every order.
   */
  method UpdateKeys<K(!new, ==), V(!new)>(table: map<K, V>, f: K -> K) returns (r: Option<map<K, V>>)
    ensures r.Some? ==> Injective(table, f) && r.value == Relabelled(table, f)
    ensures CollisionFree(table, f) ==> r.Some?
  {
    var todo := set k | k in table && f(k) != k;
    var current := table;
    while todo != {}
      invariant Progress(table, f, todo, current)
      decreases todo
    {
      var k :| k in todo;
      assert todo - {k} < todo;
      if CollisionFree(table, f) {
        NotBlocked(table, f, todo, current, k);
      }
      if f(k) in current {
        return None;
      }
      ProgressStep(table, f, todo, current, k);
      current := (current - {k})[f(k) := current[k]];
      todo := todo - {k};
    }
    RelabelledIs(table, f, current);
    return Some(current);
  }
}
