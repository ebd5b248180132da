/**
 * A database table: the sequence of its documents in creation order (the order
 * a full-table `collect()` returns them), each document carrying its id.
 */
module Tables {
  import opened Wrappers

  datatype Doc<T> = Doc(id: nat, val: T)

  type Table<T> = seq<Doc<T>>

  /** The set of ids stored in a table. */
  function Ids<T>(t: Table<T>): set<nat> {
    set i | 0 <= i < |t| :: t[i].id
  }

  /** No two documents share an id: what the platform guarantees of every table. */
  ghost predicate UniqueIds<T>(t: Table<T>) {
    forall i, j :: 0 <= i < j < |t| ==> t[i].id != t[j].id
  }

  /** Every id in the table is below `n` (the next id the allocator hands out). */
  ghost predicate IdsBelow<T>(t: Table<T>, n: nat) {
    forall i :: 0 <= i < |t| ==> t[i].id < n
  }

  /** Position of the first document with id `id`, or -1 (`findIndex` on `_id`). */
  function IndexOf<T>(t: Table<T>, id: nat): (r: int)
    ensures -1 <= r < |t|
    ensures r >= 0 ==> t[r].id == id && forall j :: 0 <= j < r ==> t[j].id != id
    ensures r == -1 <==> id !in Ids(t)
  {
    if t == [] then -1
    else if t[0].id == id then 0
    else
      var k := IndexOf(t[1..], id);
      assert Ids(t) == {t[0].id} + Ids(t[1..]) by {
        forall x | x in Ids(t) ensures x in {t[0].id} + Ids(t[1..]) {
          var i :| 0 <= i < |t| && t[i].id == x;
          if i > 0 { assert t[1..][i - 1].id == x; }
        }
      }
      if k == -1 then -1 else k + 1
  }

  /** `ctx.db.get(id)`: the document's fields, or `None` for an unknown id. */
  function Get<T>(t: Table<T>, id: nat): (r: Option<T>)
    ensures r.None? <==> id !in Ids(t)
    ensures r.Some? ==> exists i :: 0 <= i < |t| && t[i] == Doc(id, r.value)
  {
    var i := IndexOf(t, id);
    if i < 0 then None else Some(t[i].val)
  }

  /** In a table with unique ids, looking up the id stored at a position finds that position. */
  lemma IndexOfAt<T>(t: Table<T>, i: nat)
    requires UniqueIds(t) && i < |t|
    ensures IndexOf(t, t[i].id) == i && Get(t, t[i].id) == Some(t[i].val)
  {
    var k := IndexOf(t, t[i].id);
    assert k >= 0 by { assert t[i].id in Ids(t); }
    assert !(k < i) && !(i < k);
  }

  /** The document at position `k` is the first with its id exactly when no earlier document carries that id. */
  lemma FirstWithId<T>(t: Table<T>, k: nat)
    requires k < |t|
    ensures IndexOf(t, t[k].id) == k <==> t[k].id !in Ids(t[..k])
  {
    var id := t[k].id;
    assert id in Ids(t);
    var r := IndexOf(t, id);
    assert 0 <= r <= k;
    if id in Ids(t[..k]) {
      var j :| 0 <= j < k && t[..k][j].id == id;
      assert t[j].id == id;
    } else {
      forall j | 0 <= j < k ensures t[j].id != id {
        assert t[..k][j] == t[j];
      }
    }
  }

  /** `ctx.db.patch`: the table with the document at position `i` given new fields. */
  function Replace<T>(t: Table<T>, i: nat, v: T): (r: Table<T>)
    requires i < |t|
    ensures |r| == |t| && r[i] == Doc(t[i].id, v)
    ensures forall j :: 0 <= j < |t| && j != i ==> r[j] == t[j]
    ensures Ids(r) == Ids(t)
  {
    var r := t[i := Doc(t[i].id, v)];
    assert Ids(r) == Ids(t) by {
      forall x | x in Ids(t) ensures x in Ids(r) {
        var j :| 0 <= j < |t| && t[j].id == x;
        assert r[j].id == x;
      }
    }
    r
  }

  /** `ctx.db.delete`: the table without the document at position `i`. */
  function Remove<T>(t: Table<T>, i: nat): (r: Table<T>)
    requires i < |t|
    ensures |r| == |t| - 1
    ensures forall j :: 0 <= j < i ==> r[j] == t[j]
    ensures forall j :: i <= j < |r| ==> r[j] == t[j + 1]
  {
    t[..i] + t[i + 1..]
  }

  lemma ReplaceKeepsInvariant<T>(t: Table<T>, i: nat, v: T, n: nat)
    requires i < |t| && UniqueIds(t) && IdsBelow(t, n)
    ensures UniqueIds(Replace(t, i, v)) && IdsBelow(Replace(t, i, v), n)
  {
  }

  /** Reading a patched table: the patched id gives the new fields, every other id what it gave before. */
  lemma GetReplace<T>(t: Table<T>, i: nat, v: T, x: nat)
    requires i < |t| && UniqueIds(t)
    ensures UniqueIds(Replace(t, i, v))
    ensures Get(Replace(t, i, v), x) == if x == t[i].id then Some(v) else Get(t, x)
  {
    var r := Replace(t, i, v);
    assert forall j :: 0 <= j < |t| ==> r[j].id == t[j].id;
    if x == t[i].id {
      IndexOfAt(r, i);
    } else if x in Ids(t) {
      var j := IndexOf(t, x);
      IndexOfAt(t, j);
      IndexOfAt(r, j);
    }
  }

  lemma InsertKeepsInvariant<T>(t: Table<T>, v: T, n: nat)
    requires UniqueIds(t) && IdsBelow(t, n)
    ensures UniqueIds(t + [Doc(n, v)]) && IdsBelow(t + [Doc(n, v)], n + 1)
  {
  }

  lemma RemoveKeepsInvariant<T>(t: Table<T>, i: nat, n: nat)
    requires i < |t| && UniqueIds(t) && IdsBelow(t, n)
    ensures UniqueIds(Remove(t, i)) && IdsBelow(Remove(t, i), n)
  {
    var r := Remove(t, i);
    forall a, b | 0 <= a < b < |r| ensures r[a].id != r[b].id {
      var a' := if a < i then a else a + 1;
      var b' := if b < i then b else b + 1;
      assert r[a] == t[a'] && r[b] == t[b'] && a' < b';
    }
  }

  lemma IdsAppend<T>(a: Table<T>, b: Table<T>)
    ensures Ids(a + b) == Ids(a) + Ids(b)
  {
    forall x | x in Ids(a + b) ensures x in Ids(a) + Ids(b) {
      var i :| 0 <= i < |a + b| && (a + b)[i].id == x;
      if i >= |a| { assert b[i - |a|].id == x; }
    }
    forall x | x in Ids(a) ensures x in Ids(a + b) {
      var i :| 0 <= i < |a| && a[i].id == x;
      assert (a + b)[i].id == x;
    }
    forall x | x in Ids(b) ensures x in Ids(a + b) {
      var i :| 0 <= i < |b| && b[i].id == x;
      assert (a + b)[|a| + i].id == x;
    }
  }

  /** `Array.prototype.filter`: the elements satisfying `p`, in order. */
  function Filter<T(!new)>(s: seq<T>, p: T -> bool): (r: seq<T>)
    ensures |r| <= |s|
    ensures forall x :: x in r <==> x in s && p(x)
  {
    if s == [] then []
    else
      var x := s[|s| - 1];
      Filter(s[..|s| - 1], p) + (if p(x) then [x] else [])
  }

  lemma {:induction false} FilterAppend<T(!new)>(a: seq<T>, b: seq<T>, p: T -> bool)
    ensures Filter(a + b, p) == Filter(a, p) + Filter(b, p)
  {
    if b == [] {
      assert a + b == a;
    } else {
      assert (a + b)[..|a + b| - 1] == a + b[..|b| - 1];
      FilterAppend(a, b[..|b| - 1], p);
    }
  }

  /** Filtering with a predicate every element satisfies keeps the sequence. */
  lemma {:induction false} FilterKeepsAll<T(!new)>(s: seq<T>, p: T -> bool)
    requires forall i :: 0 <= i < |s| ==> p(s[i])
    ensures Filter(s, p) == s
  {
    if s != [] {
      var init := s[..|s| - 1];
      assert forall i :: 0 <= i < |init| ==> init[i] == s[i];
      FilterKeepsAll(init, p);
      assert s == init + [s[|s| - 1]];
    }
  }

  lemma FilterSingleton<T(!new)>(x: T, p: T -> bool)
    ensures Filter([x], p) == if p(x) then [x] else []
  {
    assert [x][..0] == [];
  }

  /** Filtering a sequence extended by one element. */
  lemma FilterSnoc<T(!new)>(u: seq<T>, x: T, p: T -> bool)
    ensures Filter(u + [x], p) == Filter(u, p) + (if p(x) then [x] else [])
  {
    var v := u + [x];
    assert v[..|v| - 1] == u && v[|v| - 1] == x;
  }

  /** Deleting position `i` before the last element, then putting the last element back. */
  lemma RemoveBeforeLast<T>(t: seq<T>, i: nat)
    requires i < |t| - 1
    ensures t[..i] + t[i + 1..] == (t[..|t| - 1][..i] + t[..|t| - 1][i + 1..]) + [t[|t| - 1]]
  {
  }

  /** Deleting an element the filter drops does not change the filtered sequence. */
  lemma {:induction false} FilterRemove<T(!new)>(t: seq<T>, i: nat, p: T -> bool)
    requires i < |t| && !p(t[i])
    ensures Filter(t[..i] + t[i + 1..], p) == Filter(t, p)
  {
    var init, last := t[..|t| - 1], t[|t| - 1];
    assert t == init + [last];
    FilterSnoc(init, last, p);
    if i == |t| - 1 {
      assert t[..i] + t[i + 1..] == init;
    } else {
      FilterRemove(init, i, p);
      RemoveBeforeLast(t, i);
      FilterSnoc(init[..i] + init[i + 1..], last, p);
    }
  }
}
