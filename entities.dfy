/** `sort_dict_alphabetically` and `GeneralizedEntity`
    (MySqlAzureBackup.py, lines 55-80): the store-agnostic record. Its data is the
    items of a dict, stably sorted by the lower-cased key; two entities are equal,
    and hash alike, exactly when their ids and data are equal. */
module Entities {
  import opened Wrappers
  import opened Text
  import opened Values
  import opened Dicts

  // ---------------------------------------------------------------------------
  // sort_dict_alphabetically: Python's stable `sorted` keyed on `item[0].lower()`.

  function SortKey<V>(p: (string, V)): string {
    Lower(p.0)
  }

  /** Non-decreasing by lower-cased key. */
  predicate Sorted<V>(s: seq<(string, V)>) {
    forall i, j :: 0 <= i < j < |s| ==> LessEq(SortKey(s[i]), SortKey(s[j]))
  }

  /** No two items whose keys are equal once lower-cased. */
  predicate NoCaseCollision<V>(s: seq<(string, V)>) {
    forall i, j :: 0 <= i < j < |s| ==> SortKey(s[i]) != SortKey(s[j])
  }

  /** Puts `x` before the first item whose key is not below its own. */
  function Insert<V>(x: (string, V), s: seq<(string, V)>): seq<(string, V)> {
    if s == [] then [x]
    else if LessEq(SortKey(x), SortKey(s[0])) then [x] + s
    else [s[0]] + Insert(x, s[1..])
  }

  lemma {:induction false} InsertMultiset<V>(x: (string, V), s: seq<(string, V)>)
    ensures multiset(Insert(x, s)) == multiset(s) + multiset{x}
  {
    if s != [] && !LessEq(SortKey(x), SortKey(s[0])) {
      InsertMultiset(x, s[1..]);
      assert s == [s[0]] + s[1..];
    }
  }

  lemma {:induction false} InsertSorted<V>(x: (string, V), s: seq<(string, V)>)
    requires Sorted(s)
    ensures Sorted(Insert(x, s))
  {
    if s == [] {
    } else if LessEq(SortKey(x), SortKey(s[0])) {
      forall j | 0 < j < |s| ensures LessEq(SortKey(x), SortKey(s[j])) {
        LessEqTransitive(SortKey(x), SortKey(s[0]), SortKey(s[j]));
      }
      SortedCons(x, s);
    } else {
      LessEqTotal(SortKey(x), SortKey(s[0]));
      InsertSorted(x, s[1..]);
      InsertMultiset(x, s[1..]);
      var t := Insert(x, s[1..]);
      forall j | 0 <= j < |t| ensures LessEq(SortKey(s[0]), SortKey(t[j])) {
        assert t[j] in multiset(t);
        if t[j] != x {
          assert t[j] in s[1..];
        }
      }
      SortedCons(s[0], t);
    }
  }

  /** An item no greater than every item of a sorted sequence can go in front of it. */
  lemma SortedCons<V>(x: (string, V), s: seq<(string, V)>)
    requires Sorted(s)
    requires forall j :: 0 <= j < |s| ==> LessEq(SortKey(x), SortKey(s[j]))
    ensures Sorted([x] + s)
  {
    var r := [x] + s;
    forall i, j | 0 <= i < j < |r|
      ensures LessEq(SortKey(r[i]), SortKey(r[j]))
    {
      if i == 0 {
        assert r[j] == s[j - 1];
      } else {
        assert r[i] == s[i - 1] && r[j] == s[j - 1];
      }
    }
  }

  /** `sorted(d.items(), key=lambda item: item[0].lower())`. */
  function SortByLowerKey<V>(s: seq<(string, V)>): (r: seq<(string, V)>)
    ensures Sorted(r)
    ensures multiset(r) == multiset(s)
  {
    if s == [] then []
    else
      var t := SortByLowerKey(s[1..]);
      InsertSorted(s[0], t);
      InsertMultiset(s[0], t);
      assert s == [s[0]] + s[1..];
      Insert(s[0], t)
  }

  /** The items whose lower-cased key is `key`, in order. */
  function WithSortKey<V>(s: seq<(string, V)>, key: string): seq<(string, V)> {
    if s == [] then []
    else (if SortKey(s[0]) == key then [s[0]] else []) + WithSortKey(s[1..], key)
  }

  lemma {:induction false} InsertStable<V>(x: (string, V), s: seq<(string, V)>, key: string)
    ensures WithSortKey(Insert(x, s), key) == WithSortKey([x] + s, key)
  {
    if s == [] {
    } else if LessEq(SortKey(x), SortKey(s[0])) {
    } else {
      InsertStable(x, s[1..], key);
      LessEqReflexive(SortKey(x));
      assert ([s[0]] + Insert(x, s[1..]))[1..] == Insert(x, s[1..]);
      assert ([x] + s)[1..] == s;
      assert ([x] + s[1..])[1..] == s[1..];
    }
  }

  /** The sort is stable: items with equal lower-cased keys keep their input order. */
  lemma {:induction false} SortIsStable<V>(s: seq<(string, V)>, key: string)
    ensures WithSortKey(SortByLowerKey(s), key) == WithSortKey(s, key)
  {
    if s != [] {
      var t := SortByLowerKey(s[1..]);
      SortIsStable(s[1..], key);
      InsertStable(s[0], t, key);
      assert ([s[0]] + t)[1..] == t;
    }
  }

  /** Sorting what is already sorted changes nothing. */
  lemma {:induction false} SortSortedIsIdentity<V>(s: seq<(string, V)>)
    requires Sorted(s)
    ensures SortByLowerKey(s) == s
  {
    if s != [] {
      assert Sorted(s[1..]);
      SortSortedIsIdentity(s[1..]);
      assert s == [s[0]] + s[1..];
    }
  }

  lemma {:induction false} InsertNoCollision<V>(x: (string, V), s: seq<(string, V)>)
    requires NoCaseCollision(s)
    requires forall i :: 0 <= i < |s| ==> SortKey(s[i]) != SortKey(x)
    ensures NoCaseCollision(Insert(x, s))
  {
    if s == [] {
    } else if LessEq(SortKey(x), SortKey(s[0])) {
      NoCollisionCons(x, s);
    } else {
      InsertNoCollision(x, s[1..]);
      InsertMultiset(x, s[1..]);
      var t := Insert(x, s[1..]);
      forall j | 0 <= j < |t| ensures SortKey(t[j]) != SortKey(s[0]) {
        assert t[j] in multiset(t);
        if t[j] != x {
          assert t[j] in s[1..];
        }
      }
      NoCollisionCons(s[0], t);
    }
  }

  /** An item whose key collides with no item of `s` can go in front of it. */
  lemma NoCollisionCons<V>(x: (string, V), s: seq<(string, V)>)
    requires NoCaseCollision(s)
    requires forall j :: 0 <= j < |s| ==> SortKey(s[j]) != SortKey(x)
    ensures NoCaseCollision([x] + s)
  {
    var r := [x] + s;
    forall i, j | 0 <= i < j < |r|
      ensures SortKey(r[i]) != SortKey(r[j])
    {
      if i == 0 {
        assert r[j] == s[j - 1];
      } else {
        assert r[i] == s[i - 1] && r[j] == s[j - 1];
      }
    }
  }

  lemma {:induction false} SortNoCollision<V>(s: seq<(string, V)>)
    requires NoCaseCollision(s)
    ensures NoCaseCollision(SortByLowerKey(s))
  {
    if s != [] {
      var t := SortByLowerKey(s[1..]);
      SortNoCollision(s[1..]);
      forall i | 0 <= i < |t| ensures SortKey(t[i]) != SortKey(s[0]) {
        assert t[i] in multiset(s[1..]);
      }
      InsertNoCollision(s[0], t);
    }
  }

  ghost predicate SameKeys<V, W>(a: seq<(string, V)>, b: seq<(string, W)>) {
    forall k :: k in Keys(a) <==> k in Keys(b)
  }

  lemma HeadKeysMatch<V, W>(a: seq<(string, V)>, b: seq<(string, W)>)
    requires Sorted(a) && Sorted(b) && NoCaseCollision(a)
    requires SameKeys(a, b) && a != []
    ensures b != [] && a[0].0 == b[0].0
  {
    assert a[0].0 in Keys(a);
    assert b != [] && b[0].0 in Keys(b);
    var i :| 0 <= i < |a| && a[i].0 == b[0].0;
    var j :| 0 <= j < |b| && b[j].0 == a[0].0;
    if i > 0 {
      if j > 0 {
        LessEqAntisymmetric(SortKey(a[0]), SortKey(a[i]));
      }
      assert false;
    }
  }

  lemma TailKeysMatch<V, W>(a: seq<(string, V)>, b: seq<(string, W)>)
    requires NoCaseCollision(a) && NoCaseCollision(b)
    requires SameKeys(a, b) && a != [] && b != [] && a[0].0 == b[0].0
    ensures SameKeys(a[1..], b[1..])
  {
    forall k
      ensures k in Keys(a[1..]) <==> k in Keys(b[1..])
    {
      if k in Keys(a[1..]) {
        TailKeyMatches(a, b, k);
      }
      if k in Keys(b[1..]) {
        TailKeyMatches(b, a, k);
      }
    }
  }

  /** A key of `a`'s tail is a key of `b`'s tail when both have the same keys and head. */
  lemma TailKeyMatches<V, W>(a: seq<(string, V)>, b: seq<(string, W)>, k: string)
    requires NoCaseCollision(a) && SameKeys(a, b)
    requires a != [] && b != [] && a[0].0 == b[0].0 && k in Keys(a[1..])
    ensures k in Keys(b[1..])
  {
    var m :| 0 <= m < |a| - 1 && a[1..][m].0 == k;
    assert a[m + 1].0 == k && SortKey(a[m + 1]) != SortKey(a[0]);
    assert k in Keys(a);
    var n :| 0 <= n < |b| && b[n].0 == k;
    assert b[1..][n - 1].0 == k;
  }

  /** Two sorted sequences without case collisions and with the same keys list those
      keys in the same order. */
  lemma {:induction false} SortedKeysUnique<V, W>(a: seq<(string, V)>, b: seq<(string, W)>)
    requires Sorted(a) && Sorted(b) && NoCaseCollision(a) && NoCaseCollision(b)
    requires SameKeys(a, b)
    ensures Keys(a) == Keys(b)
  {
    if a == [] {
      if b != [] {
        HeadKeysMatch(b, a);
        assert false;
      }
    } else {
      HeadKeysMatch(a, b);
      TailKeysMatch(a, b);
      SortedKeysUnique(a[1..], b[1..]);
      assert Keys(a) == [a[0].0] + Keys(a[1..]);
      assert Keys(b) == [b[0].0] + Keys(b[1..]);
    }
  }

  lemma SameItemsSameKeys<V>(r1: seq<(string, V)>, r2: seq<(string, V)>)
    requires multiset(r1) == multiset(r2)
    ensures SameKeys(r1, r2)
  {
    forall k | k in Keys(r1) ensures k in Keys(r2) {
      var i :| 0 <= i < |r1| && r1[i].0 == k;
      assert r1[i] in multiset(r2);
      var j :| 0 <= j < |r2| && r2[j] == r1[i];
    }
    forall k | k in Keys(r2) ensures k in Keys(r1) {
      var i :| 0 <= i < |r2| && r2[i].0 == k;
      assert r2[i] in multiset(r1);
      var j :| 0 <= j < |r1| && r1[j] == r2[i];
    }
  }

  lemma SameKeysSameItems<V>(r1: seq<(string, V)>, r2: seq<(string, V)>)
    requires multiset(r1) == multiset(r2) && Keys(r1) == Keys(r2) && NoCaseCollision(r2)
    ensures r1 == r2
  {
    forall i | 0 <= i < |r1| ensures r1[i] == r2[i] {
      assert r1[i] in multiset(r2);
      var j :| 0 <= j < |r2| && r2[j] == r1[i];
      assert Keys(r2)[i] == Keys(r1)[i] == r2[j].0;
      assert SortKey(r2[i]) == SortKey(r2[j]);
    }
  }

  /** The sort result depends only on which items there are, not on their input order,
      when no two keys are equal once lower-cased. */
  lemma SortOrderInvariant<V>(d1: seq<(string, V)>, d2: seq<(string, V)>)
    requires multiset(d1) == multiset(d2)
    requires NoCaseCollision(d1) && NoCaseCollision(d2)
    ensures SortByLowerKey(d1) == SortByLowerKey(d2)
  {
    var r1, r2 := SortByLowerKey(d1), SortByLowerKey(d2);
    SortNoCollision(d1);
    SortNoCollision(d2);
    SameItemsSameKeys(r1, r2);
    SortedKeysUnique(r1, r2);
    SameKeysSameItems(r1, r2);
  }

  // ---------------------------------------------------------------------------
  // GeneralizedEntity

  /** `tableName` is whatever value the caller passed: a `str` on every path of the
      source, but a column or an Azure property can put another value there. */
  datatype Entity = Entity(tableName: Value, id: int, data: seq<(string, Value)>)

  /** `GeneralizedEntity(tableName, id, data)`: `int(id)` may raise; the items of `data`
      are stored as a tuple sorted by lower-cased key. */
  function MakeEntity(tableName: Value, id: Value, data: Dict<Value>, fp: FloatOps): (r: Result<Entity, Error>)
    ensures r.Ok? <==> IntOf(id, fp).Some?
    ensures r.Err? ==> r.error == CoercionFailed
    ensures r.Ok? ==> r.value.tableName == tableName && r.value.id == IntOf(id, fp).value
    ensures r.Ok? ==> Sorted(r.value.data) && multiset(r.value.data) == multiset(data)
  {
    match IntOf(id, fp)
    case None => Err(CoercionFailed)
    case Some(n) => Ok(Entity(tableName, n, SortByLowerKey(data)))
  }

  /** `__eq__`: ids and data tuples equal; the table name plays no part. */
  predicate Equal(a: Entity, b: Entity) {
    a.id == b.id && a.data == b.data
  }

  /** What `__hash__` hashes: the tuple `(id, data)`. */
  function HashKey(e: Entity): (int, seq<(string, Value)>) {
    (e.id, e.data)
  }

  /** Equality is equality of the hashed tuple, so equal entities hash alike under any
      hash function, and renaming the table changes neither. */
  lemma EqualIsHashKeyEquality(a: Entity, b: Entity, hash: ((int, seq<(string, Value)>)) -> int)
    ensures Equal(a, b) <==> HashKey(a) == HashKey(b)
    ensures Equal(a, b) ==> hash(HashKey(a)) == hash(HashKey(b))
    ensures forall t :: Equal(a, a.(tableName := t)) && HashKey(a.(tableName := t)) == HashKey(a)
  {
  }

  /** Two dicts holding the same items in different orders give identical data, hence equal
      entities, when no two keys are equal once lower-cased. */
  lemma MakeEntityOrderInvariant(t1: Value, t2: Value, id: Value, d1: Dict<Value>, d2: Dict<Value>, fp: FloatOps)
    requires multiset(d1) == multiset(d2)
    requires NoCaseCollision(d1) && NoCaseCollision(d2)
    ensures MakeEntity(t1, id, d1, fp).Ok? == MakeEntity(t2, id, d2, fp).Ok?
    ensures MakeEntity(t1, id, d1, fp).Ok? ==>
      && MakeEntity(t1, id, d1, fp).value.data == MakeEntity(t2, id, d2, fp).value.data
      && Equal(MakeEntity(t1, id, d1, fp).value, MakeEntity(t2, id, d2, fp).value)
  {
    SortOrderInvariant(d1, d2);
  }
}
