/** Python's `dict` with string keys, as the core uses it: an ordered sequence of
    (key, value) items in insertion order. Assigning to an existing key keeps the key's
    place; a new key goes last. */
module Dicts {
  import opened Wrappers

  type Dict<V> = seq<(string, V)>

  function Keys<V>(d: Dict<V>): (ks: seq<string>)
    ensures |ks| == |d|
    ensures forall i :: 0 <= i < |d| ==> ks[i] == d[i].0
  {
    seq(|d|, i requires 0 <= i < |d| => d[i].0)
  }

  function Values<V>(d: Dict<V>): (vs: seq<V>)
    ensures |vs| == |d|
    ensures forall i :: 0 <= i < |d| ==> vs[i] == d[i].1
  {
    seq(|d|, i requires 0 <= i < |d| => d[i].1)
  }

  /** What every real dict satisfies: no key twice. */
  predicate UniqueKeys<V>(d: Dict<V>) {
    forall i, j :: 0 <= i < j < |d| ==> d[i].0 != d[j].0
  }

  lemma UniqueCons<V>(x: (string, V), t: Dict<V>)
    requires UniqueKeys(t) && x.0 !in Keys(t)
    ensures UniqueKeys([x] + t)
  {
    var r := [x] + t;
    forall i, j | 0 <= i < j < |r|
      ensures r[i].0 != r[j].0
    {
      if i == 0 {
        assert r[j] == t[j - 1];
      } else {
        assert r[i] == t[i - 1] && r[j] == t[j - 1];
      }
    }
  }

  /** The tail of a dict is a dict without the head's key. */
  lemma UniqueTail<V>(d: Dict<V>)
    requires UniqueKeys(d) && d != []
    ensures UniqueKeys(d[1..]) && d[0].0 !in Keys(d[1..])
  {
    forall j | 0 <= j < |d| - 1 ensures Keys(d[1..])[j] != d[0].0 {
      assert d[1..][j] == d[j + 1];
    }
  }

  /** All but the last item of a dict is a dict without the last item's key. */
  lemma UniqueInit<V>(d: Dict<V>)
    requires UniqueKeys(d) && d != []
    ensures UniqueKeys(d[..|d| - 1]) && d[|d| - 1].0 !in Keys(d[..|d| - 1])
  {
    var init := d[..|d| - 1];
    forall j | 0 <= j < |init| ensures Keys(init)[j] != d[|d| - 1].0 {
      assert init[j] == d[j];
    }
  }

  /** `d.get(k)`: the value of the first item with key `k`. */
  function Get<V>(d: Dict<V>, k: string): (r: Option<V>)
    ensures r.Some? <==> k in Keys(d)
    ensures r.Some? ==> (k, r.value) in d
  {
    if d == [] then None
    else if d[0].0 == k then Some(d[0].1)
    else
      assert Keys(d) == [d[0].0] + Keys(d[1..]);
      Get(d[1..], k)
  }

  lemma {:induction false} GetUnique<V>(d: Dict<V>, k: string, v: V)
    requires UniqueKeys(d) && (k, v) in d
    ensures Get(d, k) == Some(v)
  {
    if d[0] != (k, v) {
      GetUnique(d[1..], k, v);
    }
  }

  /** A dict seen as its first item followed by the rest. */
  lemma ConsParts<V>(x: (string, V), t: Dict<V>)
    ensures ([x] + t)[0] == x && ([x] + t)[1..] == t
    ensures Keys([x] + t) == [x.0] + Keys(t)
  {
    KeysCons(x, t);
  }

  lemma KeysCons<V>(x: (string, V), t: Dict<V>)
    ensures Keys([x] + t) == [x.0] + Keys(t)
  {
    var a, b := Keys([x] + t), [x.0] + Keys(t);
    forall i | 0 <= i < |a| ensures a[i] == b[i] {
      if i > 0 {
        assert ([x] + t)[i] == t[i - 1];
      }
    }
  }

  lemma ValuesCons<V>(x: (string, V), t: Dict<V>)
    ensures Values([x] + t) == [x.1] + Values(t)
  {
    var a, b := Values([x] + t), [x.1] + Values(t);
    forall i | 0 <= i < |a| ensures a[i] == b[i] {
      if i > 0 {
        assert ([x] + t)[i] == t[i - 1];
      }
    }
  }

  /** `d[k] = v`: an existing key keeps its place, a new key goes last. */
  function Set<V>(d: Dict<V>, k: string, v: V): Dict<V> {
    if d == [] then [(k, v)]
    else if d[0].0 == k then [(k, v)] + d[1..]
    else [d[0]] + Set(d[1..], k, v)
  }

  /** Assignment adds the key at the end when it is new, and leaves the keys as they
      were otherwise. */
  lemma {:induction false} SetKeys<V>(d: Dict<V>, k: string, v: V)
    ensures Keys(Set(d, k, v)) == if k in Keys(d) then Keys(d) else Keys(d) + [k]
  {
    if d != [] {
      var t := d[1..];
      ConsParts(d[0], t);
      assert d == [d[0]] + t;
      if d[0].0 == k {
        ConsParts((k, v), t);
      } else {
        assert Set(d, k, v) == [d[0]] + Set(t, k, v);
        assert k in Keys(d) <==> k in Keys(t);
        SetKeys(t, k, v);
        ConsParts(d[0], Set(t, k, v));
      }
    }
  }

  /** Assignment keeps the keys distinct. */
  lemma {:induction false} SetUnique<V>(d: Dict<V>, k: string, v: V)
    requires UniqueKeys(d)
    ensures UniqueKeys(Set(d, k, v))
  {
    if d != [] {
      var t := d[1..];
      ConsParts(d[0], t);
      assert d == [d[0]] + t;
      UniqueTail(d);
      if d[0].0 == k {
        UniqueCons((k, v), t);
      } else {
        SetUnique(t, k, v);
        SetKeys(t, k, v);
        UniqueCons(d[0], Set(t, k, v));
      }
    }
  }

  /** After `d[k] = v`, `k` reads `v` and every other key reads as before. */
  lemma {:induction false} SetGet<V>(d: Dict<V>, k: string, v: V, k': string)
    ensures Get(Set(d, k, v), k') == if k' == k then Some(v) else Get(d, k')
  {
    if d != [] {
      var t := d[1..];
      ConsParts(d[0], t);
      if d[0].0 == k {
        ConsParts((k, v), t);
      } else {
        SetGet(t, k, v, k');
        ConsParts(d[0], Set(t, k, v));
      }
    }
  }

  /** `dict(pairs)`, and a dict comprehension: the pairs are assigned in order. */
  function FromPairs<V>(ps: seq<(string, V)>): (r: Dict<V>)
    ensures UniqueKeys(r)
    ensures forall k :: k in Keys(r) <==> k in Keys(ps)
  {
    if ps == [] then []
    else
      var init, last := ps[..|ps| - 1], ps[|ps| - 1];
      assert Keys(ps) == Keys(init) + [last.0];
      SetKeys(FromPairs(init), last.0, last.1);
      SetUnique(FromPairs(init), last.0, last.1);
      Set(FromPairs(init), last.0, last.1)
  }

  /** Building a dict from pairs whose keys are already distinct changes nothing. */
  lemma {:induction false} FromPairsOfUnique<V>(ps: seq<(string, V)>)
    requires UniqueKeys(ps)
    ensures FromPairs(ps) == ps
  {
    if ps != [] {
      var init := ps[..|ps| - 1];
      var last := ps[|ps| - 1];
      assert UniqueKeys(init);
      FromPairsOfUnique(init);
      assert last.0 !in Keys(init);
      SetNewKey(init, last.0, last.1);
      assert init + [last] == ps;
    }
  }

  lemma {:induction false} SetNewKey<V>(d: Dict<V>, k: string, v: V)
    requires k !in Keys(d)
    ensures Set(d, k, v) == d + [(k, v)]
  {
    if d != [] {
      var t := d[1..];
      ConsParts(d[0], t);
      assert d == [d[0]] + t;
      SetNewKey(t, k, v);
      assert [d[0]] + (t + [(k, v)]) == d + [(k, v)];
    }
  }

  /** Assigning keys to a dict never moves the keys already there. */
  lemma {:induction false} SetKeepsKeys<V>(d: Dict<V>, k: string, v: V)
    ensures |Set(d, k, v)| >= |d|
    ensures Keys(Set(d, k, v))[..|d|] == Keys(d)
  {
    SetKeys(d, k, v);
  }

  /** The keys of the first `m` pairs keep their places when the rest are assigned. */
  lemma {:induction false} FromPairsKeepsPrefix<V>(ps: seq<(string, V)>, m: nat)
    requires m <= |ps|
    ensures |FromPairs(ps[..m])| <= |FromPairs(ps)|
    ensures Keys(FromPairs(ps[..m])) == Keys(FromPairs(ps))[..|FromPairs(ps[..m])|]
  {
    if m < |ps| {
      var init := ps[..|ps| - 1];
      assert init[..m] == ps[..m];
      FromPairsKeepsPrefix(init, m);
      SetKeepsKeys(FromPairs(init), ps[|ps| - 1].0, ps[|ps| - 1].1);
    } else {
      assert ps[..m] == ps;
    }
  }

  /** `del d[k]` where present: every item with key `k` is dropped, the rest keep their order. */
  function Remove<V>(d: Dict<V>, k: string): (r: Dict<V>)
    ensures |r| <= |d|
  {
    if d == [] then []
    else if d[0].0 == k then Remove(d[1..], k)
    else [d[0]] + Remove(d[1..], k)
  }

  /** What `Remove` keeps: exactly the items whose key is not `k`. */
  lemma {:induction false} RemoveMembers<V>(d: Dict<V>, k: string)
    ensures forall x :: x in Remove(d, k) ==> x in d && x.0 != k
    ensures forall i :: 0 <= i < |d| && d[i].0 != k ==> d[i] in Remove(d, k)
  {
    if d != [] {
      RemoveMembers(d[1..], k);
      assert forall i :: 1 <= i < |d| ==> d[i] == d[1..][i - 1];
    }
  }

  /** After `Remove` the key is gone, and nothing else is. */
  lemma {:induction false} RemoveKeys<V>(d: Dict<V>, k: string)
    ensures k !in Keys(Remove(d, k))
    ensures k !in Keys(d) ==> Remove(d, k) == d
  {
    if d != [] {
      var t := d[1..];
      RemoveKeys(t, k);
      ConsParts(d[0], t);
      assert d == [d[0]] + t;
      if d[0].0 != k {
        ConsParts(d[0], Remove(t, k));
      }
    }
  }

  lemma {:induction false} RemoveUnique<V>(d: Dict<V>, k: string)
    requires UniqueKeys(d)
    ensures UniqueKeys(Remove(d, k))
  {
    if d != [] {
      assert UniqueKeys(d[1..]);
      RemoveUnique(d[1..], k);
      if d[0].0 != k {
        RemoveMembers(d[1..], k);
        var t := Remove(d[1..], k);
        assert Keys(d) == [d[0].0] + Keys(d[1..]);
        assert d[0].0 !in Keys(d[1..]);
        forall i | 0 <= i < |t| ensures t[i].0 != d[0].0 {
          assert t[i] in d[1..];
        }
        UniqueCons(d[0], t);
      }
    }
  }

  lemma {:induction false} RemoveGet<V>(d: Dict<V>, k: string, k': string)
    requires k' != k
    ensures Get(Remove(d, k), k') == Get(d, k')
  {
    if d != [] {
      RemoveGet(d[1..], k, k');
    }
  }

  /** Removing one key leaves every other key's lookup as it was. */
  lemma RemoveKeepsOthers<V>(d: Dict<V>, k: string)
    ensures forall k' :: k' != k ==> Get(Remove(d, k), k') == Get(d, k')
  {
    forall k' | k' != k ensures Get(Remove(d, k), k') == Get(d, k') {
      RemoveGet(d, k, k');
    }
  }

  /** A key present in a dict but not at its head is present in its tail. */
  lemma KeyInTail<V>(d: Dict<V>, k: string)
    requires k in Keys(d) && d != [] && d[0].0 != k
    ensures k in Keys(d[1..])
  {
    var i :| 0 <= i < |d| && Keys(d)[i] == k;
    assert Keys(d[1..])[i - 1] == k;
  }

  /** Removing a present key from a dict takes exactly its one item out of the multiset. */
  lemma {:induction false} RemoveMultiset<V>(d: Dict<V>, k: string)
    requires UniqueKeys(d) && k in Keys(d)
    ensures multiset(d) == multiset(Remove(d, k)) + multiset{(k, Get(d, k).value)}
  {
    var t := d[1..];
    assert d == [d[0]] + t;
    UniqueTail(d);
    if d[0].0 == k {
      RemoveKeys(t, k);
    } else {
      KeyInTail(d, k);
      RemoveMultiset(t, k);
    }
  }

  /** `d.pop(k)`: the value and what remains; `None` where Python raises `KeyError`. */
  function Pop<V>(d: Dict<V>, k: string): (r: Option<(V, Dict<V>)>)
    ensures r.Some? <==> k in Keys(d)
    ensures r.Some? ==> Some(r.value.0) == Get(d, k)
    ensures r.Some? ==> k !in Keys(r.value.1)
    ensures r.Some? ==> forall k' :: k' != k ==> Get(r.value.1, k') == Get(d, k')
    ensures r.Some? && UniqueKeys(d) ==> multiset(d) == multiset(r.value.1) + multiset{(k, r.value.0)}
  {
    match Get(d, k)
    case None => None
    case Some(v) =>
      RemoveKeys(d, k);
      RemoveKeepsOthers(d, k);
      if UniqueKeys(d) then RemoveMultiset(d, k); Some((v, Remove(d, k)))
      else Some((v, Remove(d, k)))
  }

  /** `zip(a, b)`: pairs up to the shorter of the two. */
  function Zip<A, B>(a: seq<A>, b: seq<B>): (r: seq<(A, B)>)
    ensures |r| == if |a| <= |b| then |a| else |b|
    ensures forall i :: 0 <= i < |r| ==> r[i] == (a[i], b[i])
  {
    if a == [] || b == [] then [] else [(a[0], b[0])] + Zip(a[1..], b[1..])
  }
}
