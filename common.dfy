/**
  Small building blocks shared by the menu planner model: an optional value
  (a nullable table cell), the enumeration of the positions of a sequence
  that satisfy a predicate (what a filter keeps, and in which order), and an
  insertion-ordered dictionary with the update semantics of a Python dict.
 */
module Common {

  datatype Option<T> = None | Some(value: T)

  /** The indices of `s` whose element satisfies `keep`, in increasing order.
      The three postconditions pin the result down uniquely: every index it
      lists is a kept one, it is strictly increasing, and it misses none. */
  function Positions<T>(s: seq<T>, keep: T -> bool): (ps: seq<nat>)
    ensures forall j :: 0 <= j < |ps| ==> ps[j] < |s| && keep(s[ps[j]])
    ensures forall j, k :: 0 <= j < k < |ps| ==> ps[j] < ps[k]
    ensures forall i :: 0 <= i < |s| && keep(s[i]) ==> i in ps
  {
    if |s| == 0 then []
    else
      var ps := Positions(s[..|s| - 1], keep);
      if keep(s[|s| - 1]) then ps + [|s| - 1] else ps
  }

  /** Appending one element to `s` extends its enumeration by at most that
      element's own index. */
  lemma PositionsSnoc<T>(s: seq<T>, x: T, keep: T -> bool)
    ensures Positions(s + [x], keep)
         == Positions(s, keep) + (if keep(x) then [|s|] else [])
  {
    assert (s + [x])[..|s|] == s;
  }

  /** No position is listed exactly when no element is kept. */
  lemma PositionsEmpty<T>(s: seq<T>, keep: T -> bool)
    ensures Positions(s, keep) == [] <==> forall i :: 0 <= i < |s| ==> !keep(s[i])
  {
    var ps := Positions(s, keep);
    if ps != [] {
      assert keep(s[ps[0]]);
    }
  }

  /** Two sequences whose elements agree position by position on the two
      predicates have the same kept positions. */
  lemma {:induction false} PositionsCorrespond<T, U>(s: seq<T>, p: T -> bool, t: seq<U>, q: U -> bool)
    requires |s| == |t|
    requires forall i :: 0 <= i < |s| ==> p(s[i]) == q(t[i])
    ensures Positions(s, p) == Positions(t, q)
  {
    if |s| > 0 {
      PositionsCorrespond(s[..|s| - 1], p, t[..|t| - 1], q);
    }
  }

  /** An entry of an insertion-ordered dictionary. */
  datatype Item<K, V> = Item(key: K, value: V)

  function KeysOf<K(==,!new), V>(d: seq<Item<K, V>>): (ks: seq<K>)
    ensures |ks| == |d| && forall i :: 0 <= i < |d| ==> ks[i] == d[i].key
  {
    if |d| == 0 then [] else [d[0].key] + KeysOf(d[1..])
  }

  /** Dictionary lookup: the value stored under `k`, if any. */
  function Get<K(==,!new), V>(d: seq<Item<K, V>>, k: K): (r: Option<V>)
    ensures r.None? <==> k !in KeysOf(d)
    ensures r.Some? ==> Item(k, r.value) in d
  {
    if |d| == 0 then None
    else if d[0].key == k then Some(d[0].value)
    else Get(d[1..], k)
  }

  /** `d[k] = v` on a Python dict: a key already present keeps its place and
      gets the new value; a new key is appended at the end. */
  function Put<K(==,!new), V>(d: seq<Item<K, V>>, k: K, v: V): (r: seq<Item<K, V>>)
    ensures k !in KeysOf(d) ==> r == d + [Item(k, v)]
    ensures |r| == if k in KeysOf(d) then |d| else |d| + 1
  {
    if |d| == 0 then [Item(k, v)]
    else if d[0].key == k then [Item(k, v)] + d[1..]
    else
      var rest := Put(d[1..], k, v);
      assert KeysOf(d) == [d[0].key] + KeysOf(d[1..]);
      [d[0]] + rest
  }

  /** After `d[k] = v`, looking up `k` gives `v` and every other key gives
      what it gave before. */
  lemma {:induction false} PutGet<K(!new), V>(d: seq<Item<K, V>>, k: K, v: V, k': K)
    ensures Get(Put(d, k, v), k) == Some(v)
    ensures k' != k ==> Get(Put(d, k, v), k') == Get(d, k')
  {
    if |d| > 0 && d[0].key != k {
      PutGet(d[1..], k, v, k');
      assert Put(d, k, v)[1..] == Put(d[1..], k, v);
    }
  }

  /** Assigning to a key already present leaves the keys, and so the
      insertion order that iteration walks, unchanged. */
  lemma {:induction false} PutKeepsKeys<K(!new), V>(d: seq<Item<K, V>>, k: K, v: V)
    requires k in KeysOf(d)
    ensures KeysOf(Put(d, k, v)) == KeysOf(d)
  {
    if d[0].key != k {
      assert KeysOf(d) == [d[0].key] + KeysOf(d[1..]);
      PutKeepsKeys(d[1..], k, v);
      var r := Put(d, k, v);
      assert r == [d[0]] + Put(d[1..], k, v);
      assert KeysOf(r) == [d[0].key] + KeysOf(Put(d[1..], k, v));
    }
  }
}
