/** First-match search by key, the shape of every `get`, `find` and `*_by_*` in the reader,
  * and what the `seen` sets of the section loops buy it. */
module Lookups {
  import opened Wire

  predicate Seen<T, K(==)>(key: T -> K, vs: seq<T>, k: K) {
    exists i :: 0 <= i < |vs| && key(vs[i]) == k
  }

  lemma SeenNothing<T, K(!new)>(key: T -> K)
    ensures forall k :: !Seen(key, [], k)
  {
  }

  lemma SeenAppend<T, K(!new)>(key: T -> K, vs: seq<T>, v: T)
    ensures forall k :: Seen(key, vs + [v], k) <==> Seen(key, vs, k) || key(v) == k
  {
    var ws := vs + [v];
    forall k
      ensures Seen(key, ws, k) <==> Seen(key, vs, k) || key(v) == k
    {
      assert ws[|vs|] == v && forall i :: 0 <= i < |vs| ==> ws[i] == vs[i];
    }
  }

  /** No element's key was seen before it: what the loops check one element at a time. */
  ghost predicate Fresh<T, K>(key: T -> K, vs: seq<T>) {
    forall i :: 0 <= i < |vs| ==> !Seen(key, vs[..i], key(vs[i]))
  }

  ghost predicate Distinct<T, K>(key: T -> K, vs: seq<T>) {
    forall i, j :: 0 <= i < j < |vs| ==> key(vs[i]) != key(vs[j])
  }

  /** The one-at-a-time check is exactly pairwise distinctness. */
  lemma FreshIsDistinct<T, K>(key: T -> K, vs: seq<T>)
    ensures Fresh(key, vs) <==> Distinct(key, vs)
  {
    if Fresh(key, vs) {
      forall i, j | 0 <= i < j < |vs|
        ensures key(vs[i]) != key(vs[j])
      {
        assert vs[..j][i] == vs[i];
      }
    }
  }

  function Lookup<T, K(==)>(key: T -> K, vs: seq<T>, k: K): (r: Option<T>)
    ensures r.Some? <==> Seen(key, vs, k)
    ensures r.Some? ==> r.value in vs && key(r.value) == k
  {
    if |vs| == 0 then None
    else if key(vs[0]) == k then Some(vs[0])
    else
      assert Seen(key, vs[1..], k) ==> Seen(key, vs, k) by {
        assert forall i :: 0 <= i < |vs| - 1 ==> vs[1..][i] == vs[i + 1];
      }
      assert Seen(key, vs, k) ==> Seen(key, vs[1..], k) by {
        assert forall i :: 1 <= i < |vs| ==> vs[1..][i - 1] == vs[i];
      }
      Lookup(key, vs[1..], k)
  }

  /** The first element with key `k` is at `i`. */
  ghost predicate FirstAt<T(!new), K(!new)>(key: T -> K, vs: seq<T>, k: K, i: nat) {
    i < |vs| && key(vs[i]) == k && forall j :: 0 <= j < i ==> key(vs[j]) != k
  }

  /** A search finds the first element with the key, and nothing when there is none. */
  lemma {:induction false} LookupFirst<T(!new), K(!new)>(key: T -> K, vs: seq<T>, k: K)
    ensures forall i: nat :: FirstAt(key, vs, k, i) ==> Lookup(key, vs, k) == Some(vs[i])
    ensures Lookup(key, vs, k) == None <==> forall v :: v in vs ==> key(v) != k
  {
    if |vs| != 0 && key(vs[0]) != k {
      LookupFirst(key, vs[1..], k);
      forall i: nat | FirstAt(key, vs, k, i)
        ensures Lookup(key, vs, k) == Some(vs[i])
      {
        assert forall j :: 0 <= j < |vs| - 1 ==> vs[1..][j] == vs[j + 1];
        assert FirstAt(key, vs[1..], k, i - 1);
      }
    }
  }

  /** With distinct keys, lookup is a function from keys to elements: every element is the
    * one found under its own key. */
  lemma LookupDistinct<T, K>(key: T -> K, vs: seq<T>, v: T)
    requires Distinct(key, vs) && v in vs
    ensures Lookup(key, vs, key(v)) == Some(v)
  {
    var i :| 0 <= i < |vs| && vs[i] == v;
    assert Seen(key, vs, key(v));
    var found := Lookup(key, vs, key(v)).value;
    var j :| 0 <= j < |vs| && vs[j] == found;
    assert i == j;
  }

  /** Elements with the same key are the same element. */
  ghost predicate Unambiguous<T, K>(key: T -> K, vs: seq<T>) {
    forall i, j :: 0 <= i < |vs| && 0 <= j < |vs| && key(vs[i]) == key(vs[j]) ==> vs[i] == vs[j]
  }

  /** In any order a key finds something, or nothing: elements of both lists, with that key. */
  lemma LookupPermuted<T, K>(key: T -> K, vs: seq<T>, ws: seq<T>, k: K)
    requires multiset(vs) == multiset(ws)
    ensures Lookup(key, vs, k).Some? <==> Lookup(key, ws, k).Some?
    ensures Lookup(key, vs, k).Some? ==> Lookup(key, ws, k).value in vs
    ensures Unambiguous(key, vs) ==> Lookup(key, vs, k) == Lookup(key, ws, k)
  {
    assert forall v :: v in vs <==> v in multiset(vs);
    assert forall v :: v in ws <==> v in multiset(ws);
    if Lookup(key, ws, k).Some? {
      var i :| 0 <= i < |vs| && vs[i] == Lookup(key, ws, k).value;
      assert Seen(key, vs, k);
    }
    if Lookup(key, vs, k).Some? {
      var i :| 0 <= i < |ws| && ws[i] == Lookup(key, vs, k).value;
      assert Seen(key, ws, k);
    }
  }

  /** The list with element `i` brought to the front. */
  function ToFront<T>(vs: seq<T>, i: nat): seq<T>
    requires i < |vs|
  {
    [vs[i]] + vs[..i] + vs[i + 1..]
  }

  lemma ToFrontPermutes<T>(vs: seq<T>, i: nat)
    requires i < |vs|
    ensures multiset(ToFront(vs, i)) == multiset(vs)
  {
    assert vs == vs[..i] + [vs[i]] + vs[i + 1..];
  }

  lemma ToFrontFound<T, K>(key: T -> K, vs: seq<T>, i: nat)
    requires i < |vs|
    ensures Lookup(key, ToFront(vs, i), key(vs[i])) == Some(vs[i])
  {
  }

  /** Every lookup finds the same in any order. */
  ghost predicate OrderFree<T(!new), K(!new)>(key: T -> K, vs: seq<T>) {
    forall ws, k :: multiset(ws) == multiset(vs) ==> Lookup(key, ws, k) == Lookup(key, vs, k)
  }

  /** The order of the elements does not matter to lookups exactly when keys are unambiguous. */
  lemma OrderFreeExactly<T(!new), K(!new)>(key: T -> K, vs: seq<T>)
    ensures OrderFree(key, vs) <==> Unambiguous(key, vs)
  {
    if Unambiguous(key, vs) {
      forall ws, k | multiset(ws) == multiset(vs)
        ensures Lookup(key, ws, k) == Lookup(key, vs, k)
      {
        LookupPermuted(key, vs, ws, k);
      }
    }
    if OrderFree(key, vs) {
      forall i, j | 0 <= i < |vs| && 0 <= j < |vs| && key(vs[i]) == key(vs[j])
        ensures vs[i] == vs[j]
      {
        ToFrontPermutes(vs, i);
        ToFrontPermutes(vs, j);
        ToFrontFound(key, vs, i);
        ToFrontFound(key, vs, j);
      }
    }
  }
}
