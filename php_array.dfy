/**
 * PHP's ordered associative arrays (and the property table of a `stdClass`
 * object, which behaves the same way): a sequence of key/value entries that
 * remembers insertion order. Assigning to an existing key keeps its position;
 * assigning to a new key appends it; `unset` removes the entry.
 */
module PhpArray {

  datatype Option<T> = None | Some(value: T)

  // Keys are strings throughout: column names and bound parameter names.

  /** `array_keys($a)`: the keys in order. */
  function Keys<V>(a: seq<(string, V)>): (r: seq<string>)
    ensures |r| == |a|
  {
    seq(|a|, i requires 0 <= i < |a| => a[i].0)
  }

  /** The keys of two arrays placed one after the other are the keys of each, in that order. */
  lemma KeysAppend<V>(a: seq<(string, V)>, b: seq<(string, V)>)
    ensures Keys(a + b) == Keys(a) + Keys(b)
  {
  }

  predicate Distinct<T(==)>(s: seq<T>) {
    forall i, j :: 0 <= i < j < |s| ==> s[i] != s[j]
  }

  /** `$a[$k]` when `isset`-free: the value stored under `k`, if any. */
  function Lookup<V>(a: seq<(string, V)>, k: string): (r: Option<V>)
    ensures r.Some? <==> k in Keys(a)
    ensures r.Some? ==> (k, r.value) in a
    ensures r.None? ==> forall i :: 0 <= i < |a| ==> a[i].0 != k
  {
    if a == [] then None
    else
      assert Keys(a) == [a[0].0] + Keys(a[1..]);
      if a[0].0 == k then Some(a[0].1) else Lookup(a[1..], k)
  }

  /** In an array with distinct keys, the entry at position `i` is what a lookup of its key finds. */
  lemma {:induction false} LookupAt<V>(a: seq<(string, V)>, i: nat)
    requires Distinct(Keys(a)) && i < |a|
    ensures Lookup(a, a[i].0) == Some(a[i].1)
  {
    if i > 0 {
      assert a[0].0 == Keys(a)[0] != Keys(a)[i] == a[i].0;
      assert Keys(a[1..]) == Keys(a)[1..];
      LookupAt(a[1..], i - 1);
    }
  }

  /**
   * `$a[$k] = $v`: the key keeps its position if present, is appended otherwise;
   * only the value under `k` changes.
   */
  function Put<V>(a: seq<(string, V)>, k: string, v: V): (r: seq<(string, V)>)
    ensures Keys(r) == if k in Keys(a) then Keys(a) else Keys(a) + [k]
    ensures Lookup(r, k) == Some(v)
    ensures forall j :: j != k ==> Lookup(r, j) == Lookup(a, j)
  {
    if a == [] then [(k, v)]
    else
      assert Keys(a) == [a[0].0] + Keys(a[1..]);
      if a[0].0 == k then
        assert Keys([(k, v)] + a[1..]) == Keys(a);
        [(k, v)] + a[1..]
      else
        var rest := Put(a[1..], k, v);
        assert Keys([a[0]] + rest) == [a[0].0] + Keys(rest);
        [a[0]] + rest
  }

  /** Assigning to a key that is already present replaces that one entry in place. */
  lemma {:induction false} PutPresent<V>(a: seq<(string, V)>, i: nat, v: V)
    requires Distinct(Keys(a)) && i < |a|
    ensures Put(a, a[i].0, v) == a[i := (a[i].0, v)]
  {
    if i > 0 {
      assert a[0].0 == Keys(a)[0] != Keys(a)[i] == a[i].0;
      assert Keys(a[1..]) == Keys(a)[1..];
      PutPresent(a[1..], i - 1, v);
      assert Put(a, a[i].0, v) == [a[0]] + Put(a[1..], a[i].0, v);
      assert a[i := (a[i].0, v)] == [a[0]] + a[1..][i - 1 := (a[i].0, v)];
    }
  }

  /** The entries whose key is not listed in `ks`, in their original order. */
  function Without<V>(a: seq<(string, V)>, ks: seq<string>): (r: seq<(string, V)>)
    ensures |r| <= |a|
  {
    if a == [] then []
    else if a[0].0 in ks then Without(a[1..], ks)
    else [a[0]] + Without(a[1..], ks)
  }

  /**
   * Removing the listed keys leaves exactly the other keys, each with its value,
   * and keeps keys distinct.
   */
  lemma {:induction false} WithoutLookup<V>(a: seq<(string, V)>, ks: seq<string>)
    ensures forall k :: k in Keys(Without(a, ks)) <==> k in Keys(a) && k !in ks
    ensures forall j :: Lookup(Without(a, ks), j) == if j in ks then None else Lookup(a, j)
    ensures Distinct(Keys(a)) ==> Distinct(Keys(Without(a, ks)))
  {
    if a != [] {
      var rest := Without(a[1..], ks);
      WithoutLookup(a[1..], ks);
      assert Keys(a) == [a[0].0] + Keys(a[1..]);
      assert Keys(a[1..]) == Keys(a)[1..];
      if a[0].0 !in ks {
        assert Keys([a[0]] + rest) == [a[0].0] + Keys(rest);
      }
    }
  }

  /** Removing no key changes nothing. */
  lemma {:induction false} WithoutNone<V>(a: seq<(string, V)>)
    ensures Without(a, []) == a
  {
    if a != [] {
      WithoutNone(a[1..]);
    }
  }

  /** Removing `xs` and then `ys` removes `xs + ys`. */
  lemma {:induction false} WithoutWithout<V>(a: seq<(string, V)>, xs: seq<string>, ys: seq<string>)
    ensures Without(Without(a, xs), ys) == Without(a, xs + ys)
  {
    if a != [] {
      WithoutWithout(a[1..], xs, ys);
    }
  }

  /**
   * Removal keeps the original order: the entries of a longer array are those of
   * its prefix followed by the last entry, unless that entry's key is listed.
   */
  lemma {:induction false} WithoutAppend<V>(a: seq<(string, V)>, e: (string, V), ks: seq<string>)
    ensures Without(a + [e], ks) == Without(a, ks) + (if e.0 in ks then [] else [e])
  {
    if a != [] {
      assert (a + [e])[1..] == a[1..] + [e];
      WithoutAppend(a[1..], e, ks);
    }
  }

  /** `unset($a[$k])`: the entries other than the one for `k`, in order. */
  function Unset<V>(a: seq<(string, V)>, k: string): (r: seq<(string, V)>)
    ensures |r| <= |a|
    ensures k !in Keys(r)
  {
    WithoutLookup(a, [k]);
    Without(a, [k])
  }

  /** After `unset`, `k` is gone and every other key keeps its value. */
  lemma UnsetLookup<V>(a: seq<(string, V)>, k: string, j: string)
    ensures Lookup(Unset(a, k), j) == if j == k then None else Lookup(a, j)
  {
    WithoutLookup(a, [k]);
  }
}
