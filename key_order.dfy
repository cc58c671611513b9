/**
 * Keys and their order. leveldb's default comparer orders keys bytewise; on
 * valid UTF-8 that is the lexicographic order of Unicode characters, which is
 * what `Below` states. A database is the strictly increasing sequence of its
 * keys, and an iterator position is an index into it.
 */
module KeyOrder {

  type Key = string

  /** `a` sorts strictly before `b`: a proper prefix comes first, else the first differing character decides. */
  predicate Below(a: Key, b: Key)
    decreases |a|
  {
    |b| > 0 && (|a| == 0 || a[0] < b[0] || (a[0] == b[0] && Below(a[1..], b[1..])))
  }

  lemma {:induction false} BelowIrreflexive(a: Key)
    ensures !Below(a, a)
    decreases |a|
  {
    if |a| > 0 {
      BelowIrreflexive(a[1..]);
    }
  }

  lemma {:induction false} BelowTransitive(a: Key, b: Key, c: Key)
    ensures Below(a, b) && Below(b, c) ==> Below(a, c)
    decreases |a|
  {
    if |a| > 0 && |b| > 0 && |c| > 0 && a[0] == b[0] && b[0] == c[0] {
      BelowTransitive(a[1..], b[1..], c[1..]);
    }
  }

  lemma {:induction false} BelowTotal(a: Key, b: Key)
    ensures a == b || Below(a, b) || Below(b, a)
    decreases |a|
  {
    if |a| > 0 && |b| > 0 && a[0] == b[0] {
      BelowTotal(a[1..], b[1..]);
      if a[1..] == b[1..] {
        assert a == [a[0]] + a[1..] && b == [b[0]] + b[1..];
      }
    }
  }

  lemma {:induction false} BelowAsymmetric(a: Key, b: Key)
    requires Below(a, b)
    ensures !Below(b, a)
    decreases |a|
  {
    if |a| > 0 && a[0] == b[0] {
      BelowAsymmetric(a[1..], b[1..]);
    }
  }

  /** A key that starts with `p` never sorts before `p`. */
  lemma {:induction false} PrefixNotBelow(p: Key, k: Key)
    ensures p <= k ==> !Below(k, p)
    decreases |p|
  {
    if |p| > 0 && |k| > 0 && p[0] == k[0] {
      PrefixStep(p, k);
      PrefixNotBelow(p[1..], k[1..]);
    }
  }

  /**
   * Once a key `k` at or after `p` does not start with `p`, every key that
   * starts with `p` sorts before `k`: the keys with a given prefix are one
   * contiguous run of the order.
   */
  lemma {:induction false} PastPrefix(p: Key, k: Key, q: Key)
    requires !Below(k, p) && !(p <= k)
    ensures p <= q ==> Below(q, k)
    decreases |p|
  {
    assert |p| > 0 && |k| > 0;
    if k[0] == p[0] && |q| > 0 && q[0] == p[0] {
      PrefixStep(p, k);
      PrefixStep(p, q);
      PastPrefix(p[1..], k[1..], q[1..]);
    }
  }

  /** Two strings with the same first character: one starts with the other exactly when their tails do. */
  lemma PrefixStep(p: Key, k: Key)
    requires |p| > 0 && |k| > 0 && p[0] == k[0]
    ensures p <= k <==> p[1..] <= k[1..]
  {
    assert p == [p[0]] + p[1..];
    assert k == [k[0]] + k[1..];
  }

  /** The order of the keys stored in a database: strictly increasing. */
  predicate StrictlySorted(ks: seq<Key>)
  {
    forall i, j {:trigger Below(ks[i], ks[j])} :: 0 <= i < j < |ks| ==> Below(ks[i], ks[j])
  }

  /**
   * leveldb `Iterator.Seek(target)`: the position of the first key that is
   * not below `target`, or `|ks|` (the iterator is no longer valid) when
   * there is none.
   */
  function Seek(ks: seq<Key>, target: Key): (i: nat)
    ensures i <= |ks|
    ensures forall j :: 0 <= j < i ==> Below(ks[j], target)
    ensures i < |ks| ==> !Below(ks[i], target)
  {
    if |ks| == 0 || !Below(ks[0], target) then 0 else 1 + Seek(ks[1..], target)
  }

  /** In a sorted database every key from the seek position on is at or after the target. */
  lemma SeekRest(ks: seq<Key>, target: Key, j: nat)
    requires StrictlySorted(ks)
    requires Seek(ks, target) <= j < |ks|
    ensures !Below(ks[j], target)
  {
    var i := Seek(ks, target);
    if i < j {
      BelowTransitive(ks[i], ks[j], target);
    }
  }

  /** Seeking a stored key lands exactly on it. */
  lemma SeekStored(ks: seq<Key>, i: nat)
    requires StrictlySorted(ks) && i < |ks|
    ensures Seek(ks, ks[i]) == i
  {
    BelowIrreflexive(ks[i]);
  }

  /** Seeking the empty key is leveldb's `Iterator.First`. */
  lemma SeekEmptyIsFirst(ks: seq<Key>)
    ensures Seek(ks, "") == 0
  {
  }
}

/** A leveldb database, seen as an ordered key -> value map. */
module Storage {
  import opened KeyOrder

  type Value = string

  /** The keys in iteration order and the value stored under each. */
  datatype Store = Store(keys: seq<Key>, values: map<Key, Value>)
  {
    predicate Valid()
    {
      && StrictlySorted(keys)
      && (forall k :: k in values ==> k in keys)
      && (forall i :: 0 <= i < |keys| ==> keys[i] in values)
    }
  }
}
