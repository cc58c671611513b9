/**
 * What a client can rely on when it pages through a database by passing each
 * page's `next_key` back as `start`: where the next page begins, that the
 * pages together return every key once, and what happens at the end of a
 * prefix's run of keys.
 */
module Pagination {
  import opened Wrappers
  import opened KeyOrder
  import opened GoStrings
  import opened Handler

  /**
   * Passing `next_key` back as `start`, with the same prefix, starts the next
   * page exactly at the first key this page did not return. A page that
   * returned nothing has stopped on a key without the prefix.
   */
  lemma ResumeAtNextKey(ks: seq<Key>, q: Query)
    requires StrictlySorted(ks)
    requires Page(ks, q).nextKey.Some?
    ensures var page := Page(ks, q);
      StartIndex(ks, page.nextKey.value, q.prefix) == StartIndex(ks, q.start, q.prefix) + |page.keys|
    ensures Page(ks, q).keys == [] ==> q.prefix != "" && !(q.prefix <= Page(ks, q).nextKey.value)
  {
    var stop := StartIndex(ks, q.start, q.prefix) + |Page(ks, q).keys|;
    PageStops(ks, q);
    SeekStored(ks, stop);
  }

  /** The keys a client collects by following `next_key` from `start` with no prefix until it is absent. */
  function Walk(ks: seq<Key>, start: Key, limit: string): seq<Key>
    requires StrictlySorted(ks)
    decreases |ks| - StartIndex(ks, start, "")
  {
    var page := Page(ks, Query(start, "", limit));
    match page.nextKey
    case None => page.keys
    case Some(k) =>
      ResumeAtNextKey(ks, Query(start, "", limit));
      page.keys + Walk(ks, k, limit)
  }

  /** Following `next_key` without a prefix returns every key from the start position on, in order, once each. */
  lemma {:induction false} WalkFrom(ks: seq<Key>, start: Key, limit: string)
    requires StrictlySorted(ks)
    ensures Walk(ks, start, limit) == ks[StartIndex(ks, start, "")..|ks|]
    decreases |ks| - StartIndex(ks, start, ""), 1
  {
    var q := Query(start, "", limit);
    NextKeyPresentWhenKeysRemain(ks, q);
    if Page(ks, q).nextKey.Some? {
      WalkStep(ks, start, limit);
    }
  }

  /** The step of `WalkFrom` for a page that has a `next_key`. */
  lemma {:induction false} WalkStep(ks: seq<Key>, start: Key, limit: string)
    requires StrictlySorted(ks)
    requires Page(ks, Query(start, "", limit)).nextKey.Some?
    ensures Walk(ks, start, limit) == ks[StartIndex(ks, start, "")..|ks|]
    decreases |ks| - StartIndex(ks, start, ""), 0
  {
    var q := Query(start, "", limit);
    var page := Page(ks, q);
    var k := page.nextKey.value;
    var s := StartIndex(ks, start, "");
    var stop := s + |page.keys|;
    assert StartIndex(ks, k, "") == stop && stop > s by {
      ResumeAtNextKey(ks, q);
    }
    assert Walk(ks, k, limit) == ks[stop..|ks|] by {
      WalkFrom(ks, k, limit);
    }
    PageShape(ks, q);
    Glue(Walk(ks, start, limit), page.keys, Walk(ks, k, limit), ks, s, stop, |ks|);
  }

  /** Paging from the first page without a prefix yields exactly the stored keys: no gap, no repeat. */
  lemma WalkCoversAll(ks: seq<Key>, limit: string)
    requires StrictlySorted(ks)
    ensures Walk(ks, "", limit) == ks
  {
    WalkFrom(ks, "", limit);
  }

  /**
   * With a prefix, the page after the last one inside the prefix's run is
   * empty and names the same `next_key` again: a client that follows
   * `next_key` whenever it is present keeps being offered that one page.
   */
  lemma PrefixNextKeyRepeats(ks: seq<Key>, q: Query)
    requires StrictlySorted(ks)
    requires q.prefix != ""
    requires Page(ks, q).nextKey.Some? && !(q.prefix <= Page(ks, q).nextKey.value)
    ensures var k := Page(ks, q).nextKey.value;
      Page(ks, Query(k, q.prefix, q.limit)) == KeyPage([], Some(k))
  {
    ResumeAtNextKey(ks, q);
  }

  /** The stored keys that start with `p`, in stored order. */
  function WithPrefix(ks: seq<Key>, p: Key): seq<Key>
  {
    if ks == [] then []
    else (if p <= ks[0] then [ks[0]] else []) + WithPrefix(ks[1..], p)
  }

  lemma {:induction false} WithPrefixAppend(a: seq<Key>, b: seq<Key>, p: Key)
    ensures WithPrefix(a + b, p) == WithPrefix(a, p) + WithPrefix(b, p)
    decreases |a|
  {
    if a == [] {
      assert a + b == b;
    } else {
      assert (a + b)[0] == a[0];
      assert (a + b)[1..] == a[1..] + b;
      WithPrefixAppend(a[1..], b, p);
    }
  }

  lemma {:induction false} WithPrefixAll(a: seq<Key>, p: Key)
    requires forall j :: 0 <= j < |a| ==> p <= a[j]
    ensures WithPrefix(a, p) == a
    decreases |a|
  {
    if a != [] {
      WithPrefixAll(a[1..], p);
    }
  }

  lemma {:induction false} WithPrefixNone(a: seq<Key>, p: Key)
    requires forall j :: 0 <= j < |a| ==> !(p <= a[j])
    ensures WithPrefix(a, p) == []
    decreases |a|
  {
    if a != [] {
      WithPrefixNone(a[1..], p);
    }
  }

  /** The end of the run of keys with prefix `p` that starts at position `from`. */
  function PrefixEnd(ks: seq<Key>, from: nat, p: Key): (e: nat)
    requires from <= |ks|
    ensures from <= e <= |ks|
    ensures forall j :: from <= j < e ==> p <= ks[j]
    ensures e < |ks| ==> !(p <= ks[e])
    decreases |ks| - from
  {
    if from == |ks| || !(p <= ks[from]) then from else PrefixEnd(ks, from + 1, p)
  }

  /** In a sorted database the keys with prefix `p` are exactly the run that starts where a seek for `p` lands. */
  lemma PrefixRun(ks: seq<Key>, p: Key)
    requires StrictlySorted(ks)
    ensures WithPrefix(ks, p) == ks[Seek(ks, p)..PrefixEnd(ks, Seek(ks, p), p)]
  {
    var s := Seek(ks, p);
    var e := PrefixEnd(ks, s, p);
    OutsideRunLacksPrefix(ks, p);
    WithPrefixOfRun(ks, s, e, p);
  }

  /** No key before the seek position for `p`, nor after the end of the run found there, starts with `p`. */
  lemma OutsideRunLacksPrefix(ks: seq<Key>, p: Key)
    requires StrictlySorted(ks)
    ensures var s := Seek(ks, p);
      forall j :: 0 <= j < s ==> !(p <= ks[j])
    ensures var e := PrefixEnd(ks, Seek(ks, p), p);
      forall j :: e <= j < |ks| ==> !(p <= ks[j])
  {
    var s := Seek(ks, p);
    var e := PrefixEnd(ks, s, p);
    forall j | 0 <= j < s
      ensures !(p <= ks[j])
    {
      PrefixNotBelow(p, ks[j]);
    }
    forall j | e < j < |ks|
      ensures !(p <= ks[j])
    {
      SeekRest(ks, p, e);
      PastPrefix(p, ks[e], ks[j]);
      BelowAsymmetric(ks[e], ks[j]);
    }
  }

  /** When exactly the keys in `ks[s..e]` start with `p`, they are the keys with prefix `p`. */
  lemma WithPrefixOfRun(ks: seq<Key>, s: nat, e: nat, p: Key)
    requires s <= e <= |ks|
    requires forall j :: 0 <= j < s ==> !(p <= ks[j])
    requires forall j :: s <= j < e ==> p <= ks[j]
    requires forall j :: e <= j < |ks| ==> !(p <= ks[j])
    ensures WithPrefix(ks, p) == ks[s..e]
  {
    var a, b, c := ks[..s], ks[s..e], ks[e..];
    assert ks == a + b + c;
    WithPrefixAppend(a + b, c, p);
    WithPrefixAppend(a, b, p);
    WithPrefixNone(a, p);
    WithPrefixAll(b, p);
    WithPrefixNone(c, p);
  }

  /**
   * The keys a client collects by following `next_key` with a prefix,
   * stopping at the first page that returns nothing or has no `next_key`.
   */
  function WalkPrefix(ks: seq<Key>, start: Key, p: Key, limit: string): seq<Key>
    requires StrictlySorted(ks)
    decreases |ks| - StartIndex(ks, start, p)
  {
    var page := Page(ks, Query(start, p, limit));
    if page.keys == [] || page.nextKey.None? then page.keys
    else
      ResumeAtNextKey(ks, Query(start, p, limit));
      page.keys + WalkPrefix(ks, page.nextKey.value, p, limit)
  }

  /** From any start, paging with a prefix returns the run of keys with that prefix from the start position. */
  lemma {:induction false} WalkPrefixFrom(ks: seq<Key>, start: Key, p: Key, limit: string)
    requires StrictlySorted(ks)
    ensures var i := StartIndex(ks, start, p);
      WalkPrefix(ks, start, p, limit) == ks[i..PrefixEnd(ks, i, p)]
    decreases |ks| - StartIndex(ks, start, p), 2
  {
    var page := Page(ks, Query(start, p, limit));
    PageInRun(ks, Query(start, p, limit));
    if page.keys != [] && page.nextKey.Some? {
      WalkPrefixStep(ks, start, p, limit);
    }
  }

  /** The step of `WalkPrefixFrom` for a page that is followed by another. */
  lemma {:induction false} WalkPrefixStep(ks: seq<Key>, start: Key, p: Key, limit: string)
    requires StrictlySorted(ks)
    requires Page(ks, Query(start, p, limit)).keys != []
    requires Page(ks, Query(start, p, limit)).nextKey.Some?
    ensures var i := StartIndex(ks, start, p);
      WalkPrefix(ks, start, p, limit) == ks[i..PrefixEnd(ks, i, p)]
    decreases |ks| - StartIndex(ks, start, p), 1
  {
    var q := Query(start, p, limit);
    var page := Page(ks, q);
    var k := page.nextKey.value;
    var i := StartIndex(ks, start, p);
    var stop := i + |page.keys|;
    var e := PrefixEnd(ks, i, p);
    WalkPrefixRest(ks, start, p, limit);
    PageShape(ks, q);
    WalkPrefixUnfold(ks, start, p, limit);
    Glue(WalkPrefix(ks, start, p, limit), page.keys, WalkPrefix(ks, k, p, limit), ks, i, stop, e);
  }

  /** A page that is followed by another is followed by the walk from its `next_key`. */
  lemma WalkPrefixUnfold(ks: seq<Key>, start: Key, p: Key, limit: string)
    requires StrictlySorted(ks)
    requires Page(ks, Query(start, p, limit)).keys != []
    requires Page(ks, Query(start, p, limit)).nextKey.Some?
    ensures var page := Page(ks, Query(start, p, limit));
      WalkPrefix(ks, start, p, limit) == page.keys + WalkPrefix(ks, page.nextKey.value, p, limit)
  {
  }

  /** After a page that is followed by another, the walk goes on with the rest of the same run. */
  lemma {:induction false} WalkPrefixRest(ks: seq<Key>, start: Key, p: Key, limit: string)
    requires StrictlySorted(ks)
    requires Page(ks, Query(start, p, limit)).keys != []
    requires Page(ks, Query(start, p, limit)).nextKey.Some?
    ensures var page := Page(ks, Query(start, p, limit));
      var i := StartIndex(ks, start, p);
      var stop := i + |page.keys|;
      && stop <= PrefixEnd(ks, i, p)
      && WalkPrefix(ks, page.nextKey.value, p, limit) == ks[stop..PrefixEnd(ks, i, p)]
    decreases |ks| - StartIndex(ks, start, p), 0
  {
    var q := Query(start, p, limit);
    var page := Page(ks, q);
    var k := page.nextKey.value;
    var i := StartIndex(ks, start, p);
    var stop := i + |page.keys|;
    var e := PrefixEnd(ks, i, p);
    assert StartIndex(ks, k, p) == stop && stop <= e by {
      ResumeAtNextKey(ks, q);
      PageInRun(ks, q);
    }
    PrefixEndFrom(ks, i, stop, p);
    WalkPrefixFrom(ks, k, p, limit);
  }

  /** A sequence made of two adjacent slices is the slice that spans both. */
  lemma Glue(w: seq<Key>, front: seq<Key>, back: seq<Key>, ks: seq<Key>, i: nat, j: nat, e: nat)
    requires i <= j <= e <= |ks|
    requires w == front + back && front == ks[i..j] && back == ks[j..e]
    ensures w == ks[i..e]
  {
  }

  /**
   * A page never reaches past the run of prefixed keys it starts in, and it
   * reaches its end when it is empty or has no `next_key`.
   */
  lemma PageInRun(ks: seq<Key>, q: Query)
    requires StrictlySorted(ks)
    ensures var i := StartIndex(ks, q.start, q.prefix);
      var page := Page(ks, q);
      && i + |page.keys| <= PrefixEnd(ks, i, q.prefix)
      && (page.keys == [] || page.nextKey.None? ==> i + |page.keys| == PrefixEnd(ks, i, q.prefix))
  {
    var i := StartIndex(ks, q.start, q.prefix);
    var page := Page(ks, q);
    NextKeyPresentWhenKeysRemain(ks, q);
    PageStops(ks, q);
    PrefixEndAtMost(ks, i, q.prefix, i + |page.keys|);
  }

  /** A run of prefixed keys from `i` reaches at least as far as any position up to which every key is prefixed. */
  lemma {:induction false} PrefixEndAtMost(ks: seq<Key>, i: nat, p: Key, stop: nat)
    requires i <= stop <= |ks|
    requires forall j :: i <= j < stop ==> p <= ks[j]
    ensures stop <= PrefixEnd(ks, i, p)
    decreases stop - i
  {
    if i < stop {
      PrefixEndAtMost(ks, i + 1, p, stop);
    }
  }

  /** Starting the run later, but inside it, does not move its end. */
  lemma {:induction false} PrefixEndFrom(ks: seq<Key>, i: nat, j: nat, p: Key)
    requires i <= |ks| && i <= j <= PrefixEnd(ks, i, p)
    ensures PrefixEnd(ks, j, p) == PrefixEnd(ks, i, p)
    decreases j - i
  {
    if i < j {
      PrefixEndFrom(ks, i + 1, j, p);
    }
  }

  /** Paging from the first page with a prefix yields exactly the stored keys with that prefix. */
  lemma WalkPrefixCoversPrefix(ks: seq<Key>, p: Key, limit: string)
    requires StrictlySorted(ks)
    ensures WalkPrefix(ks, "", p, limit) == WithPrefix(ks, p)
  {
    WalkPrefixFrom(ks, "", p, limit);
    PrefixRun(ks, p);
  }

  /**
   * The smallest case of the prefix quirk: with keys "a" and "b" and prefix
   * "a", the first page returns "a" with `next_key` "b", and asking for the
   * next page returns no keys and `next_key` "b" again.
   */
  lemma EmptyPageWithNextKey()
    ensures Page(["a", "b"], Query("", "a", "")) == KeyPage(["a"], Some("b"))
    ensures Page(["a", "b"], Query("b", "a", "")) == KeyPage([], Some("b"))
  {
    assert Atoi("") == None;
    assert Below("a", "b");
    assert !("a" <= "b");
    assert Seek(["a", "b"], "a") == 0;
    assert Seek(["a", "b"], "b") == 1 by {
      assert Seek(["a", "b"][1..], "b") == 0;
    }
  }
}
