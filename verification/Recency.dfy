/** Least-recently-used order, as a sequence and as times of last use. */
module Recency {

  const MAX_CACHED: nat := 128

  datatype Item = Item(key: string, value: string)

  /** Calls on the cache. */
  datatype Op =
    | Add(key: string, value: string)
    | Get(key: string)
    | Delete(key: string)

  ghost predicate DistinctKeys(r: seq<Item>) {
    forall i, j :: 0 <= i < j < |r| ==> r[i].key != r[j].key
  }

  /** Position of a key, or the length if it is not there. */
  function Find(r: seq<Item>, key: string): (i: nat)
    ensures i <= |r|
    ensures i < |r| ==> r[i].key == key
    ensures forall j :: 0 <= j < i ==> r[j].key != key
  {
    if r == [] || r[0].key == key then 0 else 1 + Find(r[1..], key)
  }

  lemma {:induction false} FindUnique(r: seq<Item>, key: string, i: nat)
    requires DistinctKeys(r) && i < |r| && r[i].key == key
    ensures Find(r, key) == i
  {
  }

  predicate Has(r: seq<Item>, key: string) { Find(r, key) < |r| }

  function RemoveAt<A>(s: seq<A>, i: nat): (t: seq<A>)
    requires i < |s|
    ensures |t| == |s| - 1
  {
    s[..i] + s[i + 1..]
  }

  /** The cached items, most recent first, after one more call. */
  function After(r: seq<Item>, op: Op): (r': seq<Item>) {
    match op
    case Add(key, value) =>
      var longer := [Item(key, value)] + r;
      if |longer| > MAX_CACHED then longer[..|longer| - 1] else longer
    case Get(key) =>
      var i := Find(r, key);
      if i < |r| then [r[i]] + RemoveAt(r, i) else r
    case Delete(key) =>
      var i := Find(r, key);
      if i < |r| then RemoveAt(r, i) else r
  }

  function Cached(h: seq<Op>): (r: seq<Item>) {
    if h == [] then [] else After(Cached(h[..|h| - 1]), h[|h| - 1])
  }

  /** Add is called only for absent keys. */
  predicate Legal(h: seq<Op>) {
    h == [] ||
    (Legal(h[..|h| - 1]) && (h[|h| - 1].Add? ==> !Has(Cached(h[..|h| - 1]), h[|h| - 1].key)))
  }

  lemma {:induction false} LegalPrefix(h: seq<Op>, n: nat)
    requires Legal(h) && n <= |h|
    ensures Legal(h[..n])
  {
    if n < |h| {
      LegalPrefix(h[..|h| - 1], n);
      assert h[..|h| - 1][..n] == h[..n];
    } else {
      assert h[..n] == h;
    }
  }

  lemma {:induction false} LegalNext(h: seq<Op>, ops: seq<Op>, i: nat)
    requires Legal(h + ops) && i < |ops|
    ensures h + ops[..i + 1] == h + ops[..i] + [ops[i]] && Legal(h + ops[..i] + [ops[i]])
  {
    LegalPrefix(h + ops, |h| + i + 1);
    assert (h + ops)[..|h| + i + 1] == h + ops[..i] + [ops[i]];
  }

  /** When a key was last added or asked for, -1 if never. */
  function LastUse(h: seq<Op>, key: string): (t: int)
    ensures -1 <= t < |h|
  {
    if h == [] then -1
    else if h[|h| - 1].key == key && !h[|h| - 1].Delete? then |h| - 1
    else LastUse(h[..|h| - 1], key)
  }

  /** The value a key was last added with, if it was not deleted since. */
  function LastAdded(h: seq<Op>, key: string): (r: seq<string>) {
    if h == [] then []
    else match h[|h| - 1]
      case Add(k, v) => if k == key then [v] else LastAdded(h[..|h| - 1], key)
      case Get(_) => LastAdded(h[..|h| - 1], key)
      case Delete(k) => if k == key then [] else LastAdded(h[..|h| - 1], key)
  }

  ghost predicate MostRecentFirst(h: seq<Op>, r: seq<Item>) {
    forall i, j :: 0 <= i < j < |r| ==> LastUse(h, r[i].key) > LastUse(h, r[j].key)
  }

  /** What holds of the cached items after every legal history. */
  ghost predicate InOrder(h: seq<Op>, r: seq<Item>) {
    && |r| <= 128
    && DistinctKeys(r)
    && MostRecentFirst(h, r)
    && forall i :: 0 <= i < |r| ==> LastAdded(h, r[i].key) == [r[i].value]
  }

  /** The cache holds at most 128 items, in order of last use, each with the
      value its key was last added with. */
  lemma {:induction false} CachedInOrder(h: seq<Op>)
    requires Legal(h)
    ensures InOrder(h, Cached(h))
  {
    if h != [] {
      var before, op := h[..|h| - 1], h[|h| - 1];
      CachedInOrder(before);
      AfterInOrder(before, Cached(before), op);
      assert before + [op] == h;
    }
  }

  lemma {:induction false} OneMoreCall(h: seq<Op>, op: Op)
    requires Legal(h) && (op.Add? ==> !Has(Cached(h), op.key))
    ensures Legal(h + [op]) && Cached(h + [op]) == After(Cached(h), op)
  {
    assert (h + [op])[..|h|] == h;
  }

  lemma {:induction false} OneMore(h: seq<Op>, op: Op, key: string)
    ensures LastUse(h + [op], key) == if op.key == key && !op.Delete? then |h| else LastUse(h, key)
    ensures LastAdded(h + [op], key) ==
      if op.key != key || op.Get? then LastAdded(h, key) else if op.Add? then [op.value] else []
  {
    assert (h + [op])[..|h|] == h;
  }

  lemma AfterInOrder(h: seq<Op>, r: seq<Item>, op: Op)
    requires InOrder(h, r) && (op.Add? ==> !Has(r, op.key))
    ensures InOrder(h + [op], After(r, op))
  {
    match op {
      case Add(key, value) => AddInOrder(h, r, key, value);
      case Get(key) => GetInOrder(h, r, key);
      case Delete(key) => DeleteInOrder(h, r, key);
    }
  }

  /** Items of `r` in the same order, `key` left out, with `op` done on `key`. */
  lemma OthersInOrder(h: seq<Op>, r: seq<Item>, op: Op, s: seq<Item>, from: seq<nat>)
    requires InOrder(h, r) && |from| == |s| <= |r|
    requires forall a :: 0 <= a < |s| ==> from[a] < |r| && s[a] == r[from[a]] && s[a].key != op.key
    requires forall a, b :: 0 <= a < b < |s| ==> from[a] < from[b]
    ensures InOrder(h + [op], s)
  {
    forall a | 0 <= a < |s|
      ensures LastUse(h + [op], s[a].key) == LastUse(h, r[from[a]].key)
      ensures LastAdded(h + [op], s[a].key) == [r[from[a]].value]
    {
      OneMore(h, op, s[a].key);
    }
  }

  /** The key just used goes before all others. */
  lemma {:induction false} FrontInOrder(h: seq<Op>, item: Item, s: seq<Item>)
    requires InOrder(h, s) && LastUse(h, item.key) == |h| - 1 && LastAdded(h, item.key) == [item.value]
    requires |s| < MAX_CACHED
    requires forall a :: 0 <= a < |s| ==> s[a].key != item.key && LastUse(h, s[a].key) < |h| - 1
    ensures InOrder(h, [item] + s)
  {
    var r := [item] + s;
    forall i, j | 0 <= i < j < |r|
      ensures r[i].key != r[j].key && LastUse(h, r[i].key) > LastUse(h, r[j].key)
    {
      assert r[j] == s[j - 1];
      assert i > 0 ==> r[i] == s[i - 1];
    }
    forall i | 0 <= i < |r| ensures LastAdded(h, r[i].key) == [r[i].value] {
      assert i > 0 ==> r[i] == s[i - 1];
    }
  }

  lemma AddInOrder(h: seq<Op>, r: seq<Item>, key: string, value: string)
    requires InOrder(h, r) && !Has(r, key)
    ensures InOrder(h + [Add(key, value)], After(r, Add(key, value)))
  {
    var s := Kept(r);
    KeptInOrder(h, r, Add(key, value));
    assert After(r, Add(key, value)) == [Item(key, value)] + s;
    AddedInFront(h, s, key, value);
  }

  /** The items that stay when one more is added. */
  function Kept(r: seq<Item>): (s: seq<Item>) { if |r| == MAX_CACHED then r[..|r| - 1] else r }

  lemma {:induction false} KeptInOrder(h: seq<Op>, r: seq<Item>, op: Op)
    requires InOrder(h, r) && !Has(r, op.key)
    ensures InOrder(h + [op], Kept(r)) && forall a :: 0 <= a < |Kept(r)| ==> Kept(r)[a].key != op.key
  {
    OthersInOrder(h, r, op, Kept(r), seq(|Kept(r)|, a => a));
  }

  lemma {:induction false} AddedInFront(h: seq<Op>, s: seq<Item>, key: string, value: string)
    requires InOrder(h + [Add(key, value)], s) && |s| < MAX_CACHED && forall a :: 0 <= a < |s| ==> s[a].key != key
    ensures InOrder(h + [Add(key, value)], [Item(key, value)] + s)
  {
    var op := Add(key, value);
    OneMore(h, op, key);
    forall a | 0 <= a < |s| ensures s[a].key != key && LastUse(h + [op], s[a].key) < |h| {
      OneMore(h, op, s[a].key);
    }
    FrontInOrder(h + [op], Item(key, value), s);
  }

  function Skip(n: nat, i: nat): (from: seq<nat>)
    requires i < n
    ensures |from| == n - 1 && forall a :: 0 <= a < n - 1 ==> from[a] == if a < i then a else a + 1
  {
    seq(n - 1, a requires 0 <= a => if a < i then a else a + 1)
  }

  lemma GetInOrder(h: seq<Op>, r: seq<Item>, key: string)
    requires InOrder(h, r)
    ensures InOrder(h + [Get(key)], After(r, Get(key)))
  {
    var op, i := Get(key), Find(r, key);
    if i < |r| {
      var s := RemoveAt(r, i);
      OthersInOrder(h, r, op, s, Skip(|r|, i));
      OneMore(h, op, key);
      forall a | 0 <= a < |s| ensures LastUse(h + [op], s[a].key) < |h| { OneMore(h, op, s[a].key); }
      FrontInOrder(h + [op], r[i], s);
    } else {
      OthersInOrder(h, r, op, r, seq(|r|, a => a));
    }
  }

  lemma DeleteInOrder(h: seq<Op>, r: seq<Item>, key: string)
    requires InOrder(h, r)
    ensures InOrder(h + [Delete(key)], After(r, Delete(key)))
  {
    var op, i := Delete(key), Find(r, key);
    if i < |r| {
      OthersInOrder(h, r, op, RemoveAt(r, i), Skip(|r|, i));
    } else {
      OthersInOrder(h, r, op, r, seq(|r|, a => a));
    }
  }

  /** A full cache loses the key that was used least recently. */
  lemma {:induction false} EvictsLeastRecent(h: seq<Op>, key: string, value: string)
    requires Legal(h) && !Has(Cached(h), key) && |Cached(h)| == 128
    ensures var r, r' := Cached(h), Cached(h + [Add(key, value)]);
      exists v :: 0 <= v < |r|
        && !Has(r', r[v].key)
        && (forall i :: 0 <= i < |r| && i != v ==>
              LastUse(h, r[v].key) < LastUse(h, r[i].key) && Has(r', r[i].key))
  {
    var r := Cached(h);
    var r' := Cached(h + [Add(key, value)]);
    CachedInOrder(h);
    assert (h + [Add(key, value)])[..|h|] == h;
    assert r' == [Item(key, value)] + r[..|r| - 1];
    var v := |r| - 1;
    forall i | 0 <= i < v ensures Has(r', r[i].key) { assert r'[i + 1] == r[i]; }
    assert !Has(r', r[v].key);
  }

  /** Which keys are cached after one more call: a new one, and all that were but the
      one deleted, or, in a full cache, the one used least recently. */
  lemma {:induction false} WhoIsCached(h: seq<Op>, op: Op, key: string)
    requires Legal(h + [op])
    ensures var r, r' := Cached(h), Cached(h + [op]);
      match op
      case Add(k, _) =>
        Has(r', key) <==> key == k || (Has(r, key) && !(|r| == 128 && LeastRecent(h, r, key)))
      case Get(_) => Has(r', key) <==> Has(r, key)
      case Delete(k) => Has(r', key) <==> Has(r, key) && key != k
  {
    assert (h + [op])[..|h|] == h;
    CachedInOrder(h);
    match op {
      case Add(k, v) => WhoAfterAdd(h, Cached(h), k, v, key);
      case Get(k) => WhoAfterGet(Cached(h), k, key);
      case Delete(k) => WhoAfterDelete(Cached(h), k, key);
    }
  }

  /** No other cached key was used before this one. */
  ghost predicate LeastRecent(h: seq<Op>, r: seq<Item>, key: string) {
    forall i :: 0 <= i < |r| && r[i].key != key ==> LastUse(h, key) < LastUse(h, r[i].key)
  }

  lemma {:induction false} HasAt(r: seq<Item>, key: string)
    ensures Has(r, key) <==> exists i :: 0 <= i < |r| && r[i].key == key
  {
  }

  lemma {:induction false} WhoAfterAdd(h: seq<Op>, r: seq<Item>, k: string, v: string, key: string)
    requires InOrder(h, r) && !Has(r, k)
    ensures Has(After(r, Add(k, v)), key) <==> key == k || (Has(r, key) && !(|r| == 128 && LeastRecent(h, r, key)))
  {
    var r' := After(r, Add(k, v));
    HasAt(r', key);
    HasAt(Kept(r), key);
    assert r' == [Item(k, v)] + Kept(r);
    assert r'[0].key == k && forall i :: 0 <= i < |Kept(r)| ==> r'[i + 1] == Kept(r)[i];
    assert Has(r', key) <==> key == k || Has(Kept(r), key);
    WhoIsKept(h, r, key);
  }

  lemma {:induction false} WhoIsKept(h: seq<Op>, r: seq<Item>, key: string)
    requires InOrder(h, r)
    ensures Has(Kept(r), key) <==> Has(r, key) && !(|r| == 128 && LeastRecent(h, r, key))
  {
    var i := Find(r, key);
    if |r| == 128 && i < 128 {
      if i == 127 {
        LastIsLeast(h, r);
        NotBefore(r, key, 127);
      } else {
        assert LastUse(h, r[127].key) < LastUse(h, r[i].key) && r[127].key != key;
        assert !LeastRecent(h, r, key);
        FindUnique(Kept(r), key, i);
      }
    } else if |r| == 128 {
      NotBefore(r, key, 127);
    }
  }

  lemma {:induction false} LastIsLeast(h: seq<Op>, r: seq<Item>)
    requires InOrder(h, r) && |r| == 128
    ensures LeastRecent(h, r, r[127].key)
  {
  }

  /** A key that is not among the first `n` items. */
  lemma {:induction false} NotBefore(r: seq<Item>, key: string, n: nat)
    requires n <= |r| && n <= Find(r, key)
    ensures !Has(r[..n], key)
  {
    assert forall j :: 0 <= j < n ==> r[..n][j].key != key;
  }

  lemma {:induction false} WhoAfterGet(r: seq<Item>, k: string, key: string)
    ensures Has(After(r, Get(k)), key) <==> Has(r, key)
  {
    var i, r' := Find(r, k), After(r, Get(k));
    HasAt(r, key);
    HasAt(r', key);
    if i < |r| {
      assert r'[0] == r[i] && forall j :: 0 <= j < |r| && j != i ==> r'[if j < i then j + 1 else j] == r[j];
    }
  }

  lemma {:induction false} WhoAfterDelete(r: seq<Item>, k: string, key: string)
    requires DistinctKeys(r)
    ensures Has(After(r, Delete(k)), key) <==> Has(r, key) && key != k
  {
    var i, r' := Find(r, k), After(r, Delete(k));
    HasAt(r, key);
    HasAt(r', key);
    if i < |r| {
      assert forall j :: 0 <= j < |r| && j != i ==> r'[if j < i then j else j - 1] == r[j];
    }
  }
}
