/** The cache of the second server: a doubly linked list behind a sentinel,
    most recent first, with an index from keys to nodes. */
module LruCache {
  import opened Recency

  /** A list node with its own copy of the cached key and value. */
  class LruNode {
    const key: string
    const value: string
    var next: LruNode?
    var prev: LruNode?

    constructor (key: string, value: string)
      ensures this.key == key && this.value == value && next == null && prev == null
    {
      this.key, this.value := key, value;
      next, prev := null, null;
    }

    /** Takes the node out from between its neighbours. */
    method Unlink()
      modifies this, prev, next
      ensures prev == null && next == null
      ensures var p, n := old(prev), old(next);
        && (p != null && p != this ==> p.next == n && (p != n ==> p.prev == old(p.prev)))
        && (n != null && n != this ==> n.prev == p && (p != n ==> n.next == old(n.next)))
    {
      if prev != null { prev.next := next; }
      if next != null { next.prev := prev; }
      prev := null;
      next := null;
    }
  }

  ghost predicate Distinct(chain: seq<LruNode>) {
    forall i, j :: 0 <= i < j < |chain| ==> chain[i] != chain[j]
  }

  /** `next` runs through the chain and ends it, `prev` mirrors it. */
  ghost predicate Links(chain: seq<LruNode>)
    reads chain
  {
    && (forall i {:trigger chain[i].next} :: 0 <= i < |chain| ==> chain[i].next == if i + 1 < |chain| then chain[i + 1] else null)
    && (forall i {:trigger chain[i].prev} :: 0 <= i < |chain| ==> chain[i].prev == if i > 0 then chain[i - 1] else null)
  }

  ghost predicate Listed(chain: seq<LruNode>, node: LruNode) {
    exists i :: 1 <= i < |chain| && chain[i] == node
  }

  /** The index maps exactly the keys in the chain, each to its own node. */
  ghost predicate Indexes(index: map<string, LruNode>, chain: seq<LruNode>) {
    && |index| == |chain| - 1
    && (forall i :: 1 <= i < |chain| ==> chain[i].key in index && index[chain[i].key] == chain[i])
    && (forall k :: k in index ==> index[k].key == k && Listed(chain, index[k]))
  }

  ghost function Items(chain: seq<LruNode>): (r: seq<Item>)
    requires |chain| >= 1
    ensures |r| == |chain| - 1
    ensures forall i :: 0 <= i < |r| ==> r[i] == Item(chain[i + 1].key, chain[i + 1].value)
  {
    seq(|chain| - 1, i requires 0 <= i < |chain| - 1 => Item(chain[i + 1].key, chain[i + 1].value))
  }

  lemma ItemsRemoved(chain: seq<LruNode>, i: nat)
    requires 1 <= i < |chain|
    ensures Items(RemoveAt(chain, i)) == RemoveAt(Items(chain), i - 1)
  {
  }

  lemma ItemsInserted(chain: seq<LruNode>, node: LruNode)
    requires |chain| >= 1
    ensures Items([chain[0], node] + chain[1..]) == [Item(node.key, node.value)] + Items(chain)
  {
  }

  /** The index knows where a key is in the chain. */
  lemma KeyPosition(index: map<string, LruNode>, chain: seq<LruNode>, key: string) returns (i: nat)
    requires |chain| >= 1 && Distinct(chain) && Indexes(index, chain)
    ensures DistinctKeys(Items(chain))
    ensures key !in index ==> !Has(Items(chain), key)
    ensures key in index ==> 1 <= i < |chain| && chain[i] == index[key] && Find(Items(chain), key) == i - 1
  {
    if key in index {
      assert Listed(chain, index[key]);
      i :| 1 <= i < |chain| && chain[i] == index[key];
      FindUnique(Items(chain), key, i - 1);
    } else {
      i := 0;
    }
  }

  lemma IndexAdded(index: map<string, LruNode>, chain: seq<LruNode>, node: LruNode)
    requires |chain| >= 1 && Indexes(index, chain) && node.key !in index
    ensures Indexes(index[node.key := node], [chain[0], node] + chain[1..])
  {
    var index', chain' := index[node.key := node], [chain[0], node] + chain[1..];
    assert chain'[1] == node;
    forall k | k in index ensures Listed(chain', index[k]) {
      assert Listed(chain, index[k]);
      var i :| 1 <= i < |chain| && chain[i] == index[k];
      assert chain'[i + 1] == chain[i];
    }
  }

  lemma IndexRemoved(index: map<string, LruNode>, chain: seq<LruNode>, i: nat)
    requires 1 <= i < |chain| && Distinct(chain) && Indexes(index, chain)
    ensures Indexes(index - {chain[i].key}, RemoveAt(chain, i))
  {
    var index', chain' := index - {chain[i].key}, RemoveAt(chain, i);
    forall k | k in index' ensures Listed(chain', index'[k]) {
      assert Listed(chain, index[k]);
      var j :| 1 <= j < |chain| && chain[j] == index[k];
      assert chain'[if j < i then j else j - 1] == chain[j];
    }
  }

  lemma IndexMoved(index: map<string, LruNode>, chain: seq<LruNode>, i: nat)
    requires 1 <= i < |chain| && Distinct(chain) && Indexes(index, chain)
    ensures Indexes(index, [chain[0], chain[i]] + RemoveAt(chain, i)[1..])
  {
    var rest := RemoveAt(chain, i);
    IndexRemoved(index, chain, i);
    IndexAdded(index - {chain[i].key}, rest, chain[i]);
    assert index == (index - {chain[i].key})[chain[i].key := chain[i]];
  }

  /** The chain with node `i` moved right after the sentinel. */
  ghost function Moved(chain: seq<LruNode>, i: nat): seq<LruNode>
    requires 1 <= i < |chain|
  {
    [chain[0], chain[i]] + RemoveAt(chain, i)[1..]
  }

  lemma GetItems(index: map<string, LruNode>, chain: seq<LruNode>, key: string) returns (i: nat)
    requires |chain| >= 1 && Distinct(chain) && Indexes(index, chain)
    ensures key !in index ==> Items(chain) == After(Items(chain), Get(key))
    ensures key in index ==> 1 <= i < |chain| && chain[i] == index[key] && Indexes(index, Moved(chain, i))
    ensures key in index ==> Items(Moved(chain, i)) == After(Items(chain), Get(key))
  {
    i := KeyPosition(index, chain, key);
    if key in index {
      IndexMoved(index, chain, i);
      ItemsRemoved(chain, i);
      ItemsInserted(RemoveAt(chain, i), chain[i]);
    }
  }

  lemma AddItems(index: map<string, LruNode>, chain: seq<LruNode>, node: LruNode)
    requires |chain| >= 1 && Indexes(index, chain) && node.key !in index
    ensures var longer := [chain[0], node] + chain[1..];
      && Indexes(index[node.key := node], longer)
      && After(Items(chain), Add(node.key, node.value))
         == if |chain| > MAX_CACHED then Items(RemoveAt(longer, |longer| - 1)) else Items(longer)
  {
    IndexAdded(index, chain, node);
    ItemsInserted(chain, node);
    ItemsRemoved([chain[0], node] + chain[1..], |chain|);
  }

  lemma DeleteItems(index: map<string, LruNode>, chain: seq<LruNode>, key: string) returns (i: nat)
    requires |chain| >= 1 && Distinct(chain) && Indexes(index, chain)
    ensures key !in index ==> Items(chain) == After(Items(chain), Delete(key))
    ensures key in index ==> 1 <= i < |chain| && chain[i] == index[key]
    ensures key in index ==> index[key].key == key && Indexes(index - {key}, RemoveAt(chain, i))
    ensures key in index ==> Items(RemoveAt(chain, i)) == After(Items(chain), Delete(key))
  {
    i := KeyPosition(index, chain, key);
    if key in index {
      IndexRemoved(index, chain, i);
      ItemsRemoved(chain, i);
    }
  }

  class Cache {
    var index: map<string, LruNode>
    const lruHead: LruNode
    var tail: LruNode
    var totalCached: int

    /** The sentinel and the nodes after it, and all calls so far. */
    ghost var chain: seq<LruNode>
    ghost var history: seq<Op>

    ghost predicate Linked()
      reads this`chain, this`tail, chain
    {
      && |chain| >= 1 && chain[0] == lruHead && tail == chain[|chain| - 1]
      && Distinct(chain) && Links(chain)
    }

    ghost predicate Bounded()
      reads this`chain, this`tail, this`index, this`totalCached, chain
    {
      && Linked() && Indexes(index, chain)
      && totalCached == |chain| - 1
      && totalCached <= MAX_CACHED
    }

    ghost predicate Valid()
      reads this, chain
    {
      Bounded() && Legal(history) && Items(chain) == Cached(history)
    }

    constructor ()
      ensures Valid() && history == [] && fresh(chain)
    {
      var head := new LruNode("", "");
      lruHead, tail := head, head;
      totalCached := 0;
      index := map[];
      chain, history := [head], [];
    }

    /** Links a node in right after the sentinel. */
    method AddToHead(node: LruNode)
      requires Linked() && node !in chain
      modifies this`tail, this`chain, node, chain
      ensures Linked() && chain == [lruHead, node] + old(chain)[1..]
    {
      node.next := lruHead.next;
      node.prev := lruHead;
      if node.next != null {
        node.next.prev := node;
      }
      lruHead.next := node;
      if tail == lruHead { tail := node; }
      chain := [lruHead, node] + chain[1..];
    }

    /** Takes a node other than the sentinel out of the list. */
    method TakeOut(node: LruNode, ghost i: nat)
      requires Linked() && 1 <= i < |chain| && chain[i] == node
      modifies this`tail, this`chain, chain
      ensures Linked() && chain == RemoveAt(old(chain), i) && node !in chain
    {
      if node == tail {
        tail := tail.prev;
      }
      node.Unlink();
      chain := RemoveAt(chain, i);
    }

    /** Takes a node out of the list, of the index and of the count. */
    method Drop(node: LruNode, ghost i: nat)
      requires Linked() && 1 <= i < |chain| && chain[i] == node
      modifies this`index, this`tail, this`totalCached, this`chain, chain
      ensures Linked() && chain == RemoveAt(old(chain), i) && forall n :: n in chain ==> n in old(chain)
      ensures index == old(index) - {node.key} && totalCached == old(totalCached) - 1
    {
      TakeOut(node, i);
      index := index - {node.key};
      totalCached := totalCached - 1;
    }

    /** Drops the least recent node. */
    method RemoveTail()
      requires Linked() && Indexes(index, chain) && |chain| >= 2
      modifies this`index, this`tail, this`totalCached, this`chain, chain
      ensures Linked() && Indexes(index, chain)
      ensures chain == RemoveAt(old(chain), |old(chain)| - 1)
      ensures totalCached == old(totalCached) - 1
    {
      IndexRemoved(index, chain, |chain| - 1);
      Drop(tail, |chain| - 1);
    }

    method MoveToHead(node: LruNode, ghost i: nat)
      requires Linked() && 1 <= i < |chain| && chain[i] == node
      modifies this`tail, this`chain, chain
      ensures Linked() && chain == Moved(old(chain), i) && forall n :: n in chain ==> n in old(chain)
    {
      TakeOut(node, i);
      AddToHead(node);
    }

    /** The list has just been changed by one more call. */
    ghost method Record(op: Op)
      requires Bounded() && Legal(history) && (op.Add? ==> !Has(Cached(history), op.key))
      requires Items(chain) == After(Cached(history), op)
      modifies this`history
      ensures Valid() && history == old(history) + [op]
    {
      OneMoreCall(history, op);
      history := history + [op];
    }

    /** Finds a key's node, with the value the key was last added with, and makes
        it the most recent one. */
    method GetCache(key: string) returns (node: LruNode?)
      requires Valid()
      modifies this`tail, this`chain, this`history, chain
      ensures Valid() && history == old(history) + [Get(key)]
      ensures node == (if key in index then index[key] else null)
      ensures node != null ==> node.key == key && LastAdded(old(history), key) == [node.value]
      ensures forall n :: n in chain ==> n in old(chain)
    {
      assert key in index ==> index[key].key == key && LastAdded(history, key) == [index[key].value] by {
        if key in index { FoundValue(key); }
      }
      node := Touch(key);
      Record(Get(key));
    }

    method Touch(key: string) returns (node: LruNode?)
      requires Bounded()
      modifies this`tail, this`chain, chain
      ensures Bounded()
      ensures node == (if key in index then index[key] else null)
      ensures Items(chain) == After(old(Items(chain)), Get(key))
      ensures forall n :: n in chain ==> n in old(chain)
    {
      ghost var was := chain;
      ghost var i := GetItems(index, chain, key);
      node := Fetch(key, i);
      assert chain == if key in index then Moved(was, i) else was;
    }

    method Fetch(key: string, ghost i: nat) returns (node: LruNode?)
      requires Bounded()
      requires key in index ==> 1 <= i < |chain| && chain[i] == index[key] && Indexes(index, Moved(chain, i))
      modifies this`tail, this`chain, chain
      ensures Bounded()
      ensures node == (if key in index then index[key] else null)
      ensures chain == (if key in index then Moved(old(chain), i) else old(chain))
      ensures forall n :: n in chain ==> n in old(chain)
    {
      if key !in index {
        return null;
      }
      node := index[key];
      MoveToHead(node, i);
    }

    lemma {:induction false} FoundValue(key: string)
      requires Valid() && key in index
      ensures index[key].key == key && LastAdded(history, key) == [index[key].value]
    {
      var i := KeyPosition(index, chain, key);
      CachedInOrder(history);
    }

    /** Links, indexes and counts a new node. */
    method Push(node: LruNode)
      requires Linked() && Indexes(index, chain) && node !in chain && node.key !in index
      modifies this`index, this`tail, this`totalCached, this`chain, node, chain
      ensures Linked() && Indexes(index, chain)
      ensures chain == [lruHead, node] + old(chain)[1..] && index == old(index)[node.key := node]
      ensures totalCached == old(totalCached) + 1
      ensures forall n :: n in chain ==> n in old(chain) || n == node
    {
      IndexAdded(index, chain, node);
      index := index[node.key := node];
      AddToHead(node);
      totalCached := totalCached + 1;
    }

    /** Drops the least recent node if there is one too many. */
    method Trim()
      requires Linked() && Indexes(index, chain)
      requires totalCached == |chain| - 1 <= MAX_CACHED + 1
      modifies this`index, this`tail, this`totalCached, this`chain, chain
      ensures Bounded()
      ensures chain == if |old(chain)| - 1 > MAX_CACHED then RemoveAt(old(chain), |old(chain)| - 1) else old(chain)
      ensures forall n :: n in chain ==> n in old(chain)
    {
      if totalCached > MAX_CACHED {
        RemoveTail();
      }
    }

    /** Adds an absent key; over 128, the least recent node goes. */
    method AddToCache(key: string, value: string)
      requires Valid() && key !in index
      modifies this, chain
      ensures Valid() && history == old(history) + [Add(key, value)]
      ensures forall n :: n in chain ==> n in old(chain) || fresh(n)
    {
      ghost var _ := KeyPosition(index, chain, key);
      PushNew(key, value);
      Record(Add(key, value));
    }

    method PushNew(key: string, value: string)
      requires Bounded() && key !in index
      modifies this`index, this`tail, this`totalCached, this`chain, chain
      ensures Bounded()
      ensures Items(chain) == After(old(Items(chain)), Add(key, value))
      ensures forall n :: n in chain ==> n in old(chain) || fresh(n)
    {
      var node := new LruNode(key, value);
      ghost var were, was := index, chain;
      Push(node);
      ghost var longer := chain;
      Trim();
      assert Items(chain) == After(Items(was), Add(key, value)) by {
        AddItems(were, was, node);
        assert chain == if |was| > MAX_CACHED then RemoveAt(longer, |longer| - 1) else longer;
      }
    }

    method DeleteCache(key: string)
      requires Valid()
      modifies this, chain
      ensures Valid() && history == old(history) + [Delete(key)] && index == old(index) - {key}
      ensures forall n :: n in chain ==> n in old(chain)
    {
      ghost var i := DeleteItems(index, chain, key);
      DropKey(key, i);
      Record(Delete(key));
    }

    method DropKey(key: string, ghost i: nat)
      requires Bounded()
      requires key in index ==> 1 <= i < |chain| && chain[i] == index[key] && index[key].key == key
      requires key in index ==> Indexes(index - {key}, RemoveAt(chain, i))
      modifies this`index, this`tail, this`totalCached, this`chain, chain
      ensures Bounded() && index == old(index) - {key}
      ensures chain == (if key in old(index) then RemoveAt(old(chain), i) else old(chain))
      ensures forall n :: n in chain ==> n in old(chain)
    {
      if key !in index {
        return;
      }
      Drop(index[key], i);
    }

    /** One call. */
    method Perform(op: Op)
      requires Valid() && Legal(history + [op])
      modifies this, chain
      ensures Valid() && history == old(history) + [op]
      ensures forall n :: n in chain ==> n in old(chain) || fresh(n)
    {
      LegalCall(op);
      match op {
        case Add(key, value) => AddToCache(key, value);
        case Get(key) => var _ := GetCache(key);
        case Delete(key) => DeleteCache(key);
      }
    }

    lemma {:induction false} LegalCall(op: Op)
      requires Valid() && Legal(history + [op])
      ensures op.Add? ==> op.key !in index
    {
      assert (history + [op])[..|history|] == history;
      ghost var _ := KeyPosition(index, chain, op.key);
    }

    /** Any run of calls that adds only absent keys. */
    method PerformAll(ops: seq<Op>)
      requires Valid() && Legal(history + ops)
      modifies this, chain
      ensures Valid() && history == old(history) + ops
      ensures forall n :: n in chain ==> n in old(chain) || fresh(n)
    {
      ghost var h := history;
      for i := 0 to |ops|
        invariant Valid() && history == h + ops[..i]
        invariant forall n :: n in chain ==> n in old(chain) || fresh(n)
      {
        LegalNext(h, ops, i);
        assert forall j :: 0 <= j < |chain| ==> chain[j] in chain;
        Perform(ops[i]);
      }
      assert ops[..|ops|] == ops;
    }
  }
}
