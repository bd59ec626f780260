/** What the two v1 indexes share: map entries that may name a cache slot, and
    cache slots that name an entry through a map iterator. */
module SlotCache {

  const CACHE_SIZE: nat := 1500

  datatype Option<T> = None | Some(value: T)

  /** A map entry: its cache slot (-1 for none), its place in the store, and
      the identity of the map node, which iterators hold on to. */
  datatype Entry = Entry(slot: int, at: nat, node: nat)

  /** An iterator: one past the end, or the node that was made for `key`. */
  datatype Iter = End | At(key: string, node: nat)

  type Index = map<string, Entry>

  /** Only an iterator whose node is still in the map designates an entry; a
      stale one designates nothing. */
  predicate Designates(it: Iter, kv: Index) {
    it.At? && it.key in kv && kv[it.key].node == it.node
  }

  /** Writing -1 into the slot field through an iterator. */
  function Unslot(kv: Index, it: Iter): (r: Index) {
    if Designates(it, kv) then kv[it.key := kv[it.key].(slot := -1)] else kv
  }

  /** Every entry that names a slot is the entry that slot designates. The
      converse does not hold: an older slot may still designate the entry. */
  ghost predicate Linked(kv: Index, element: seq<Iter>) {
    forall k :: k in kv ==>
      -1 <= kv[k].slot < |element| && (kv[k].slot != -1 ==> element[kv[k].slot] == At(k, kv[k].node))
  }

  /** Map nodes made so far have identities below `next`. */
  ghost predicate Numbered(kv: Index, element: seq<Iter>, next: nat) {
    && (forall k :: k in kv ==> kv[k].node < next)
    && (forall c :: 0 <= c < |element| && element[c].At? ==> element[c].node < next)
  }

  /** Emptying slot `c` leaves no entry naming it, and every other link as it was. */
  lemma UnslotKeepsLinks(kv: Index, element: seq<Iter>, c: nat)
    requires Linked(kv, element) && c < |element|
    ensures var kv' := Unslot(kv, element[c]);
      && kv'.Keys == kv.Keys
      && Linked(kv', element[c := End])
      && forall k :: k in kv ==>
           && kv'[k].slot != c && kv'[k].at == kv[k].at && kv'[k].node == kv[k].node
           && (kv'[k].slot == kv[k].slot || kv'[k].slot == -1)
  {
    var kv' := Unslot(kv, element[c]);
    forall k | k in kv ensures kv'[k].slot != c {
      assert kv[k].slot == c ==> element[c] == At(k, kv[k].node);
    }
  }

  lemma UnslotKeepsPlaces(kv: Index, it: Iter)
    ensures Unslot(kv, it).Keys == kv.Keys && forall k :: k in kv ==> Unslot(kv, it)[k].at == kv[k].at
  {
  }

  // ---- entries, slots and contents ----

  /** Every live key has an entry, and a key's slot holds the key's value. */
  ghost predicate CacheAgrees(kv: Index, element: seq<Iter>, values: seq<string>, next: nat, contents: map<string, string>) {
    && kv.Keys == contents.Keys
    && |values| == |element|
    && Linked(kv, element)
    && Numbered(kv, element, next)
    && forall k :: k in kv && kv[k].slot != -1 ==> values[kv[k].slot] == contents[k]
  }

  lemma NewEntryAgrees(kv: Index, element: seq<Iter>, values: seq<string>, next: nat, contents: map<string, string>,
                       key: string, at: nat, value: string)
    requires CacheAgrees(kv, element, values, next, contents) && key !in kv
    ensures CacheAgrees(kv[key := Entry(-1, at, next)], element, values, next + 1, contents[key := value])
  {
  }

  lemma DroppedEntryAgrees(kv: Index, element: seq<Iter>, values: seq<string>, next: nat, contents: map<string, string>, key: string)
    requires CacheAgrees(kv, element, values, next, contents)
    ensures CacheAgrees(kv - {key}, element, values, next, contents - {key})
  {
  }

  lemma EmptiedSlotAgrees(kv: Index, element: seq<Iter>, values: seq<string>, next: nat, contents: map<string, string>,
                          c: nat, value: string)
    requires CacheAgrees(kv, element, values, next, contents) && c < |element|
    ensures CacheAgrees(Unslot(kv, element[c]), element[c := End], values[c := value], next, contents)
  {
    UnslotKeepsLinks(kv, element, c);
  }

  lemma FilledSlotAgrees(kv: Index, element: seq<Iter>, values: seq<string>, next: nat, contents: map<string, string>,
                         c: nat, key: string)
    requires CacheAgrees(kv, element, values, next, contents) && c < |element| && element[c].End? && key in kv
    ensures CacheAgrees(kv[key := kv[key].(slot := c)], element[c := At(key, kv[key].node)],
                        values[c := contents[key]], next, contents)
  {
  }
}
