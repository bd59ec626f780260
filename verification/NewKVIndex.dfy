/** The second key-value index: records appended to an array and expired in
    place, with the same cache slots as the first. */
module NewKVIndex {
  import opened FirstRecord
  import opened RecordArray
  import opened Requests
  import opened SlotCache

  ghost function Values(cache: seq<Record>): (v: seq<string>)
    ensures |v| == |cache| && forall c :: 0 <= c < |cache| ==> v[c] == cache[c].value
  {
    seq(|cache|, c requires 0 <= c < |cache| => cache[c].value)
  }

  /** Erasing the slot of an entry made by mistake for an absent key. */
  lemma StrayEraseAgrees(kv: Index, element: seq<Iter>, values: seq<string>, next: nat, contents: map<string, string>, key: string)
    requires CacheAgrees(kv, element, values, next, contents) && key !in kv && |element| > 0
    ensures Unslot(kv[key := Entry(0, 0, next)], element[0]) - {key} == Unslot(kv, element[0])
    ensures CacheAgrees(Unslot(kv, element[0]), element[0 := End], values, next + 1, contents)
  {
    UnslotKeepsLinks(kv, element, 0);
  }

  /** No entry names a slot yet. */
  ghost predicate Unused(kv: Index) { forall k :: k in kv ==> kv[k].slot == -1 && kv[k].node == 0 }

  lemma UnusedAgrees(kv: Index, element: seq<Iter>, values: seq<string>, records: seq<Record>, size: nat)
    requires Unused(kv) && |element| == |values| && Table(records, size, kv)
    requires forall c :: 0 <= c < |element| ==> element[c] == End
    ensures CacheAgrees(kv, element, values, 1, Contents(records, kv))
  {
  }

  lemma Restarted(records: seq<Record>, wasSize: nat, was: Index, size: nat, kv: Index, element: seq<Iter>, values: seq<string>)
    requires IsScan(records, size, kv) && Unused(kv) && |element| == |values|
    requires forall c :: 0 <= c < |element| ==> element[c] == End
    ensures Table(records, wasSize, was) ==> (size == wasSize <==> NoBlankBelow(records, wasSize))
    ensures Table(records, wasSize, was) && NoBlankBelow(records, wasSize) ==>
      (Table(records, size, kv) && Lost(records, kv) == {}
       && Contents(records, kv) == Contents(records, was) - Lost(records, was)
       && CacheAgrees(kv, element, values, 1, Contents(records, kv)))
  {
    if Table(records, wasSize, was) {
      ScanRebuildsTable(records, wasSize, was, size, kv);
      if size == wasSize { UnusedAgrees(kv, element, values, records, size); }
    }
  }

  lemma Overwritten(m: map<string, string>, key: string, value: string)
    ensures (m - {key})[key := value] == m[key := value]
  {
  }

  lemma NotFirst(store: seq<Record>, size: nat, kv: Index, key: string)
    requires key !in kv
    ensures Touched(FirstOf(store, size, kv), key) == FirstOf(store, size, kv)
  {
  }

  /** A table depends on the places of its entries only. */
  lemma MovedEntries(store: seq<Record>, size: nat, kv: Index, kv': Index)
    requires Table(store, size, kv)
    requires kv'.Keys == kv.Keys && forall k :: k in kv ==> kv'[k].at == kv[k].at
    ensures Table(store, size, kv') && Contents(store, kv') == Contents(store, kv)
    ensures FirstOf(store, size, kv') == FirstOf(store, size, kv)
  {
    forall i | 0 <= i < size ensures Owned(store, kv', i) { assert Owned(store, kv, i); }
  }

  lemma Repacked(records: seq<Record>, size: nat, were: Index, store: seq<Record>, kv: Index, element: seq<Iter>,
                 values: seq<string>, next: nat, next': nat)
    requires Table(records, size, were) && CacheAgrees(were, element, values, next, Contents(records, were))
    requires store == Packed(records, size) && IndexOf(ValidRecords(records[..size]), kv)
    requires NewlyMade(kv, next') && next' >= next
    ensures Table(store, |ValidRecords(records[..size])|, kv) && Lost(store, kv) == {}
    ensures Contents(store, kv) == Contents(records, were) - Lost(records, were)
    ensures CacheAgrees(kv, element, values, next', Contents(store, kv))
  {
    CompactedTable(records, size, were, store, kv);
    ContentsOf(store, |ValidRecords(records[..size])|, kv);
  }

  /** After a run from an empty array, a restart gives the map of the run, without
      the key that was set first of all and never changed since, if a key was
      deleted later that was not there. */
  lemma {:induction false} RestartAfterRun(store: seq<Record>, size: nat, kv: Index, qs: seq<Request>, size': nat, kv': Index)
    requires Table(store, size, kv) && Named(store, size) && IsScan(store, size', kv')
    requires Contents(store, kv) == AfterAll(map[], qs) && FirstOf(store, size, kv) == FirstAll(NoRecord, map[], qs)
    ensures size' == size && Table(store, size, kv')
    ensures forall key :: key in Contents(store, kv') <==> key in AfterAll(map[], qs) && !SetFirstThenStray(qs, key)
    ensures forall key :: key in Contents(store, kv') ==> Contents(store, kv')[key] == AfterAll(map[], qs)[key]
  {
    NamedIsNotBlank(store, size);
    ScanRebuildsTable(store, size, kv, size', kv');
    LostIsFirst(store, size, kv);
    forall key ensures key in LostOf(FirstAll(NoRecord, map[], qs)) <==> SetFirstThenStray(qs, key) {
      OnlyFirstIsLost(qs, key);
    }
  }

  class KVIndex {
    var kv: Index
    var fileSize: nat
    var size: nat
    var cacheIndex: int
    var nextNode: nat
    const cache: array<Record>
    const cacheElement: array<Iter>
    var store: array<Record>

    ghost predicate StoreValid()
      reads this, store
    {
      fileSize == store.Length >= 1 && Table(store[..], size, kv)
    }

    ghost predicate CacheValid()
      reads this, store, cache, cacheElement
    {
      && cache.Length == CACHE_SIZE && cacheElement.Length == CACHE_SIZE
      && store != cache && -1 <= cacheIndex < CACHE_SIZE
      && CacheAgrees(kv, cacheElement[..], Values(cache[..]), nextNode, View())
    }

    ghost predicate Valid()
      reads this, store, cache, cacheElement
    {
      StoreValid() && CacheValid()
    }

    /** The plain map the index stands for. */
    ghost function View(): (m: map<string, string>)
      reads this, store
    {
      Contents(store[..], kv)
    }

    ghost function LostKeys(): (lost: set<string>)
      reads this, store
    {
      Lost(store[..], kv)
    }

    /** Which key has record 0. */
    ghost function AtFirst(): (f: First)
      reads this, store
    {
      FirstOf(store[..], size, kv)
    }

    /** The scan of Start: stops at the first blank record, and keeps each key's
        last valid record. */
    method Scan()
      requires fileSize == store.Length && kv == map[]
      modifies this`size, this`kv
      ensures IsScan(store[..], size, kv)
      ensures Unused(kv)
    {
      size := 0;
      var i := 0;
      while i < fileSize && store[i] != BLANK
        invariant i == size <= fileSize
        invariant Unused(kv)
        invariant forall j :: 0 <= j < i ==> store[j] != BLANK
        invariant forall k :: k in kv ==> kv[k].at < i && store[kv[k].at].key == k && store[kv[k].at].flag
        invariant forall j :: 0 <= j < i && store[j].flag ==> store[j].key in kv && j <= kv[store[j].key].at
      {
        size := i + 1;
        if store[i].flag {
          kv := kv[store[i].key := Entry(-1, i, 0)];
        }
        i := i + 1;
      }
    }

    /** Just after the scan. */
    ghost predicate Scanned()
      reads this, store, cache, cacheElement
    {
      && fileSize == store.Length && IsScan(store[..], size, kv) && Unused(kv) && nextNode == 1
      && cache.Length == CACHE_SIZE && cacheElement.Length == CACHE_SIZE && store != cache && cacheIndex == -1
      && forall c :: 0 <= c < CACHE_SIZE ==> cacheElement[..][c] == End
    }

    /** If the records are those of the table (`wasSize`, `was`), its size comes back
        exactly when no record below it is blank, and then all keys but a lost one. */
    lemma Restored(wasSize: nat, was: Index)
      requires Scanned() && Table(store[..], wasSize, was)
      ensures size == wasSize <==> NoBlankBelow(store[..], wasSize)
      ensures fileSize >= 1 && NoBlankBelow(store[..], wasSize) ==>
        Valid() && LostKeys() == {}
        && View() == Contents(store[..], was) - LostOf(FirstOf(store[..], wasSize, was))
    {
      LostIsFirst(store[..], wasSize, was);
      Restarted(store[..], wasSize, was, size, kv, cacheElement[..], Values(cache[..]));
    }

    /** Reads the record array back. */
    constructor Start(records: seq<Record>)
      ensures fresh(store) && fresh(cache) && fresh(cacheElement)
      ensures store[..] == records && Scanned()
    {
      kv := map[];
      nextNode, size, cacheIndex := 1, 0, -1;
      fileSize := |records|;
      store := new Record[|records|](i requires 0 <= i < |records| => records[i]);
      cache := new Record[CACHE_SIZE](_ => BLANK);
      cacheElement := new Iter[CACHE_SIZE](_ => End);
      new;
      Scan();
      assert store[..] == records;
    }

    /** Doubles the array; the new records are blank. */
    method Resize()
      requires Valid()
      modifies this`store, this`fileSize
      ensures Valid() && fresh(store) && fileSize == 2 * old(fileSize) && View() == old(View())
      ensures AtFirst() == old(AtFirst())
      ensures old(Named(store[..], size)) ==> Named(store[..], size)
    {
      DoubledTable(store[..], size, kv, fileSize);
      Remap();
    }

    /** Maps twice as many records; the old ones stay. */
    method Remap()
      requires fileSize == store.Length
      modifies this`store, this`fileSize
      ensures fresh(store) && fileSize == store.Length == 2 * old(fileSize)
      ensures store[..] == old(store[..]) + seq(old(fileSize), _ => BLANK)
    {
      var bigger := new Record[fileSize * 2](_ => BLANK);
      forall i | 0 <= i < fileSize { bigger[i] := store[i]; }
      store := bigger;
      fileSize := fileSize * 2;
    }

    method EraseCache(c: nat)
      requires c < cacheElement.Length
      modifies this`kv, cacheElement
      ensures kv == Unslot(old(kv), old(cacheElement[c]))
      ensures cacheElement[..] == old(cacheElement[..])[c := End]
    {
      if cacheElement[c] != End {
        kv := Unslot(kv, cacheElement[c]);
        cacheElement[c] := End;
      }
    }

    method ExpireAt(i: nat)
      requires i < store.Length
      modifies store
      ensures store[..] == Expire(old(store[..]), i)
    {
      store[i] := store[i].(flag := false);
    }

    /** Expires a live key's record. */
    method DeletePresent(key: string)
      requires Valid() && key in kv
      modifies this`kv, store, cacheElement
      ensures Valid() && store[..] == Expire(old(store[..]), old(kv[key].at))
      ensures View() == old(View()) - {key} && kv.Keys == old(kv.Keys) - {key}
      ensures AtFirst() == Touched(old(AtFirst()), key)
      ensures old(Named(store[..], size)) ==> Named(store[..], size)
    {
      ghost var records, were, was := store[..], kv, View();
      ExpireAt(kv[key].at);
      DropEntry(key, was);
      ExpiredTable(records, size, were, kv, key);
    }

    /** Empties slot `c`. */
    method EmptySlot(c: nat, ghost was: map<string, string>)
      requires CacheAgrees(kv, cacheElement[..], Values(cache[..]), nextNode, was) && c < cacheElement.Length
      modifies this`kv, cacheElement
      ensures CacheAgrees(kv, cacheElement[..], Values(cache[..]), nextNode, was) && cacheElement[c].End?
      ensures kv.Keys == old(kv.Keys) && forall k :: k in kv ==> kv[k].at == old(kv)[k].at
    {
      EmptiedSlotAgrees(kv, cacheElement[..], Values(cache[..]), nextNode, was, c, cache[c].value);
      UnslotKeepsPlaces(kv, cacheElement[c]);
      EraseCache(c);
    }

    /** Takes a key's entry out of the map, and out of its slot. */
    method DropEntry(key: string, ghost was: map<string, string>)
      requires CacheAgrees(kv, cacheElement[..], Values(cache[..]), nextNode, was) && key in kv
      modifies this`kv, cacheElement
      ensures CacheAgrees(kv, cacheElement[..], Values(cache[..]), nextNode, was - {key})
      ensures kv.Keys == old(kv.Keys) - {key} && forall k :: k in kv ==> kv[k].at == old(kv)[k].at
    {
      if kv[key].slot != -1 {
        EmptySlot(kv[key].slot, was);
      }
      DroppedEntryAgrees(kv, cacheElement[..], Values(cache[..]), nextNode, was, key);
      kv := kv - {key};
    }

    /** Makes an entry for an absent key, with record 0 and slot 0, and takes it
        out again. */
    method DropStrayEntry(key: string, ghost was: map<string, string>)
      requires CacheAgrees(kv, cacheElement[..], Values(cache[..]), nextNode, was) && key !in kv && cacheElement.Length > 0
      modifies this`kv, this`nextNode, cacheElement
      ensures CacheAgrees(kv, cacheElement[..], Values(cache[..]), nextNode, was)
      ensures kv.Keys == old(kv.Keys) && forall k :: k in kv ==> kv[k].at == old(kv)[k].at
    {
      StrayEraseAgrees(kv, cacheElement[..], Values(cache[..]), nextNode, was, key);
      UnslotKeepsPlaces(kv, cacheElement[0]);
      kv := kv[key := Entry(0, 0, nextNode)];
      nextNode := nextNode + 1;
      EraseCache(0);
      kv := kv - {key};
    }

    /** Expires a key's record. For an absent key the map makes an entry that
        names record 0 and slot 0, so it is record 0 that expires: the key that
        has it, if there is one, is lost. */
    method Delete(key: string)
      requires Valid()
      modifies this`kv, this`nextNode, store, cacheElement
      ensures Valid() && View() == old(View()) - {key}
      ensures store[..] == Expire(old(store[..]), if key in old(kv) then old(kv)[key].at else 0)
      ensures AtFirst() == FirstAfter(old(AtFirst()), old(View()), Request.Delete(key))
      ensures old(Named(store[..], size)) ==> Named(store[..], size)
    {
      ContentsOf(store[..], size, kv);
      if key in kv {
        DeletePresent(key);
      } else {
        DeleteAbsent(key);
      }
    }

    method DeleteAbsent(key: string)
      requires Valid() && key !in kv
      modifies this`kv, this`nextNode, store, cacheElement
      ensures Valid() && View() == old(View()) - {key}
      ensures store[..] == Expire(old(store[..]), 0)
      ensures LostKeys() == old(LostKeys()) + old(set k | k in kv && kv[k].at == 0)
      ensures AtFirst() == Expired(old(AtFirst()))
      ensures old(Named(store[..], size)) ==> Named(store[..], size)
    {
      ghost var records, were, was := store[..], kv, View();
      ContentsOf(records, size, kv);
      assert was == was - {key};
      ExpireAt(0);
      DropStrayEntry(key, was);
      StrayExpire(records, size, were, kv);
    }

    method Append(key: string, value: string)
      requires Valid() && key !in kv && size < fileSize
      modifies this`kv, this`nextNode, this`size, store
      ensures Valid() && View() == old(View())[key := value]
      ensures size == old(size) + 1 && store[old(size)] == Record(key, value, true)
      ensures AtFirst() == Added(old(AtFirst()), key)
      ensures old(Named(store[..], size)) && key != "" ==> Named(store[..], size)
    {
      AppendedTable(store[..], size, kv, key, value, nextNode);
      NewEntryAgrees(kv, cacheElement[..], Values(cache[..]), nextNode, View(), key, size, value);
      Put(key, value);
    }

    method Put(key: string, value: string)
      requires size < store.Length && store != cache
      modifies this`kv, this`nextNode, this`size, store
      ensures store[..] == old(store[..])[old(size) := Record(key, value, true)]
      ensures kv == old(kv)[key := Entry(-1, old(size), old(nextNode))]
      ensures nextNode == old(nextNode) + 1 && size == old(size) + 1 && cache[..] == old(cache[..])
    {
      store[size] := Record(key, value, true);
      kv := kv[key := Entry(-1, size, nextNode)];
      nextNode := nextNode + 1;
      size := size + 1;
    }

    method MakeRoom()
      requires Valid()
      modifies this`store, this`fileSize
      ensures Valid() && size < fileSize && View() == old(View()) && AtFirst() == old(AtFirst())
      ensures fileSize == old(if size == fileSize then 2 * fileSize else fileSize)
      ensures store == old(store) || fresh(store)
      ensures old(Named(store[..], size)) ==> Named(store[..], size)
    {
      if size == fileSize {
        Resize();
      }
    }

    method Forget(key: string)
      requires Valid()
      modifies this`kv, store, cacheElement
      ensures Valid() && View() == old(View()) - {key} && key !in kv
      ensures AtFirst() == Touched(old(AtFirst()), key)
      ensures old(Named(store[..], size)) ==> Named(store[..], size)
    {
      ContentsOf(store[..], size, kv);
      if key in kv {
        DeletePresent(key);
      } else {
        NotFirst(store[..], size, kv, key);
      }
    }

    /** Expires the key's record if it has one and appends a new one. */
    method Set(key: string, value: string) returns (r: int)
      requires Valid()
      modifies this, store, cacheElement
      ensures Valid() && r == 0 && (store == old(store) || fresh(store))
      ensures View() == old(View())[key := value]
      ensures size == old(size) + 1 && store[old(size)] == Record(key, value, true)
      ensures fileSize == old(if size == fileSize then 2 * fileSize else fileSize)
      ensures AtFirst() == FirstAfter(old(AtFirst()), old(View()), Request.Set(key, value))
      ensures old(Named(store[..], size)) && key != "" ==> Named(store[..], size)
    {
      Overwritten(View(), key, value);
      MakeRoom();
      Forget(key);
      Append(key, value);
      r := 0;
    }

    /** Goes to the next slot in turn and empties it. */
    method NextSlot()
      requires Valid()
      modifies this`kv, this`cacheIndex, cacheElement
      ensures Valid() && View() == old(View()) && kv.Keys == old(kv.Keys) && AtFirst() == old(AtFirst())
      ensures cacheIndex == (old(cacheIndex) + 1) % CACHE_SIZE && cacheElement[cacheIndex].End?
    {
      ghost var were := kv;
      cacheIndex := (cacheIndex + 1) % CACHE_SIZE;
      EmptySlot(cacheIndex, View());
      MovedEntries(store[..], size, were, kv);
    }

    /** Copies the key's record into the empty slot `c`. */
    method Fill(key: string, c: nat)
      requires Valid() && key in kv && c < CACHE_SIZE && cacheElement[c].End?
      modifies this`kv, cache, cacheElement
      ensures Valid() && View() == old(View()) && kv == old(kv)[key := old(kv)[key].(slot := c)]
      ensures AtFirst() == old(AtFirst())
      ensures cacheIndex == old(cacheIndex)
    {
      ghost var were, element, values := kv, cacheElement[..], Values(cache[..]);
      var record := store[kv[key].at];
      ContentsOf(store[..], size, kv);
      FilledSlotAgrees(kv, element, values, nextNode, View(), c, key);
      cache[c] := record;
      cacheElement[c] := At(key, kv[key].node);
      kv := kv[key := kv[key].(slot := c)];
      assert cacheElement[..] == element[c := At(key, were[key].node)] && Values(cache[..]) == values[c := record.value];
      MovedEntries(store[..], size, were, kv);
    }

    /** The key's value: from its slot if it has one, else from its record. */
    function Read(key: string): (text: string)
      requires Valid() && key in kv
      reads this, store, cache, cacheElement
      ensures key in View() && text == View()[key]
    {
      if kv[key].slot != -1 then cache[kv[key].slot].value else store[kv[key].at].value
    }

    /** Copies the key's record into the next slot in turn. */
    method Remember(key: string)
      requires Valid() && key in kv
      modifies this`kv, this`cacheIndex, cache, cacheElement
      ensures Valid() && View() == old(View()) && AtFirst() == old(AtFirst())
      ensures cacheIndex == (old(cacheIndex) + 1) % CACHE_SIZE && kv[key].slot == cacheIndex
    {
      NextSlot();
      Fill(key, cacheIndex);
    }

    method Get(key: string) returns (ret: string)
      requires Valid() && key in kv
      modifies this`kv, this`cacheIndex, cache, cacheElement
      ensures Valid() && View() == old(View()) && ret == View()[key] && AtFirst() == old(AtFirst())
      ensures cacheIndex == (old(cacheIndex) + 1) % 1500 && kv[key].slot == cacheIndex
    {
      ret := Read(key);
      Remember(key);
    }

    method Exist(key: string) returns (found: bool)
      requires Valid()
      ensures found <==> key in View()
    {
      ContentsOf(store[..], size, kv);
      found := key in kv;
    }

    /** Packs the valid records to the front, in order, and blanks the rest. No
        record is overwritten before it has been read, and no key or value is
        dropped but a lost one; every entry loses its cache slot. */
    method MemoryRecycle()
      requires Valid()
      modifies this`kv, this`size, this`nextNode, store
      ensures Valid() && View() == old(View()) - old(LostKeys()) && LostKeys() == {} && |kv| == size
      ensures size <= fileSize && store[..size] == ValidRecords(old(store[..size]))
      ensures NewlyMade(kv, nextNode) && forall i :: size <= i < fileSize ==> store[i] == Record("", "", false)
    {
      ghost var records, oldSize, were, next := store[..], size, kv, nextNode;
      Repack();
      Repacked(records, oldSize, were, store[..], kv, cacheElement[..], Values(cache[..]), next, nextNode);
    }

    method Repack()
      requires StoreValid()
      modifies this`kv, this`size, this`nextNode, store
      ensures size <= fileSize && store[..] == Packed(old(store[..]), old(size))
      ensures size == |ValidRecords(old(store[..size]))| == |kv|
      ensures IndexOf(ValidRecords(old(store[..size])), kv) && NewlyMade(kv, nextNode) && nextNode >= old(nextNode)
    {
      Sweep();
      ghost var packed := store[..size];
      Blank();
      assert store[..] == packed + seq(store.Length - |packed|, _ => BLANK);
    }

    method Blank()
      requires size <= fileSize == store.Length
      modifies store
      ensures store[..size] == old(store[..size])
      ensures forall i :: size <= i < fileSize ==> store[i] == BLANK
    {
      for i := size to fileSize
        invariant store[..size] == old(store[..size])
        invariant forall j :: size <= j < i ==> store[j] == BLANK
      {
        store[i] := BLANK;
      }
    }

    /** The sweep itself: `newSize` never passes the record being read. */
    method Sweep()
      requires StoreValid()
      modifies this`kv, this`size, this`nextNode, store
      ensures size <= fileSize && store[..size] == ValidRecords(old(store[..size]))
      ensures IndexOf(store[..size], kv) && |kv| == size
      ensures NewlyMade(kv, nextNode) && nextNode >= old(nextNode)
    {
      ghost var records, was := store[..], kv;
      var newSize, i := 0, 0;
      kv := map[];
      while i < size
        invariant i <= size == old(size)
        invariant Sweeping(records, store[..], newSize, i, kv, nextNode) && nextNode >= old(nextNode)
      {
        if store[i].flag {
          SweepPacks(records, size, was, store[..], newSize, i, kv, nextNode);
          MoveDown(i, newSize);
          newSize := newSize + 1;
        } else {
          SweepSkips(records, store[..], newSize, i, kv, nextNode);
        }
        i := i + 1;
      }
      size := newSize;
    }

    /** Copies record `i` to place `n` and makes an entry for it. */
    method MoveDown(i: nat, n: nat)
      requires n <= i < store.Length
      modifies this`kv, this`nextNode, store
      ensures store[..] == old(store[..])[n := old(store[i])]
      ensures kv == old(kv)[old(store[i]).key := Entry(-1, n, old(nextNode))] && nextNode == old(nextNode) + 1
    {
      kv := kv[store[i].key := Entry(-1, n, nextNode)];
      store[n] := store[i];
      nextNode := nextNode + 1;
    }

    /** One request of the worker loop. */
    method Answer(q: Request) returns (reply: string)
      requires Valid()
      modifies this, store, cache, cacheElement
      ensures Valid() && (store == old(store) || fresh(store))
      ensures reply == Reply(old(View()), q, false) && View() == After(old(View()), q)
      ensures q.Get? ==> reply == (if q.key in old(View()) then old(View())[q.key] else "NULL") && View() == old(View())
      ensures q.Set? ==> reply == "OK" && View() == old(View())[q.key := q.value]
      ensures q.Delete? ==> reply == "OK" && View() == old(View()) - {q.key}
      ensures AtFirst() == FirstAfter(old(AtFirst()), old(View()), q)
      ensures old(Named(store[..], size)) && (q.Set? ==> q.key != "") ==> Named(store[..], size)
    {
      match q {
        case Get(key) =>
          var found := Exist(key);
          if found { reply := Get(key); } else { reply := "NULL"; }
        case Delete(key) =>
          Delete(key);
          reply := "OK";
        case Set(key, value) =>
          var r := Set(key, value);
          reply := if r == 0 then "OK" else "error";
      }
    }

    /** The worker loop: every reply is the one a plain map would give that does not
        tell whether a deleted key was there, and record 0 is where the run puts it. */
    method Process(requests: seq<Request>) returns (replies: seq<string>)
      requires Valid()
      modifies this, store, cache, cacheElement
      ensures Valid() && (store == old(store) || fresh(store))
      ensures replies == Replies(old(View()), requests, false)
      ensures RightReplies(old(View()), requests, replies, false) && RightMap(old(View()), requests, View())
      ensures View() == AfterAll(old(View()), requests)
      ensures AtFirst() == FirstAll(old(AtFirst()), old(View()), requests)
      ensures old(Named(store[..], size)) && KeysNotEmpty(requests) ==> Named(store[..], size)
    {
      replies := ServeAll(requests);
      RunIsRight(old(View()), requests, false);
    }

    /** The loop. */
    method ServeAll(requests: seq<Request>) returns (replies: seq<string>)
      requires Valid()
      modifies this, store, cache, cacheElement
      ensures Valid() && (store == old(store) || fresh(store))
      ensures replies == Replies(old(View()), requests, false)
      ensures View() == AfterAll(old(View()), requests)
      ensures AtFirst() == FirstAll(old(AtFirst()), old(View()), requests)
      ensures old(Named(store[..], size)) && KeysNotEmpty(requests) ==> Named(store[..], size)
    {
      replies := [];
      for i := 0 to |requests|
        invariant Valid()
        invariant store == old(store) || fresh(store)
        invariant replies == Replies(old(View()), requests[..i], false)
        invariant View() == AfterAll(old(View()), requests[..i])
        invariant AtFirst() == FirstAll(old(AtFirst()), old(View()), requests[..i])
        invariant old(Named(store[..], size)) && KeysNotEmpty(requests) ==> Named(store[..], size)
      {
        assert requests[..i + 1][..i] == requests[..i];
        var reply := Answer(requests[i]);
        replies := replies + [reply];
      }
      assert requests[..|requests|] == requests;
    }
  }
}
