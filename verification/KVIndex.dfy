/** The first key-value index: values packed as C strings into one byte array,
    allocated first-fit, read through a round-robin cache. */
module KVIndex {
  import opened FreeList
  import opened ByteStore
  import opened FirstFit
  import opened SlotCache
  import opened Requests

  /** A slot owns a copied string exactly while it holds an iterator. */
  ghost predicate Owns(element: seq<Iter>, cache: seq<Option<string>>) {
    |cache| == |element| && forall c :: 0 <= c < |element| ==> (cache[c].None? <==> element[c].End?)
  }

  ghost function ValueOf(c: Option<string>): string { if c.Some? then c.value else "" }

  ghost function Values(cache: seq<Option<string>>): (v: seq<string>)
    ensures |v| == |cache| && forall c :: 0 <= c < |cache| ==> v[c] == ValueOf(cache[c])
  {
    seq(|cache|, c requires 0 <= c < |cache| => ValueOf(cache[c]))
  }

  /** The scan stands inside a run of zeros. */
  predicate InRun(bytes: seq<char>, i: nat) {
    0 < i < |bytes| && bytes[i - 1] == NUL && bytes[i] == NUL
  }

  /** `bytes` and `offsets` were saved from a store laid out as (`free`, `was`). */
  ghost predicate Saved(bytes: seq<char>, offsets: map<string, nat>, free: seq<Block>, was: map<string, Live>) {
    && |bytes| >= 1 && Layout(bytes, free, was)
    && offsets.Keys == was.Keys
    && forall k :: k in was ==> offsets[k] == was[k].at
  }

  /** The request parser cuts values at spaces and NULs, so they are never empty. */
  ghost predicate Tokens(qs: seq<Request>) {
    forall i :: 0 <= i < |qs| && qs[i].Set? ==> qs[i].value != "" && NoNul(qs[i].value)
  }

  ghost function Texts(live: map<string, Live>): (m: map<string, string>) {
    map k | k in live :: live[k].text
  }

  lemma TextsChange(live: map<string, Live>, key: string, v: Live)
    ensures Texts(live[key := v]) == Texts(live)[key := v.text]
    ensures Texts(live - {key}) == Texts(live) - {key}
  {
  }

  lemma Overwritten(live: map<string, Live>, key: string, v: Live)
    ensures (live - {key})[key := v] == live[key := v]
  {
  }

  ghost predicate NoSlotsYet(kv: Index, offsets: map<string, nat>, element: seq<Iter>, cache: seq<Option<string>>) {
    && kv.Keys == offsets.Keys && (forall k :: k in kv ==> kv[k] == Entry(-1, offsets[k], 0))
    && |element| == |cache| && (forall c :: 0 <= c < |element| ==> element[c].End? && cache[c].None?)
  }

  /** What a restart finds is what was saved, when no value was empty. */
  lemma Restarted(bytes: seq<char>, offsets: map<string, nat>, free: seq<Block>, was: map<string, Live>, found: seq<Block>,
                  kv: Index, element: seq<Iter>, cache: seq<Option<string>>)
    requires Saved(bytes, offsets, free, was) && IsScan(bytes, found) && NoSlotsYet(kv, offsets, element, cache)
    ensures found == free <==> NoEmptyValue(was)
    ensures NoEmptyValue(was) ==> Layout(bytes, found, was)
    ensures kv.Keys == was.Keys && forall k :: k in kv ==> kv[k].at == was[k].at
    ensures Owns(element, cache) && CacheAgrees(kv, element, Values(cache), 1, Texts(was))
  {
    ScanRebuildsFreeList(bytes, free, was, found);
  }

  class KVIndex {
    var kv: Index
    var fileSize: nat
    var cacheIndex: int
    var nextNode: nat
    const cache: array<Option<string>>
    const cacheElement: array<Iter>
    var store: array<char>
    var memList: seq<Block>

    /** The abstract state: each key's value and the address it is kept at. */
    ghost var live: map<string, Live>

    ghost predicate CacheValid()
      reads this, cache, cacheElement
    {
      && cache.Length == CACHE_SIZE && cacheElement.Length == CACHE_SIZE
      && -1 <= cacheIndex < CACHE_SIZE
      && Owns(cacheElement[..], cache[..])
      && CacheAgrees(kv, cacheElement[..], Values(cache[..]), nextNode, Contents())
    }

    ghost predicate StoreValid()
      reads this, store
    {
      && fileSize == store.Length >= 1
      && Layout(store[..], memList, live)
      && kv.Keys == live.Keys
      && forall k :: k in kv ==> kv[k].at == live[k].at
    }

    ghost predicate Valid()
      reads this, store, cache, cacheElement
    {
      StoreValid() && CacheValid()
    }

    ghost function Contents(): (m: map<string, string>)
      reads this
    {
      Texts(live)
    }

    /** Doubles the store; the new half is zero and free. */
    method Resize()
      requires StoreValid()
      modifies this`store, this`memList, this`fileSize
      ensures StoreValid() && fresh(store)
      ensures fileSize == 2 * old(fileSize)
      ensures memList == Grow(old(memList), old(fileSize))
      ensures store[..] == old(store[..]) + Zeros(old(fileSize))
    {
      ghost var bytes := store[..];
      var bigger := new char[fileSize * 2](_ => NUL);
      forall i | 0 <= i < fileSize { bigger[i] := store[i]; }
      store := bigger;
      assert store[..] == bytes + Zeros(fileSize);
      DoubledLayout(bytes, memList, live);
      if |memList| > 0 && memList[|memList| - 1].last == fileSize - 1 {
        memList := memList[|memList| - 1 := memList[|memList| - 1].(last := fileSize * 2 - 1)];
      } else {
        memList := memList + [Block(fileSize, fileSize * 2 - 1)];
      }
      fileSize := fileSize * 2;
    }

    /** One pass over the free list: the first block with room, if any. */
    method FindRoom(len: nat) returns (i: nat)
      ensures i <= |memList|
      ensures i < |memList| ==> Fits(memList[i], len)
      ensures forall j :: 0 <= j < i ==> !Fits(memList[j], len)
    {
      i := 0;
      while i < |memList|
        invariant i <= |memList|
        invariant forall j :: 0 <= j < i ==> !Fits(memList[j], len)
      {
        if memList[i].last - memList[i].first + 1 >= len { return; }
        i := i + 1;
      }
    }

    method CopyIn(at: nat, value: string)
      requires at + |value| < store.Length
      modifies store
      ensures store[..] == StrCpy(old(store[..]), at, value)
    {
      forall j | 0 <= j <= |value| { store[at + j] := if j < |value| then value[j] else NUL; }
    }

    /** Copies the value into block `i` and takes its bytes off the free list. */
    method Place(i: nat, key: string, value: string)
      requires Valid() && key !in live && NoNul(value)
      requires i < |memList| && Fits(memList[i], |value| + 1)
      modifies this`kv, this`nextNode, this`memList, this`live, store
      ensures Valid()
      ensures live == old(live)[key := Live(old(memList[i].first), value)]
    {
      var head, len := memList[i].first, |value| + 1;
      ghost var bytes, free := store[..], memList;
      CopyIn(head, value);
      if memList[i].last - head + 1 == len {
        memList := memList[..i] + memList[i + 1..];
      } else {
        memList := memList[i := Block(head + len, memList[i].last)];
      }
      assert memList == TakeFront(free, i, len);
      AllocatedLayout(bytes, free, live, i, key, value);
      AddEntry(key, head, value);
    }

    /** Enters a value that has just been copied in. */
    method AddEntry(key: string, at: nat, ghost value: string)
      requires CacheValid() && key !in live && fileSize == store.Length >= 1
      requires forall k :: k in kv ==> kv[k].at == live[k].at
      requires Layout(store[..], memList, live[key := Live(at, value)])
      modifies this`kv, this`nextNode, this`live
      ensures Valid() && live == old(live)[key := Live(at, value)]
    {
      AddCached(key, at, value);
    }

    method AddCached(key: string, at: nat, ghost value: string)
      requires CacheValid() && key !in live
      modifies this`kv, this`nextNode, this`live
      ensures CacheValid() && live == old(live)[key := Live(at, value)]
      ensures kv.Keys == live.Keys && kv[key].at == at && forall k :: k in old(kv) ==> kv[k].at == old(kv)[k].at
    {
      NewEntryAgrees(kv, cacheElement[..], Values(cache[..]), nextNode, Contents(), key, at, value);
      TextsChange(live, key, Live(at, value));
      PutEntry(key, at, value);
    }

    method PutEntry(key: string, at: nat, ghost value: string)
      modifies this`kv, this`nextNode, this`live
      ensures kv == old(kv)[key := Entry(-1, at, old(nextNode))] && nextNode == old(nextNode) + 1
      ensures live == old(live)[key := Live(at, value)]
    {
      kv := kv[key := Entry(-1, at, nextNode)];
      nextNode := nextNode + 1;
      live := live[key := Live(at, value)];
    }

    /** Stores the value of an absent key at the lowest address with room for
        it, doubling the store until there is one. */
    method Insert(key: string, value: string) returns (r: int)
      requires Valid() && key !in live && NoNul(value)
      modifies this`kv, this`nextNode, this`memList, this`live, this`store, this`fileSize, store
      ensures Valid() && r == 0
      ensures store == old(store) || fresh(store)
      ensures key in live && live == old(live)[key := Live(live[key].at, value)]
      ensures PlacedFirstFit(old(memList), old(fileSize), fileSize, live[key].at, |value| + 1)
    {
      var len := |value| + 1;
      var find := false;
      ghost var free, size := memList, fileSize;
      NotGrown(free, size);
      while !find
        invariant Valid()
        invariant store == old(store) || fresh(store)
        invariant !find ==> live == old(live)
        invariant !find ==> GrownFrom(free, size, memList, fileSize) && GrewForNeed(free, size, fileSize, len)
        invariant find ==> key in live && live == old(live)[key := Live(live[key].at, value)]
        invariant find ==> PlacedFirstFit(free, size, fileSize, live[key].at, len)
        decreases !find, len - Trailing(memList, fileSize)
      {
        var i := FindRoom(len);
        if i < |memList| {
          TakeRoom(i, key, value, free, size);
          find := true;
        } else {
          GrowFor(len, free, size);
        }
      }
      r := 0;
    }

    /** The first block that fits is taken. */
    method TakeRoom(i: nat, key: string, value: string, ghost free: seq<Block>, ghost size: nat)
      requires Valid() && key !in live && NoNul(value)
      requires GrownFrom(free, size, memList, fileSize) && GrewForNeed(free, size, fileSize, |value| + 1)
      requires i < |memList| && Fits(memList[i], |value| + 1) && forall j :: 0 <= j < i ==> !Fits(memList[j], |value| + 1)
      modifies this`kv, this`nextNode, this`memList, this`live, store
      ensures Valid() && key in live && live == old(live)[key := Live(live[key].at, value)]
      ensures PlacedFirstFit(free, size, fileSize, live[key].at, |value| + 1)
    {
      FirstBlockIsFirstFit(free, size, memList, fileSize, i, |value| + 1);
      Place(i, key, value);
    }

    /** No block fits, so the store doubles. */
    method GrowFor(len: nat, ghost free: seq<Block>, ghost size: nat)
      requires Valid() && len > 0 && GrownFrom(free, size, memList, fileSize) && size > 0
      requires forall j :: 0 <= j < |memList| ==> !Fits(memList[j], len)
      modifies this`memList, this`store, this`fileSize
      ensures Valid() && fresh(store)
      ensures GrownFrom(free, size, memList, fileSize) && GrewForNeed(free, size, fileSize, len)
      ensures old(Trailing(memList, fileSize)) < len && Trailing(memList, fileSize) > old(Trailing(memList, fileSize))
    {
      GrewOnce(free, size, memList, fileSize, len);
      Resize();
    }

    /** Puts block `r` back into the list and joins it with the blocks it touches. */
    method GiveBack(r: Block)
      requires Normal(memList, fileSize) && r.first <= r.last < fileSize
      requires forall b :: r.first <= b <= r.last ==> !Covered(memList, b)
      modifies this`memList
      ensures Returned(old(memList), r, memList, fileSize)
    {
      ghost var free := memList;
      var p := InsertBlock(r);
      CoalescingReturnsBlock(free, fileSize, p, r);
      if p > 0 {
        var joined := JoinBlocks(p - 1);
        if joined { p := p - 1; }
      }
      var _ := JoinBlocks(p);
    }

    /** Inserts a block before the first one that lies after it. */
    method InsertBlock(r: Block) returns (p: nat)
      requires Normal(memList, fileSize) && r.first <= r.last < fileSize
      requires forall b :: r.first <= b <= r.last ==> !Covered(memList, b)
      modifies this`memList
      ensures Slot(old(memList), r, p) && memList == InsertBefore(old(memList), p, r)
    {
      p := 0;
      while p < |memList| && memList[p].first <= r.last
        invariant p <= |memList|
        invariant forall i :: 0 <= i < p ==> memList[i].first <= r.last
      {
        p := p + 1;
      }
      BetweenBlocks(memList, fileSize, r, p);
      memList := memList[..p] + [r] + memList[p..];
    }

    /** Makes blocks `i` and `i + 1` one if they touch. */
    method JoinBlocks(i: nat) returns (joined: bool)
      modifies this`memList
      ensures memList == JoinIfTouching(old(memList), i)
      ensures joined <==> i + 1 < |old(memList)| && old(memList)[i].last + 1 == old(memList)[i + 1].first
    {
      joined := i + 1 < |memList| && memList[i].last + 1 == memList[i + 1].first;
      if joined {
        memList := memList[..i] + [Block(memList[i].first, memList[i + 1].last)] + memList[i + 2..];
      }
    }

    method EraseCache(c: nat)
      requires CacheValid() && c < CACHE_SIZE
      modifies this`kv, cache, cacheElement
      ensures CacheValid() && cacheElement[c].End?
      ensures kv == Unslot(old(kv), old(cacheElement[c]))
      ensures kv.Keys == old(kv.Keys) && forall k :: k in kv ==> kv[k].at == old(kv)[k].at
    {
      UnslotKeepsPlaces(kv, cacheElement[c]);
      EmptiedSlotAgrees(kv, cacheElement[..], Values(cache[..]), nextNode, Contents(), c, "");
      if cacheElement[c] != End {
        cache[c] := None;
        kv := Unslot(kv, cacheElement[c]);
        cacheElement[c] := End;
      }
      assert cacheElement[..] == old(cacheElement[..])[c := End];
      assert Values(cache[..]) == old(Values(cache[..]))[c := ""];
    }

    method Wipe(at: nat, n: nat)
      requires at + n <= store.Length
      modifies store
      ensures store[..] == Erase(old(store[..]), at, n)
    {
      forall j | 0 <= j < n { store[at + j] := NUL; }
    }

    /** Gives a live value's bytes, terminator included, back to the free list
        and zeroes them. */
    method Reclaim(key: string)
      requires StoreValid() && key in live
      modifies this`memList, store
      ensures Layout(store[..], memList, live - {key}) && store.Length == old(store.Length)
    {
      var at := kv[key].at;
      assert Stored(store[..], live[key]);
      StrLenOfStored(store[..], live[key]);
      var len := StrLen(store[..], at);
      ghost var bytes, free := store[..], memList;
      forall b | at <= b <= at + len ensures !Covered(memList, b) {
        LiveIsNotFree(bytes, free, live, key, b);
      }
      GiveBack(Block(at, at + len));
      Wipe(at, len);
      assert Layout(store[..], memList, live - {key}) by { ReleasedLayout(bytes, free, live, key, memList); }
    }

    /** Frees a key's bytes and slot, or returns -1 for an absent key. */
    method Delete(key: string) returns (r: int)
      requires Valid()
      modifies this`kv, this`memList, this`live, store, cache, cacheElement
      ensures Valid()
      ensures r == if key in old(live) then 0 else -1
      ensures live == old(live) - {key} && Contents() == old(Contents()) - {key}
      ensures key !in old(live) ==> memList == old(memList) && kv == old(kv)
    {
      assert Texts(live - {key}) == Texts(live) - {key} by { TextsChange(live, key, Live(0, "")); }
      if key !in kv {
        return -1;
      }
      Reclaim(key);
      DropEntry(key);
      r := 0;
    }

    /** Forgets a key whose bytes have just been given back. */
    method DropEntry(key: string)
      requires CacheValid() && key in live && fileSize == store.Length >= 1
      requires forall k :: k in kv ==> kv[k].at == live[k].at
      requires Layout(store[..], memList, live - {key})
      modifies this`kv, this`live, cache, cacheElement
      ensures Valid() && live == old(live) - {key}
    {
      Uncache(key);
      RemoveEntry(key);
    }

    /** Empties a live key's slot if it has one. */
    method Uncache(key: string)
      requires CacheValid() && key in live
      modifies this`kv, cache, cacheElement
      ensures CacheValid() && kv.Keys == old(kv.Keys) && forall k :: k in kv ==> kv[k].at == old(kv)[k].at
    {
      if kv[key].slot != -1 {
        EraseCache(kv[key].slot);
      }
    }

    method RemoveEntry(key: string)
      requires CacheValid() && key in live && fileSize == store.Length >= 1
      requires forall k :: k in kv ==> kv[k].at == live[k].at
      requires Layout(store[..], memList, live - {key})
      modifies this`kv, this`live
      ensures Valid() && live == old(live) - {key}
    {
      DroppedEntryAgrees(kv, cacheElement[..], Values(cache[..]), nextNode, Contents(), key);
      TextsChange(live, key, live[key]);
      kv := kv - {key};
      live := live - {key};
    }

    /** The string behind a live key: the slot's copy, or the stored bytes. */
    function Read(key: string): (text: string)
      requires Valid() && key in live
      reads this, store, cache, cacheElement
      ensures text == live[key].text
    {
      assert Stored(store[..], live[key]);
      StrLenOfStored(store[..], live[key]);
      if kv[key].slot != -1 then cache[kv[key].slot].value
      else store[..][kv[key].at..kv[key].at + StrLen(store[..], kv[key].at)]
    }

    /** Goes to the next slot in turn and empties it. */
    method NextSlot()
      requires Valid()
      modifies this`kv, this`cacheIndex, cache, cacheElement
      ensures Valid() && cacheIndex == (old(cacheIndex) + 1) % CACHE_SIZE && cacheElement[cacheIndex].End?
    {
      cacheIndex := (cacheIndex + 1) % CACHE_SIZE;
      EmptySlot(cacheIndex);
    }

    method EmptySlot(c: nat)
      requires Valid() && c < CACHE_SIZE
      modifies this`kv, cache, cacheElement
      ensures Valid() && cacheElement[c].End?
    {
      ghost var bytes := store[..];
      EraseCache(c);
      assert store[..] == bytes;
    }

    /** Gives the empty slot `c` to `key`. */
    method Fill(key: string, text: string, c: nat)
      requires Valid() && key in live && text == live[key].text && c < CACHE_SIZE && cacheElement[c].End?
      modifies this`kv, cache, cacheElement
      ensures Valid() && kv == old(kv)[key := old(kv)[key].(slot := c)]
      ensures cacheIndex == old(cacheIndex)
    {
      FilledSlotAgrees(kv, cacheElement[..], Values(cache[..]), nextNode, Contents(), c, key);
      ghost var element, values, it := cacheElement[..], Values(cache[..]), At(key, kv[key].node);
      cache[c] := Some(text);
      cacheElement[c] := At(key, kv[key].node);
      kv := kv[key := kv[key].(slot := c)];
      assert cacheElement[..] == element[c := it] && Values(cache[..]) == values[c := text];
    }

    /** Copies a key's value into the next slot in turn. */
    method Remember(key: string, text: string)
      requires Valid() && key in live && text == live[key].text
      modifies this`kv, this`cacheIndex, cache, cacheElement
      ensures Valid() && cacheIndex == (old(cacheIndex) + 1) % CACHE_SIZE && key in kv && kv[key].slot == cacheIndex
    {
      NextSlot();
      Fill(key, text, cacheIndex);
    }

    /** Reads a key's value, from its slot if it has one, and copies it into the
        next slot in turn. */
    method Get(key: string) returns (ret: string)
      requires Valid() && key in live
      modifies this`kv, this`cacheIndex, cache, cacheElement
      ensures Valid() && ret == live[key].text && Contents() == old(Contents())
      ensures cacheIndex == (old(cacheIndex) + 1) % 1500 && kv[key].slot == cacheIndex
    {
      ret := Read(key);
      Remember(key, ret);
    }

    method Exist(key: string) returns (found: bool)
      requires Valid()
      ensures found <==> key in live
    {
      found := key in kv;
    }

    method Set(key: string, value: string) returns (r: int)
      requires Valid() && NoNul(value)
      modifies this`kv, this`nextNode, this`memList, this`live, this`store, this`fileSize, store, cache, cacheElement
      ensures Valid() && r == 0
      ensures store == old(store) || fresh(store)
      ensures key in live && live == old(live)[key := Live(live[key].at, value)]
      ensures Contents() == old(Contents())[key := value]
    {
      if key in kv {
        var _ := Delete(key);
        assert key !in live;
      }
      r := Insert(key, value);
      Overwritten(old(live), key, live[key]);
      TextsChange(old(live), key, live[key]);
    }

    /** Rebuilds the free list from the bytes alone. */
    method Scan()
      requires fileSize == store.Length
      modifies this`memList
      ensures IsScan(store[..], memList)
    {
      ghost var bytes := store[..];
      memList := [];
      var head, i := 0, 0;
      while i < fileSize
        invariant i <= fileSize
        invariant InRun(bytes, i) ==> head <= i && forall b :: head <= b < i ==> LooksFree(bytes, b)
        invariant ScannedTo(bytes, memList, if InRun(bytes, i) then head else i)
      {
        if store[i] == NUL {
          if i == 0 || store[i - 1] != NUL {
            head := if i == 0 then i else i + 1;
            ScannedPast(bytes, memList, i, head);
          }
          if i == fileSize - 1 || store[i + 1] != NUL {
            var tail := i;
            if tail >= head {
              ScannedRun(bytes, memList, head, tail);
              memList := memList + [Block(head, tail)];
            }
          }
        } else {
          ScannedPast(bytes, memList, i, i + 1);
        }
        i := i + 1;
      }
    }

    /** Just after the scan. */
    ghost predicate JustStarted(offsets: map<string, nat>)
      reads this, store, cache, cacheElement
    {
      && fileSize == store.Length && IsScan(store[..], memList) && nextNode == 1 && cacheIndex == -1
      && cache.Length == CACHE_SIZE && cacheElement.Length == CACHE_SIZE
      && NoSlotsYet(kv, offsets, cacheElement[..], cache[..])
    }

    /** If the bytes and offsets were saved from the layout (`free`, `live`), the free
        list comes back as it was exactly when no value was empty, and then the
        whole index does. */
    lemma {:induction false} Restored(offsets: map<string, nat>, free: seq<Block>)
      requires JustStarted(offsets) && Saved(store[..], offsets, free, live)
      ensures memList == free <==> NoEmptyValue(live)
      ensures NoEmptyValue(live) ==> Valid()
    {
      Restarted(store[..], offsets, free, live, memList, kv, cacheElement[..], cache[..]);
    }

    /** Opens the saved bytes and index; `was` is what they were saved from. */
    constructor Start(bytes: seq<char>, offsets: map<string, nat>, ghost was: map<string, Live>)
      ensures fresh(store) && fresh(cache) && fresh(cacheElement)
      ensures store[..] == bytes && live == was && JustStarted(offsets)
    {
      kv := map k | k in offsets :: Entry(-1, offsets[k], 0);
      nextNode := 1;
      fileSize := |bytes|;
      cacheIndex := -1;
      store := new char[|bytes|](i requires 0 <= i < |bytes| => bytes[i]);
      cache := new Option<string>[CACHE_SIZE](_ => None);
      cacheElement := new Iter[CACHE_SIZE](_ => End);
      memList := [];
      live := was;
      new;
      assert store[..] == bytes;
      Scan();
    }

    /** What is left on disk for the next start. */
    method Quit() returns (bytes: seq<char>, offsets: map<string, nat>)
      requires Valid()
      ensures Saved(bytes, offsets, memList, live)
    {
      bytes := store[..];
      offsets := map k | k in kv :: kv[k].at;
    }

    /** The worker loop: every reply is the one a plain map would give. */
    method Process(requests: seq<Request>) returns (replies: seq<string>)
      requires Valid() && Tokens(requests)
      modifies this, store, cache, cacheElement
      ensures Valid() && (store == old(store) || fresh(store))
      ensures replies == Replies(old(Contents()), requests, true)
      ensures RightReplies(old(Contents()), requests, replies, true) && RightMap(old(Contents()), requests, Contents())
      ensures Contents() == AfterAll(old(Contents()), requests)
      ensures old(NoEmptyValue(live)) ==> NoEmptyValue(live)
    {
      replies := ServeAll(requests);
      RunIsRight(old(Contents()), requests, true);
    }

    /** The loop. */
    method ServeAll(requests: seq<Request>) returns (replies: seq<string>)
      requires Valid() && Tokens(requests)
      modifies this, store, cache, cacheElement
      ensures Valid() && (store == old(store) || fresh(store))
      ensures replies == Replies(old(Contents()), requests, true)
      ensures Contents() == AfterAll(old(Contents()), requests)
      ensures old(NoEmptyValue(live)) ==> NoEmptyValue(live)
    {
      replies := [];
      for i := 0 to |requests|
        invariant Valid()
        invariant store == old(store) || fresh(store)
        invariant replies == Replies(old(Contents()), requests[..i], true)
        invariant Contents() == AfterAll(old(Contents()), requests[..i])
        invariant old(NoEmptyValue(live)) ==> NoEmptyValue(live)
      {
        assert requests[..i + 1][..i] == requests[..i];
        var reply := Answer(requests[i]);
        replies := replies + [reply];
      }
      assert requests[..|requests|] == requests;
    }

    /** One request of the worker loop. */
    method Answer(q: Request) returns (reply: string)
      requires Valid() && (q.Set? ==> NoNul(q.value))
      modifies this, store, cache, cacheElement
      ensures Valid() && (store == old(store) || fresh(store))
      ensures reply == Reply(old(Contents()), q, true)
      ensures Contents() == After(old(Contents()), q)
      ensures q.Get? ==> reply == (if q.key in old(Contents()) then old(Contents())[q.key] else "NULL") && Contents() == old(Contents())
      ensures q.Set? ==> reply == "OK" && Contents() == old(Contents())[q.key := q.value]
      ensures q.Delete? ==> reply == (if q.key in old(Contents()) then "OK" else "error") && Contents() == old(Contents()) - {q.key}
      ensures old(NoEmptyValue(live)) && (q.Set? ==> q.value != "") ==> NoEmptyValue(live)
    {
      match q {
        case Get(key) =>
          var found := Exist(key);
          if found { reply := Get(key); } else { reply := "NULL"; }
        case Delete(key) =>
          var r := Delete(key);
          reply := if r == 0 then "OK" else "error";
        case Set(key, value) =>
          var r := Set(key, value);
          reply := if r == 0 then "OK" else "error";
      }
    }
  }
}
