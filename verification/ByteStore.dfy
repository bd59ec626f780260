/** The byte array of the allocator: where the live values sit, which bytes are
    free, and what the restart scan can tell from the bytes alone. */
module ByteStore {
  import opened FreeList

  const NUL: char := '\0'

  /** A live value: its address and its characters, without the NUL that is
      stored after them. */
  datatype Live = Live(at: nat, text: string) {
    /** Address of the terminating NUL. */
    function End(): nat { at + |text| }

    predicate Holds(b: int) { at <= b <= End() }
  }

  predicate NoNul(text: string) {
    forall i :: 0 <= i < |text| ==> text[i] != NUL
  }

  ghost predicate Stored(bytes: seq<char>, v: Live) {
    && v.End() < |bytes|
    && NoNul(v.text)
    && bytes[v.End()] == NUL
    && forall i :: 0 <= i < |v.text| ==> bytes[v.at + i] == v.text[i]
  }

  ghost predicate Apart(v: Live, w: Live) {
    v.End() < w.at || w.End() < v.at
  }

  ghost predicate InUse(live: map<string, Live>, b: int) {
    exists k :: k in live && live[k].Holds(b)
  }

  ghost predicate AllStored(bytes: seq<char>, live: map<string, Live>) {
    && (forall k :: k in live ==> Stored(bytes, live[k]))
    && (forall k, l :: k in live && l in live && k != l ==> Apart(live[k], live[l]))
  }

  /** Every byte is in a free block or in a live value, never in both. */
  ghost predicate Tiles(size: nat, free: seq<Block>, live: map<string, Live>) {
    Normal(free, size) && forall b :: 0 <= b < size ==> (Covered(free, b) <==> !InUse(live, b))
  }

  ghost predicate FreeIsZero(bytes: seq<char>, free: seq<Block>) {
    forall b :: 0 <= b < |bytes| && Covered(free, b) ==> bytes[b] == NUL
  }

  /** Free blocks and live values tile the array: every byte is in exactly one
      of them, and a free byte is zero. */
  ghost predicate Layout(bytes: seq<char>, free: seq<Block>, live: map<string, Live>) {
    AllStored(bytes, live) && Tiles(|bytes|, free, live) && FreeIsZero(bytes, free)
  }

  ghost predicate NoEmptyValue(live: map<string, Live>) {
    forall k :: k in live ==> live[k].text != ""
  }

  /** strlen: the distance to the first NUL. */
  function StrLen(bytes: seq<char>, at: nat): (n: nat)
    decreases |bytes| - at
  {
    if at >= |bytes| || bytes[at] == NUL then 0 else 1 + StrLen(bytes, at + 1)
  }

  lemma {:induction false} StrLenOfStored(bytes: seq<char>, v: Live)
    requires Stored(bytes, v)
    ensures StrLen(bytes, v.at) == |v.text| && bytes[v.at..v.at + StrLen(bytes, v.at)] == v.text
    decreases |v.text|
  {
    if v.text != "" {
      assert bytes[v.at + 0] == v.text[0];
      var w := Live(v.at + 1, v.text[1..]);
      forall i | 0 <= i < |w.text| ensures bytes[w.at + i] == w.text[i] {
        assert bytes[v.at + (i + 1)] == v.text[i + 1];
      }
      StrLenOfStored(bytes, w);
    }
  }

  // ---- the three ways the array changes ----

  function Zeros(n: nat): (z: seq<char>)
    ensures |z| == n
  {
    seq(n, _ => NUL)
  }

  /** Doubling the array keeps the layout. */
  lemma DoubledLayout(bytes: seq<char>, free: seq<Block>, live: map<string, Live>)
    requires Layout(bytes, free, live) && |bytes| > 0
    ensures Layout(bytes + Zeros(|bytes|), Grow(free, |bytes|), live)
  {
    var grown, more := Grow(free, |bytes|), bytes + Zeros(|bytes|);
    GrowNormal(free, |bytes|);
    forall k | k in live ensures Stored(more, live[k]) {
      assert Stored(bytes, live[k]);
    }
    forall b | 0 <= b < |more|
      ensures Covered(grown, b) <==> !InUse(live, b)
      ensures Covered(grown, b) ==> more[b] == NUL
    {
      GrowCover(free, |bytes|, b);
      if b >= |bytes| { NothingOutside(bytes, live, b); }
    }
  }

  lemma NothingOutside(bytes: seq<char>, live: map<string, Live>, b: int)
    requires AllStored(bytes, live) && b >= |bytes|
    ensures !InUse(live, b)
  {
    forall k | k in live ensures !live[k].Holds(b) { assert Stored(bytes, live[k]); }
  }

  function StrCpy(bytes: seq<char>, at: nat, text: string): (r: seq<char>)
    requires at + |text| < |bytes|
    ensures |r| == |bytes|
  {
    bytes[..at] + text + [NUL] + bytes[at + |text| + 1..]
  }

  lemma StrCpyBytes(bytes: seq<char>, at: nat, text: string)
    requires at + |text| < |bytes|
    ensures forall b :: 0 <= b < |bytes| && (b < at || at + |text| < b) ==> StrCpy(bytes, at, text)[b] == bytes[b]
    ensures forall i :: 0 <= i < |text| ==> StrCpy(bytes, at, text)[at + i] == text[i]
    ensures StrCpy(bytes, at, text)[at + |text|] == NUL
  {
  }

  /** Writing a new value at the front of a free block that has room for it. */
  lemma AllocatedLayout(bytes: seq<char>, free: seq<Block>, live: map<string, Live>, i: nat, key: string, text: string)
    requires Layout(bytes, free, live) && key !in live && NoNul(text)
    requires i < |free| && |text| + 1 <= free[i].Length()
    ensures Layout(StrCpy(bytes, free[i].first, text), TakeFront(free, i, |text| + 1),
                   live[key := Live(free[i].first, text)])
  {
    var v := Live(free[i].first, text);
    var bytes' := StrCpy(bytes, v.at, text);
    var free', live' := TakeFront(free, i, |text| + 1), live[key := v];
    StrCpyBytes(bytes, v.at, text);
    TakeFrontNormal(free, |bytes|, i, |text| + 1);
    forall b ensures Covered(free', b) <==> Covered(free, b) && !v.Holds(b) {
      TakeFrontCover(free, |bytes|, i, |text| + 1, b);
    }
    forall b | v.Holds(b) ensures Covered(free, b) {
      assert free[i].first <= b <= free[i].last;
    }
    forall k | k in live ensures Apart(live[k], v) && Stored(bytes', live[k]) {
      FreeRunIsApart(bytes, free, live, v, k);
    }
    forall b | 0 <= b < |bytes'| ensures InUse(live', b) <==> InUse(live, b) || v.Holds(b) {
      assert v.Holds(b) ==> key in live' && live'[key].Holds(b);
      if k :| k in live && live[k].Holds(b) { assert k in live' && live'[k].Holds(b); }
    }
  }

  lemma FreeRunIsApart(bytes: seq<char>, free: seq<Block>, live: map<string, Live>, v: Live, k: string)
    requires Layout(bytes, free, live) && k in live && v.End() < |bytes|
    requires forall b :: v.Holds(b) ==> Covered(free, b)
    ensures Apart(live[k], v)
  {
    var b := if live[k].at < v.at then v.at else live[k].at;
    assert v.Holds(b) ==> Covered(free, b);
    assert live[k].Holds(b) ==> InUse(live, b);
  }

  function Erase(bytes: seq<char>, at: nat, n: nat): (r: seq<char>)
    requires at + n <= |bytes|
    ensures |r| == |bytes|
  {
    bytes[..at] + Zeros(n) + bytes[at + n..]
  }

  lemma EraseBytes(bytes: seq<char>, at: nat, n: nat)
    requires at + n <= |bytes|
    ensures forall b :: 0 <= b < |bytes| ==> Erase(bytes, at, n)[b] == if at <= b < at + n then NUL else bytes[b]
  {
  }

  /** A live value's bytes are not covered by the free list. */
  lemma LiveIsNotFree(bytes: seq<char>, free: seq<Block>, live: map<string, Live>, key: string, b: int)
    requires Layout(bytes, free, live) && key in live && live[key].Holds(b)
    ensures !Covered(free, b)
  {
    assert InUse(live, b);
  }

  /** Zeroing a value and giving its bytes back. */
  lemma ReleasedLayout(bytes: seq<char>, free: seq<Block>, live: map<string, Live>, key: string, free': seq<Block>)
    requires Layout(bytes, free, live) && key in live
    requires Returned(free, Block(live[key].at, live[key].End()), free', |bytes|)
    ensures Layout(Erase(bytes, live[key].at, |live[key].text|), free', live - {key})
  {
    var v, live' := live[key], live - {key};
    var bytes' := Erase(bytes, v.at, |v.text|);
    EraseBytes(bytes, v.at, |v.text|);
    assert Stored(bytes, v);
    forall k | k in live' ensures Stored(bytes', live'[k]) {
      assert Apart(live[k], v) && Stored(bytes, live[k]);
    }
    forall b | 0 <= b < |bytes'|
      ensures Covered(free', b) <==> !InUse(live', b)
      ensures Covered(free', b) ==> bytes'[b] == NUL
    {
      InUseWithout(bytes, live, key, b);
    }
  }

  lemma InUseWithout(bytes: seq<char>, live: map<string, Live>, key: string, b: int)
    requires AllStored(bytes, live) && key in live
    ensures InUse(live - {key}, b) <==> InUse(live, b) && !live[key].Holds(b)
  {
    var live' := live - {key};
    if InUse(live, b) && !live[key].Holds(b) {
      var k :| k in live && live[k].Holds(b);
      assert k in live' && live'[k].Holds(b);
    }
    if InUse(live', b) {
      var k :| k in live' && live'[k].Holds(b);
      assert k in live && live[k].Holds(b) && Apart(live[k], live[key]);
    }
  }

  // ---- the restart scan ----

  /** The bytes the scan takes for free: zero, and first in the array or after
      another zero. */
  predicate LooksFree(bytes: seq<char>, b: int) {
    0 <= b < |bytes| && bytes[b] == NUL && (b == 0 || bytes[b - 1] == NUL)
  }

  ghost predicate IsScan(bytes: seq<char>, found: seq<Block>) {
    Normal(found, |bytes|) && forall b :: Covered(found, b) <==> LooksFree(bytes, b)
  }

  /** The scan has found exactly the bytes before `limit` that look free, and its
      last block is followed by a byte that does not. */
  ghost predicate ScannedTo(bytes: seq<char>, found: seq<Block>, limit: int) {
    && Normal(found, |bytes|)
    && (forall b :: Covered(found, b) <==> b < limit && LooksFree(bytes, b))
    && (|found| > 0 ==> var last := found[|found| - 1].last;
          last < limit && (last + 1 < |bytes| ==> bytes[last + 1] != NUL))
  }

  /** The scan reaches the end of a run of bytes that look free. */
  lemma ScannedRun(bytes: seq<char>, found: seq<Block>, head: nat, tail: nat)
    requires ScannedTo(bytes, found, head) && head <= tail < |bytes|
    requires forall b :: head <= b <= tail ==> LooksFree(bytes, b)
    requires tail + 1 < |bytes| ==> bytes[tail + 1] != NUL
    ensures ScannedTo(bytes, found + [Block(head, tail)], tail + 1)
  {
    var longer := found + [Block(head, tail)];
    forall b ensures Covered(longer, b) <==> b < tail + 1 && LooksFree(bytes, b) {
      CoveredConcat(found, [Block(head, tail)], b);
      CoveredOne(Block(head, tail), b);
    }
    forall i | 0 <= i < |found| ensures found[i].last + 1 < head {
      assert LooksFree(bytes, head);
      assert i < |found| - 1 ==> found[i].last + 1 < found[|found| - 1].first;
    }
  }

  /** Passing over bytes that do not look free. */
  lemma ScannedPast(bytes: seq<char>, found: seq<Block>, limit: int, limit': int)
    requires ScannedTo(bytes, found, limit) && limit <= limit'
    requires forall b :: limit <= b < limit' ==> !LooksFree(bytes, b)
    ensures ScannedTo(bytes, found, limit')
  {
  }

  lemma FreeLooksFree(bytes: seq<char>, free: seq<Block>, live: map<string, Live>, b: int)
    requires Layout(bytes, free, live) && Covered(free, b)
    ensures LooksFree(bytes, b)
  {
    if b > 0 && !Covered(free, b - 1) {
      assert InUse(live, b - 1);
      var k :| k in live && live[k].Holds(b - 1);
      LiveEndsBefore(bytes, free, live, k, b);
    }
  }

  lemma LiveEndsBefore(bytes: seq<char>, free: seq<Block>, live: map<string, Live>, k: string, b: int)
    requires Layout(bytes, free, live) && k in live && live[k].Holds(b - 1) && Covered(free, b)
    ensures bytes[b - 1] == NUL
  {
    assert live[k].Holds(b) ==> InUse(live, b);
    assert Stored(bytes, live[k]);
  }

  /** A live byte looks free only where an empty value's lone NUL sits. */
  lemma LiveLooksFree(bytes: seq<char>, free: seq<Block>, live: map<string, Live>, k: string, b: int)
    requires Layout(bytes, free, live) && k in live && live[k].Holds(b)
    ensures LooksFree(bytes, b) <==> live[k].text == ""
  {
    assert Stored(bytes, live[k]);
    if live[k].text != "" {
      TextDoesNotLookFree(bytes, live[k], b);
    } else if b > 0 {
      BeforeEmptyValue(bytes, free, live, k, b);
    }
  }

  lemma TextDoesNotLookFree(bytes: seq<char>, v: Live, b: int)
    requires Stored(bytes, v) && v.text != "" && v.Holds(b)
    ensures !LooksFree(bytes, b)
  {
    var i := if b < v.End() then b - v.at else |v.text| - 1;
    assert bytes[v.at + i] == v.text[i] != NUL;
  }

  lemma BeforeEmptyValue(bytes: seq<char>, free: seq<Block>, live: map<string, Live>, k: string, b: int)
    requires Layout(bytes, free, live) && k in live && b == live[k].at > 0 && b <= |bytes|
    ensures bytes[b - 1] == NUL
  {
    if !Covered(free, b - 1) { UsedNeighbour(bytes, live, k, b); }
  }

  /** The byte in use just before another value is a terminator. */
  lemma UsedNeighbour(bytes: seq<char>, live: map<string, Live>, k: string, b: int)
    requires AllStored(bytes, live) && k in live && b == live[k].at && InUse(live, b - 1)
    ensures 0 < b <= |bytes| && bytes[b - 1] == NUL
  {
    var l :| l in live && live[l].Holds(b - 1);
    assert Apart(live[l], live[k]) && Stored(bytes, live[l]);
  }

  /** The scan of the raw bytes rebuilds the free list exactly when no live
      value is empty. */
  lemma ScanRebuildsFreeList(bytes: seq<char>, free: seq<Block>, live: map<string, Live>, found: seq<Block>)
    requires Layout(bytes, free, live) && IsScan(bytes, found)
    ensures found == free <==> NoEmptyValue(live)
  {
    if NoEmptyValue(live) {
      forall b ensures Covered(found, b) <==> Covered(free, b) {
        if Covered(free, b) { FreeLooksFree(bytes, free, live, b); }
        if LooksFree(bytes, b) && InUse(live, b) {
          var k :| k in live && live[k].Holds(b);
          LiveLooksFree(bytes, free, live, k, b);
        }
      }
      CoverDeterminesList(found, free, |bytes|);
    } else {
      var k :| k in live && live[k].text == "";
      var b := live[k].at;
      LiveLooksFree(bytes, free, live, k, b);
      LiveIsNotFree(bytes, free, live, k, b);
    }
  }

  /** After a restart over a store with an empty value, the rebuilt free list
      would give that value's byte away. */
  lemma EmptyValueIsForgotten()
    returns (bytes: seq<char>, free: seq<Block>, live: map<string, Live>, found: seq<Block>)
    ensures Layout(bytes, free, live) && IsScan(bytes, found)
    ensures "k" in live && Covered(found, live["k"].at)
  {
    bytes, live := [NUL, NUL], map["k" := Live(0, "")];
    free, found := [Block(1, 1)], [Block(0, 1)];
    assert live["k"].Holds(0) && InUse(live, 0);
    CoveredOne(Block(1, 1), 0);
    CoveredOne(Block(1, 1), 1);
    assert !InUse(live, 1);
    forall b ensures Covered(found, b) <==> LooksFree(bytes, b) { CoveredOne(Block(0, 1), b); }
    forall b | Covered(free, b) ensures b == 1 { CoveredOne(Block(1, 1), b); }
  }
}
