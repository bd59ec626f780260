/** First-fit placement, stated on the bytes that are free rather than on the
    list that records them. */
module FirstFit {
  import opened FreeList

  function Pow2(n: nat): (r: nat)
    ensures r > 0
  {
    if n == 0 then 1 else 2 * Pow2(n - 1)
  }

  /** Byte `b` is free once a store of `size` bytes has grown to `size'`. */
  ghost predicate FreeOnceGrown(free: seq<Block>, size: nat, size': nat, b: int) {
    Covered(free, b) || size <= b < size'
  }

  ghost predicate RoomAt(free: seq<Block>, size: nat, size': nat, at: int, len: nat) {
    forall b :: at <= b < at + len ==> FreeOnceGrown(free, size, size', b)
  }

  /** `at` is the lowest address with `len` free bytes in a row, in the smallest
      store, reached by doubling, that has such an address. */
  ghost predicate PlacedFirstFit(free: seq<Block>, size: nat, size': nat, at: int, len: nat) {
    && (exists n: nat :: size' == size * Pow2(n))
    && RoomAt(free, size, size', at, len)
    && (forall a :: RoomAt(free, size, size', a, len) ==> at <= a)
    && (size' != size ==>
          && size < size' < 2 * (size + len)
          && forall a :: !RoomAt(free, size, size' / 2, a, len))
  }

  /** The list in a store that has grown from (`free`, `size`) by doubling. */
  ghost predicate GrownFrom(free: seq<Block>, size: nat, list: seq<Block>, size': nat) {
    && Normal(list, size') && size <= size'
    && (exists n: nat :: size' == size * Pow2(n))
    && forall b :: Covered(list, b) <==> FreeOnceGrown(free, size, size', b)
  }

  ghost predicate Fits(r: Block, len: nat) { r.Length() >= len }

  lemma NoRoom(free: seq<Block>, size: nat, list: seq<Block>, size': nat, len: nat)
    requires GrownFrom(free, size, list, size') && len > 0
    requires forall i :: 0 <= i < |list| ==> !Fits(list[i], len)
    ensures forall a :: !RoomAt(free, size, size', a, len)
    ensures size' < size + len
  {
    forall a ensures !RoomAt(free, size, size', a, len) {
      if RoomAt(free, size, size', a, len) {
        forall b | a <= b < a + len ensures Covered(list, b) {
          assert FreeOnceGrown(free, size, size', b);
        }
        var i := RunInOneBlock(list, size', a, len);
        assert false;
      }
    }
    assert !RoomAt(free, size, size', size, len);
  }

  lemma GrowOnce(free: seq<Block>, size: nat, list: seq<Block>, size': nat)
    requires GrownFrom(free, size, list, size') && size > 0
    ensures GrownFrom(free, size, Grow(list, size'), size' * 2)
  {
    GrowNormal(list, size');
    forall b ensures Covered(Grow(list, size'), b) <==> FreeOnceGrown(free, size, size' * 2, b) {
      GrowCover(list, size', b);
      assert Covered(list, b) <==> FreeOnceGrown(free, size, size', b);
    }
    var n: nat :| size' == size * Pow2(n);
    assert Pow2(n + 1) == 2 * Pow2(n);
    assert size' * 2 == size * Pow2(n + 1);
  }

  lemma NotGrown(free: seq<Block>, size: nat)
    requires Normal(free, size)
    ensures GrownFrom(free, size, free, size)
  {
    assert size == size * Pow2(0);
  }

  /** Before the search: the store grew only because nothing fitted at half its
      present size. */
  ghost predicate GrewForNeed(free: seq<Block>, size: nat, size': nat, len: nat) {
    size' != size ==>
      && size < size' < 2 * (size + len)
      && forall a :: !RoomAt(free, size, size' / 2, a, len)
  }

  /** One failed pass over the list and one doubling. */
  lemma GrewOnce(free: seq<Block>, size: nat, list: seq<Block>, size': nat, len: nat)
    requires GrownFrom(free, size, list, size') && size > 0 && len > 0
    requires forall i :: 0 <= i < |list| ==> !Fits(list[i], len)
    ensures GrownFrom(free, size, Grow(list, size'), size' * 2)
    ensures GrewForNeed(free, size, size' * 2, len)
    ensures Trailing(list, size') < len
    ensures Trailing(Grow(list, size'), size' * 2) == Trailing(list, size') + size'
  {
    NoRoom(free, size, list, size', len);
    GrowOnce(free, size, list, size');
    GrowNormal(list, size');
    assert |list| > 0 ==> !Fits(list[|list| - 1], len);
  }

  /** Taking the first block that fits is first fit on bytes. */
  lemma FirstBlockIsFirstFit(free: seq<Block>, size: nat, list: seq<Block>, size': nat, i: nat, len: nat)
    requires GrownFrom(free, size, list, size') && GrewForNeed(free, size, size', len) && len > 0
    requires i < |list| && Fits(list[i], len) && forall j :: 0 <= j < i ==> !Fits(list[j], len)
    ensures PlacedFirstFit(free, size, size', list[i].first, len)
  {
    forall b | list[i].first <= b < list[i].first + len ensures FreeOnceGrown(free, size, size', b) {
      assert Covered(list, b);
    }
    forall a | RoomAt(free, size, size', a, len) ensures list[i].first <= a {
      forall b | a <= b < a + len ensures Covered(list, b) {
        assert FreeOnceGrown(free, size, size', b);
      }
      var j := RunInOneBlock(list, size', a, len);
      assert Fits(list[j], len);
      assert j != i ==> list[i].last + 1 < list[j].first;
    }
  }
}
