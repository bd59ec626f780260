/** The free list of the byte allocator: a sorted list of inclusive intervals
    of free bytes, no two of them touching. */
module FreeList {

  /** An element of the list: the first and the last free byte. */
  datatype Block = Block(first: nat, last: nat) {
    function Length(): int { last - first + 1 }
  }

  /** The blocks are non-empty, inside the store, in order, and any two leave
      at least one byte between them. */
  ghost predicate Normal(free: seq<Block>, size: int) {
    && (forall i :: 0 <= i < |free| ==> free[i].first <= free[i].last < size)
    && (forall i, j :: 0 <= i < j < |free| ==> free[i].last + 1 < free[j].first)
  }

  ghost predicate Covered(free: seq<Block>, b: int) {
    exists i :: 0 <= i < |free| && free[i].first <= b <= free[i].last
  }

  /** Length of the block that ends with the store, 0 if there is none. */
  function Trailing(free: seq<Block>, size: nat): (t: int) {
    if |free| > 0 && free[|free| - 1].last == size - 1 then free[|free| - 1].Length() else 0
  }

  /** A run of `len` bytes from `at` is covered by one block, which therefore
      has room for it. */
  lemma RunInOneBlock(free: seq<Block>, size: nat, at: int, len: nat) returns (i: nat)
    requires Normal(free, size) && len > 0
    requires forall b :: at <= b < at + len ==> Covered(free, b)
    ensures i < |free| && free[i].first <= at && at + len - 1 <= free[i].last
    decreases len
  {
    if len == 1 {
      assert Covered(free, at);
      i :| 0 <= i < |free| && free[i].first <= at <= free[i].last;
    } else {
      i := RunInOneBlock(free, size, at, len - 1);
      var b := at + len - 1;
      assert Covered(free, b);
      var j :| 0 <= j < |free| && free[j].first <= b <= free[j].last;
      assert b - 1 <= free[i].last;
      assert i == j;
    }
  }

  lemma CoveredConcat(a: seq<Block>, c: seq<Block>, b: int)
    ensures Covered(a + c, b) <==> Covered(a, b) || Covered(c, b)
  {
    var all := a + c;
    if i :| 0 <= i < |a| && a[i].first <= b <= a[i].last {
      assert all[i] == a[i];
    }
    if i :| 0 <= i < |c| && c[i].first <= b <= c[i].last {
      assert all[|a| + i] == c[i];
    }
  }

  lemma CoveredOne(r: Block, b: int)
    ensures Covered([r], b) <==> r.first <= b <= r.last
  {
    assert [r][0] == r;
  }

  /** A byte is covered before block `i`, by it, or after it. */
  lemma SplitAt(free: seq<Block>, size: int, i: nat, b: int)
    requires Normal(free, size) && i < |free|
    ensures Covered(free, b) <==> Covered(free[..i], b) || free[i].first <= b <= free[i].last || Covered(free[i + 1..], b)
    ensures Covered(free[..i], b) ==> b + 1 < free[i].first
    ensures Covered(free[i + 1..], b) ==> free[i].last + 1 < b
  {
    assert free == free[..i] + [free[i]] + free[i + 1..];
    CoveredConcat(free[..i] + [free[i]], free[i + 1..], b);
    CoveredConcat(free[..i], [free[i]], b);
    CoveredOne(free[i], b);
  }

  lemma CoveredHead(free: seq<Block>, size: nat, b: int)
    requires Normal(free, size) && |free| > 0
    ensures Covered(free, b) <==> free[0].first <= b <= free[0].last || Covered(free[1..], b)
    ensures Covered(free[1..], b) ==> free[0].last + 1 < b
    ensures Covered(free, b) ==> free[0].first <= b
  {
    SplitAt(free, size, 0, b);
  }

  /** A normal free list is determined by the bytes it covers. */
  lemma {:induction false} CoverDeterminesList(f: seq<Block>, g: seq<Block>, size: nat)
    requires Normal(f, size) && Normal(g, size)
    requires forall b :: Covered(f, b) <==> Covered(g, b)
    ensures f == g
    decreases |f|
  {
    assert f != [] ==> Covered(f, f[0].first);
    assert g != [] ==> Covered(g, g[0].first);
    if f != [] && g != [] {
      SameHead(f, g, size);
      SameTail(f, g, size);
      CoverDeterminesList(f[1..], g[1..], size);
      assert f == [f[0]] + f[1..] && g == [g[0]] + g[1..];
    }
  }

  lemma SameTail(f: seq<Block>, g: seq<Block>, size: nat)
    requires Normal(f, size) && Normal(g, size) && f != [] && g != [] && f[0] == g[0]
    requires forall b :: Covered(f, b) <==> Covered(g, b)
    ensures Normal(f[1..], size) && Normal(g[1..], size)
    ensures forall b :: Covered(f[1..], b) <==> Covered(g[1..], b)
  {
    forall b ensures Covered(f[1..], b) <==> Covered(g[1..], b) {
      CoveredHead(f, size, b);
      CoveredHead(g, size, b);
    }
  }

  lemma SameHead(f: seq<Block>, g: seq<Block>, size: nat)
    requires Normal(f, size) && Normal(g, size) && f != [] && g != []
    requires forall b :: Covered(f, b) <==> Covered(g, b)
    ensures f[0] == g[0]
  {
    assert Covered(f, f[0].first) && Covered(g, g[0].first);
    CoveredHead(f, size, g[0].first);
    CoveredHead(g, size, f[0].first);
    CoveredHead(f, size, f[0].last + 1);
    CoveredHead(g, size, f[0].last + 1);
    CoveredHead(f, size, g[0].last + 1);
    CoveredHead(g, size, g[0].last + 1);
  }

  // ---- taking the front of a block (Insert) ----

  /** What Insert leaves of the list once `len` bytes are taken from the front
      of block `i`. */
  function TakeFront(free: seq<Block>, i: nat, len: nat): (r: seq<Block>)
    requires i < |free| && 0 < len <= free[i].Length()
  {
    if free[i].Length() == len then free[..i] + free[i + 1..]
    else free[i := Block(free[i].first + len, free[i].last)]
  }

  lemma TakeFrontCover(free: seq<Block>, size: nat, i: nat, len: nat, b: int)
    requires Normal(free, size) && i < |free| && 0 < len <= free[i].Length()
    ensures Covered(TakeFront(free, i, len), b)
       <==> Covered(free, b) && !(free[i].first <= b < free[i].first + len)
  {
    var x, pre, post := free[i], free[..i], free[i + 1..];
    SplitAt(free, size, i, b);
    if x.Length() == len {
      CoveredConcat(pre, post, b);
    } else {
      var y := Block(x.first + len, x.last);
      assert TakeFront(free, i, len) == pre + [y] + post;
      CoveredConcat(pre + [y], post, b);
      CoveredConcat(pre, [y], b);
      CoveredOne(y, b);
    }
  }

  lemma TakeFrontNormal(free: seq<Block>, size: nat, i: nat, len: nat)
    requires Normal(free, size) && i < |free| && 0 < len <= free[i].Length()
    ensures Normal(TakeFront(free, i, len), size)
  {
  }

  // ---- growing the store (Resize) ----

  /** The list after the store of `size` bytes has doubled. */
  function Grow(free: seq<Block>, size: nat): (r: seq<Block>)
    requires size > 0
  {
    if |free| > 0 && free[|free| - 1].last == size - 1
    then free[|free| - 1 := Block(free[|free| - 1].first, size * 2 - 1)]
    else free + [Block(size, size * 2 - 1)]
  }

  lemma GrowNormal(free: seq<Block>, size: nat)
    requires Normal(free, size) && size > 0
    ensures Normal(Grow(free, size), size * 2)
    ensures Trailing(Grow(free, size), size * 2) == Trailing(free, size) + size
  {
  }

  lemma GrowCover(free: seq<Block>, size: nat, b: int)
    requires Normal(free, size) && size > 0
    ensures Covered(Grow(free, size), b) <==> Covered(free, b) || size <= b < 2 * size
  {
    var r := Grow(free, size);
    if |free| > 0 && free[|free| - 1].last == size - 1 {
      var n := |free| - 1;
      if j :| 0 <= j < |free| && free[j].first <= b <= free[j].last {
        assert r[j].first <= b <= r[j].last;
      }
      if size <= b < 2 * size { assert r[n].first <= b <= r[n].last; }
      if j :| 0 <= j < |r| && r[j].first <= b <= r[j].last {
        assert b < size ==> free[j].first <= b <= free[j].last;
        assert j < n ==> r[j] == free[j];
      }
    } else {
      CoveredConcat(free, [Block(size, size * 2 - 1)], b);
      CoveredOne(Block(size, size * 2 - 1), b);
    }
  }

  // ---- returning a block (Delete) ----

  /** Where the search loop of Delete stops: block `r` goes before block `p`. */
  ghost predicate Slot(free: seq<Block>, r: Block, p: nat) {
    && p <= |free|
    && (p < |free| ==> r.last < free[p].first)
    && (forall i :: 0 <= i < p ==> free[i].last < r.first)
  }

  lemma BetweenBlocks(free: seq<Block>, size: nat, r: Block, p: nat)
    requires Normal(free, size) && r.first <= r.last < size
    requires forall b :: r.first <= b <= r.last ==> !Covered(free, b)
    requires p <= |free| && (p < |free| ==> r.last < free[p].first)
    requires forall i :: 0 <= i < p ==> free[i].first <= r.last
    ensures Slot(free, r, p)
  {
    forall i | 0 <= i < p ensures free[i].last < r.first {
      var b := if free[i].first < r.first then r.first else free[i].first;
      assert b <= free[i].last ==> Covered(free, b);
    }
  }

  /** A list in order whose only touching neighbours are pairs `i`, `i + 1`
      with `i` in `at`. */
  ghost predicate Touching(g: seq<Block>, size: int, at: set<int>) {
    && (forall i :: 0 <= i < |g| ==> g[i].first <= g[i].last < size)
    && (forall i, j :: 0 <= i < j < |g| ==>
          g[i].last < g[j].first && (g[i].last + 1 == g[j].first ==> j == i + 1 && i in at))
  }

  function InsertBefore(free: seq<Block>, p: nat, r: Block): (g: seq<Block>)
    requires p <= |free|
  {
    free[..p] + [r] + free[p..]
  }

  lemma InsertTouches(free: seq<Block>, size: int, p: nat, r: Block)
    requires Normal(free, size) && r.first <= r.last < size && Slot(free, r, p)
    ensures Touching(InsertBefore(free, p, r), size, {p - 1, p})
  {
    forall i | p <= i < |free| ensures r.last < free[i].first && (i > p ==> r.last + 1 < free[i].first) {
      assert i > p ==> free[p].last + 1 < free[i].first;
    }
    forall i | 0 <= i < p ensures free[i].last < r.first && (i < p - 1 ==> free[i].last + 1 < r.first) {
      assert i < p - 1 ==> free[i].last + 1 < free[p - 1].first;
    }
  }

  lemma InsertCover(free: seq<Block>, p: nat, r: Block, b: int)
    requires p <= |free|
    ensures Covered(InsertBefore(free, p, r), b) <==> Covered(free, b) || r.first <= b <= r.last
  {
    assert free == free[..p] + free[p..];
    CoveredConcat(free[..p], free[p..], b);
    CoveredConcat(free[..p] + [r], free[p..], b);
    CoveredConcat(free[..p], [r], b);
    CoveredOne(r, b);
  }

  /** Blocks `i` and `i + 1` made one. */
  function Join(g: seq<Block>, i: nat): (r: seq<Block>)
    requires i + 1 < |g|
  {
    g[..i] + [Block(g[i].first, g[i + 1].last)] + g[i + 2..]
  }

  lemma JoinTouches(g: seq<Block>, size: int, i: nat, at: set<int>)
    requires i + 1 < |g| && Touching(g, size, at) && at <= {i, i + 1}
    ensures Touching(Join(g, i), size, if i + 1 in at then {i} else {})
  {
  }

  /** Joining touching neighbours covers the same bytes. */
  lemma JoinCover(g: seq<Block>, size: int, at: set<int>, i: nat, b: int)
    requires i + 1 < |g| && Touching(g, size, at) && g[i].last + 1 == g[i + 1].first
    ensures Covered(Join(g, i), b) <==> Covered(g, b)
  {
    var l, r, pre, post := g[i], g[i + 1], g[..i], g[i + 2..];
    var m := Block(l.first, r.last);
    assert g == pre + [l] + [r] + post;
    CoveredConcat(pre + [l] + [r], post, b);
    CoveredConcat(pre + [l], [r], b);
    CoveredConcat(pre, [l], b);
    CoveredConcat(pre + [m], post, b);
    CoveredConcat(pre, [m], b);
    CoveredOne(l, b);
    CoveredOne(r, b);
    CoveredOne(m, b);
  }

  /** `g` is what becomes of `free` when block `r` is given back: normal, and
      covering exactly the old bytes and those of `r`. */
  ghost predicate Returned(free: seq<Block>, r: Block, g: seq<Block>, size: int) {
    && Normal(g, size)
    && forall b :: Covered(g, b) <==> Covered(free, b) || r.first <= b <= r.last
  }

  /** Joins block `i` to the next one when they touch. */
  function JoinIfTouching(g: seq<Block>, i: int): (r: seq<Block>) {
    if 0 <= i && i + 1 < |g| && g[i].last + 1 == g[i + 1].first then Join(g, i) else g
  }

  lemma JoinIfTouchingCover(g: seq<Block>, size: int, at: set<int>, i: int, b: int)
    requires Touching(g, size, at)
    ensures Covered(JoinIfTouching(g, i), b) <==> Covered(g, b)
  {
    if JoinIfTouching(g, i) != g { JoinCover(g, size, at, i, b); }
  }

  /** The list after block `r` went in before block `p` and was joined with its
      left neighbour, and where `r` is then. */
  function JoinLeft(free: seq<Block>, p: nat, r: Block): (g: (seq<Block>, nat))
    requires p <= |free|
  {
    var g := InsertBefore(free, p, r);
    (JoinIfTouching(g, p - 1), if p > 0 && g[p].first == g[p - 1].last + 1 then p - 1 else p)
  }

  lemma JoinLeftTouches(free: seq<Block>, size: int, p: nat, r: Block)
    requires Normal(free, size) && r.first <= r.last < size && Slot(free, r, p)
    ensures var (g, q) := JoinLeft(free, p, r); Touching(g, size, {q})
    ensures forall b :: Covered(JoinLeft(free, p, r).0, b) <==> Covered(free, b) || r.first <= b <= r.last
  {
    var g := InsertBefore(free, p, r);
    InsertTouches(free, size, p, r);
    if p > 0 && g[p].first == g[p - 1].last + 1 { JoinTouches(g, size, p - 1, {p - 1, p}); }
    forall b ensures Covered(JoinLeft(free, p, r).0, b) <==> Covered(free, b) || r.first <= b <= r.last {
      InsertCover(free, p, r, b);
      JoinIfTouchingCover(g, size, {p - 1, p}, p - 1, b);
    }
  }

  /** Inserting a block at its place and joining it with both neighbours gives
      its bytes back and leaves the list normal. */
  lemma CoalescingReturnsBlock(free: seq<Block>, size: int, p: nat, r: Block)
    requires Normal(free, size) && r.first <= r.last < size && Slot(free, r, p)
    ensures var (g, q) := JoinLeft(free, p, r); Returned(free, r, JoinIfTouching(g, q), size)
  {
    var (g, q) := JoinLeft(free, p, r);
    JoinLeftTouches(free, size, p, r);
    JoinRightIsNormal(g, size, q);
    forall b ensures Covered(JoinIfTouching(g, q), b) <==> Covered(free, b) || r.first <= b <= r.last {
      JoinIfTouchingCover(g, size, {q}, q, b);
    }
  }

  lemma JoinRightIsNormal(g: seq<Block>, size: int, q: nat)
    requires Touching(g, size, {q})
    ensures Normal(JoinIfTouching(g, q), size)
  {
    if q + 1 < |g| && g[q].last + 1 == g[q + 1].first {
      JoinTouches(g, size, q, {q});
    }
  }
}
