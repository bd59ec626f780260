/** How a message is cut into fixed-size nodes of a circular array, and how much
    of the array a queue of messages takes. */
module ShmMessages {
  import opened Bytes
  import opened Modular

  type Message = seq<byte>

  const NODE_SIZE: nat := 512

  /** A node: how many nodes its message has (set in the first one), how many
      bytes are used (set in the last one), and the bytes. */
  datatype Node = Node(count: nat, len: nat, buf: seq<byte>)

  ghost predicate Shaped(nodes: seq<Node>) {
    |nodes| >= 1 && forall i :: 0 <= i < |nodes| ==> |nodes[i].buf| == NODE_SIZE
  }

  /** The node at position `j`, counted without wrapping. */
  function Cell(nodes: seq<Node>, j: nat): Node
    requires |nodes| >= 1
  {
    nodes[j % |nodes|]
  }

  function NeedNodes(len: nat): (n: nat)
    requires len >= 1
    ensures n >= 1 && (n - 1) * 512 < len <= n * 512
  {
    (len - 1) / NODE_SIZE + 1
  }

  /** Bytes in the last node of a message. */
  function LastLen(len: nat): (r: nat)
    requires len >= 1
    ensures 1 <= r <= 512 && (NeedNodes(len) - 1) * 512 + r == len
  {
    var r := len % NODE_SIZE;
    if r == 0 then NODE_SIZE else r
  }

  /** The part of a message that goes into its node `i`. */
  function Chunk(m: Message, i: nat): (c: seq<byte>)
    requires |m| >= 1 && i < NeedNodes(|m|)
    ensures |c| == if i == NeedNodes(|m|) - 1 then LastLen(|m|) else 512
  {
    if i == NeedNodes(|m|) - 1 then m[i * NODE_SIZE..] else m[i * NODE_SIZE..(i + 1) * NODE_SIZE]
  }

  /** The first `n` parts, put together again. */
  function Joined(m: Message, n: nat): (r: seq<byte>)
    requires |m| >= 1 && n <= NeedNodes(|m|)
  {
    if n == NeedNodes(|m|) then m else m[..n * NODE_SIZE]
  }

  lemma JoinNext(m: Message, n: nat)
    requires |m| >= 1 && n < NeedNodes(|m|)
    ensures Joined(m, n) + Chunk(m, n) == Joined(m, n + 1)
  {
  }

  /** `n` unread nodes from position `pos`, counted without wrapping, hold the
      parts of `m`. */
  ghost predicate PartsAt(nodes: seq<Node>, pos: nat, m: Message, n: nat)
    requires Shaped(nodes) && |m| >= 1
  {
    n <= NeedNodes(|m|) &&
    forall i :: 0 <= i < n ==> Cell(nodes, pos + i).buf[..|Chunk(m, i)|] == Chunk(m, i)
  }

  ghost predicate MessageAt(nodes: seq<Node>, pos: nat, m: Message)
    requires Shaped(nodes)
  {
    && |m| >= 1
    && Cell(nodes, pos).count == NeedNodes(|m|)
    && Cell(nodes, pos + NeedNodes(|m|) - 1).len == LastLen(|m|)
    && PartsAt(nodes, pos, m, NeedNodes(|m|))
  }

  ghost predicate NonEmpty(ms: seq<Message>) {
    forall i :: 0 <= i < |ms| ==> |ms[i]| >= 1
  }

  /** Nodes taken by a queue of messages. */
  ghost function Used(ms: seq<Message>): (n: nat)
    requires NonEmpty(ms)
    ensures n >= |ms|
  {
    if ms == [] then 0 else NeedNodes(|ms[0]|) + Used(ms[1..])
  }

  /** There is room for `m` in a queue of at most `capacity` nodes. */
  ghost predicate Admits(capacity: int, ms: seq<Message>, m: Message)
    requires NonEmpty(ms) && |m| >= 1
  {
    Used(ms) + NeedNodes(|m|) <= capacity
  }

  ghost predicate Stored(nodes: seq<Node>, pos: nat, ms: seq<Message>)
    requires Shaped(nodes)
    decreases |ms|
  {
    ms == [] ||
    (MessageAt(nodes, pos, ms[0]) && Stored(nodes, pos + NeedNodes(|ms[0]|), ms[1..]))
  }

  lemma {:induction false} UsedAppend(ms: seq<Message>, m: Message)
    requires NonEmpty(ms) && |m| >= 1
    ensures NonEmpty(ms + [m]) && Used(ms + [m]) == Used(ms) + NeedNodes(|m|)
  {
    if ms == [] {
      assert ms + [m] == [m];
      assert [m][1..] == [];
    } else {
      UsedAppend(ms[1..], m);
      assert (ms + [m])[1..] == ms[1..] + [m];
    }
  }

  lemma {:induction false} StoredAppend(nodes: seq<Node>, pos: nat, ms: seq<Message>, m: Message)
    requires Shaped(nodes) && NonEmpty(ms) && Stored(nodes, pos, ms) && MessageAt(nodes, pos + Used(ms), m)
    ensures Stored(nodes, pos, ms + [m])
    decreases |ms|
  {
    if ms == [] {
      assert ms + [m] == [m];
      assert [m][1..] == [];
    } else {
      assert pos + Used(ms) == pos + NeedNodes(|ms[0]|) + Used(ms[1..]);
      StoredAppend(nodes, pos + NeedNodes(|ms[0]|), ms[1..], m);
      assert (ms + [m])[1..] == ms[1..] + [m];
    }
  }

  /** `nodes'` has the same nodes at positions `lo` up to `hi`. */
  ghost predicate SameAt(nodes: seq<Node>, nodes': seq<Node>, lo: nat, hi: nat) {
    |nodes'| == |nodes| > 0 && forall j :: lo <= j < hi ==> Cell(nodes', j) == Cell(nodes, j)
  }

  lemma MessageFrame(nodes: seq<Node>, nodes': seq<Node>, pos: nat, m: Message)
    requires Shaped(nodes) && Shaped(nodes') && MessageAt(nodes, pos, m)
    requires SameAt(nodes, nodes', pos, pos + NeedNodes(|m|))
    ensures MessageAt(nodes', pos, m)
  {
    forall i | 0 <= i < NeedNodes(|m|) ensures Cell(nodes', pos + i).buf[..|Chunk(m, i)|] == Chunk(m, i) {
      assert Cell(nodes', pos + i) == Cell(nodes, pos + i);
    }
  }

  lemma {:induction false} StoredFrame(nodes: seq<Node>, nodes': seq<Node>, pos: nat, ms: seq<Message>)
    requires Shaped(nodes) && Shaped(nodes') && NonEmpty(ms) && Stored(nodes, pos, ms)
    requires SameAt(nodes, nodes', pos, pos + Used(ms))
    ensures Stored(nodes', pos, ms)
    decreases |ms|
  {
    if ms != [] {
      MessageFrame(nodes, nodes', pos, ms[0]);
      StoredFrame(nodes, nodes', pos + NeedNodes(|ms[0]|), ms[1..]);
    }
  }

  /** Changing the node at one position leaves every other position within a
      turn as it was. */
  lemma OtherCell(nodes: seq<Node>, at: nat, j: nat, node: Node)
    requires |nodes| >= 1 && at < j + |nodes| && j < at + |nodes| && j != at
    ensures Cell(nodes[at % |nodes| := node], j) == Cell(nodes, j)
  {
    if j < at { ModApart(j, at, |nodes|); } else { ModApart(at, j, |nodes|); }
  }

  /** The first `i` parts of `m` have been written from position `at`, and the
      messages from `lo` up to there are as they were in `was`. */
  ghost predicate Writing(was: seq<Node>, nodes: seq<Node>, lo: nat, at: nat, m: Message, i: nat) {
    && Shaped(nodes) && |nodes| == |was| && |m| >= 1
    && lo <= at && at + NeedNodes(|m|) < lo + |nodes|
    && SameAt(was, nodes, lo, at)
    && Cell(nodes, at).count == NeedNodes(|m|)
    && PartsAt(nodes, at, m, i)
    && (i == NeedNodes(|m|) ==> Cell(nodes, at + i - 1).len == LastLen(|m|))
  }

  lemma WritingStarts(was: seq<Node>, lo: nat, at: nat, m: Message)
    requires Shaped(was) && |m| >= 1 && lo <= at && at + NeedNodes(|m|) < lo + |was|
    ensures Writing(was, was[at % |was| := Cell(was, at).(count := NeedNodes(|m|))], lo, at, m, 0)
  {
    var node := Cell(was, at).(count := NeedNodes(|m|));
    forall j | lo <= j < at ensures Cell(was[at % |was| := node], j) == Cell(was, j) {
      OtherCell(was, at, j, node);
    }
  }

  lemma WritingGoesOn(was: seq<Node>, nodes: seq<Node>, lo: nat, at: nat, m: Message, i: nat, node: Node)
    requires Writing(was, nodes, lo, at, m, i) && i < NeedNodes(|m|)
    requires node.count == Cell(nodes, at + i).count && |node.buf| == NODE_SIZE
    requires node.buf[..|Chunk(m, i)|] == Chunk(m, i)
    requires i == NeedNodes(|m|) - 1 ==> node.len == LastLen(|m|)
    ensures Writing(was, nodes[(at + i) % |nodes| := node], lo, at, m, i + 1)
  {
    var nodes' := nodes[(at + i) % |nodes| := node];
    forall j | lo <= j < at ensures Cell(nodes', j) == Cell(was, j) {
      OtherCell(nodes, at + i, j, node);
    }
    forall k | 0 <= k < i + 1 ensures Cell(nodes', at + k).buf[..|Chunk(m, k)|] == Chunk(m, k) {
      if k < i { OtherCell(nodes, at + i, at + k, node); }
    }
    if i > 0 { OtherCell(nodes, at + i, at, node); }
  }

  /** Once all parts are written the message is in the queue, last. */
  lemma {:induction false} WritingDone(was: seq<Node>, nodes: seq<Node>, lo: nat, ms: seq<Message>, m: Message)
    requires Shaped(was) && NonEmpty(ms) && Stored(was, lo, ms)
    requires Writing(was, nodes, lo, lo + Used(ms), m, NeedNodes(if |m| >= 1 then |m| else 1))
    ensures Stored(nodes, lo, ms + [m])
  {
    StoredFrame(was, nodes, lo, ms);
    StoredAppend(nodes, lo, ms, m);
  }
}
