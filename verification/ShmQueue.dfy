/** The queue in shared memory: messages of any length, cut into nodes of a
    circular array. */
module ShmQueue {
  import opened Bytes
  import opened Modular
  import opened ShmMessages
  import ShmMonitor

  datatype Status = Done | Refused | ShutDown | Waits

  class CShareQueue {
    const nodes: array<Node>
    var front: nat
    var rear: nat
    var shutDown: bool

    /** The messages not yet taken, oldest first, and how many nodes have been
        taken since the start. */
    ghost var messages: seq<Message>
    ghost var taken: nat

    ghost predicate Valid()
      reads this, nodes
    {
      && Shaped(nodes[..])
      && NonEmpty(messages)
      && Used(messages) < nodes.Length
      && front == taken % nodes.Length
      && rear == (taken + Used(messages)) % nodes.Length
      && Stored(nodes[..], taken, messages)
    }

    constructor (maxSize: nat)
      requires maxSize >= 1
      ensures Valid() && messages == [] && !shutDown && nodes.Length == maxSize && fresh(nodes)
    {
      nodes := new Node[maxSize](_ => Node(0, 0, seq(NODE_SIZE, _ => 0)));
      front, rear, shutDown := 0, 0, false;
      messages, taken := [], 0;
    }

    predicate FullQueue()
      requires nodes.Length > 0
      reads this
    {
      front == (rear + 1) % nodes.Length
    }

    predicate EmptyQueue()
      reads this
    {
      front == rear
    }

    function EmptyNodes(): (n: int)
      reads this
    {
      if rear >= front then nodes.Length - 1 - (rear - front) else front - rear - 1
    }

    /** The free nodes are those no queued message needs; the two tests say
        whether there are none, or all. */
    lemma NodesInUse()
      requires Valid()
      ensures EmptyNodes() == nodes.Length - 1 - Used(messages)
      ensures 0 <= EmptyNodes() <= nodes.Length - 1
      ensures FullQueue() <==> EmptyNodes() == 0
      ensures EmptyQueue() <==> EmptyNodes() == nodes.Length - 1
      ensures EmptyQueue() <==> messages == []
    {
      IndexDistance(taken, Used(messages), nodes.Length);
    }

    /** Adds a message for which there is room; the nodes of the queued messages
        are left as they were. */
    method Write(buf: Message)
      requires Valid() && |buf| >= 1 && Admits(nodes.Length - 1, messages, buf)
      modifies this`rear, this`messages, nodes
      ensures Valid() && messages == old(messages) + [buf]
      ensures SameAt(old(nodes[..]), nodes[..], taken, taken + Used(old(messages)))
    {
      ghost var was, at := nodes[..], taken + Used(messages);
      CopyIn(buf, taken, at);
      WritingDone(was, nodes[..], taken, messages, buf);
      UsedAppend(messages, buf);
      messages := messages + [buf];
    }

    /** The copying loop of Enqueue. */
    method CopyIn(buf: Message, ghost lo: nat, ghost at: nat)
      requires Shaped(nodes[..]) && |buf| >= 1 && lo <= at && at + NeedNodes(|buf|) < lo + nodes.Length
      requires rear == at % nodes.Length
      modifies this`rear, nodes
      ensures Writing(old(nodes[..]), nodes[..], lo, at, buf, NeedNodes(|buf|))
      ensures rear == (at + NeedNodes(|buf|)) % nodes.Length
    {
      var need := NeedNodes(|buf|);
      ghost var was := nodes[..];
      WritingStarts(was, lo, at, buf);
      nodes[rear] := nodes[rear].(count := need);
      for i := 0 to need
        invariant rear == (at + i) % nodes.Length
        invariant Writing(was, nodes[..], lo, at, buf, i)
      {
        PutPart(buf, i, was, lo, at);
        rear := NextPlace(rear, at + i);
      }
    }

    /** Copies one part of a message into the node at `rear`. */
    method PutPart(buf: Message, i: nat, ghost was: seq<Node>, ghost lo: nat, ghost at: nat)
      requires Writing(was, nodes[..], lo, at, buf, i) && i < NeedNodes(|buf|)
      requires rear == (at + i) % nodes.Length
      modifies nodes
      ensures Writing(was, nodes[..], lo, at, buf, i + 1)
    {
      var part, node := Chunk(buf, i), nodes[rear];
      if i == NeedNodes(|buf|) - 1 { node := node.(len := LastLen(|buf|)); }
      node := node.(buf := part + node.buf[|part|..]);
      WritingGoesOn(was, nodes[..], lo, at, buf, i, node);
      nodes[rear] := node;
    }

    /** The node after `place`, which is position `j` of the ring. */
    method NextPlace(place: nat, ghost j: nat) returns (next: nat)
      requires nodes.Length >= 1 && place == j % nodes.Length
      ensures next == (j + 1) % nodes.Length
    {
      ModAdd(j, 1, nodes.Length);
      next := (place + 1) % nodes.Length;
    }

    /** Copies the oldest message out and frees its nodes. */
    method Read() returns (buf: Message, len: nat)
      requires Valid() && messages != []
      modifies this`front, this`messages, this`taken
      ensures Valid() && messages == old(messages)[1..]
      ensures buf == old(messages)[0] && len == |buf|
    {
      var need := nodes[front].count;
      ModAdd(taken, need - 1, nodes.Length);
      len := (need - 1) * NODE_SIZE + nodes[(front + need - 1) % nodes.Length].len;
      buf := CopyOut(need, taken, messages[0]);
      messages, taken := messages[1..], taken + need;
    }

    /** The copying loop of Dequeue. */
    method CopyOut(need: nat, ghost at: nat, ghost m: Message) returns (buf: Message)
      requires Shaped(nodes[..]) && MessageAt(nodes[..], at, m) && need == NeedNodes(|m|)
      requires front == at % nodes.Length
      modifies this`front
      ensures buf == m && front == (at + need) % nodes.Length
    {
      buf := [];
      for i := 0 to need
        invariant front == (at + i) % nodes.Length
        invariant buf == Joined(m, i)
      {
        var part := TakePart(i, need, at, m);
        JoinNext(m, i);
        buf := buf + part;
        front := NextPlace(front, at + i);
      }
    }

    /** The part of a message that the node at `front` holds. */
    method TakePart(i: nat, need: nat, ghost at: nat, ghost m: Message) returns (part: seq<byte>)
      requires Shaped(nodes[..]) && MessageAt(nodes[..], at, m) && i < need == NeedNodes(|m|)
      requires front == (at + i) % nodes.Length
      ensures part == Chunk(m, i)
    {
      var node := nodes[front];
      assert Cell(nodes[..], at + i).buf[..|Chunk(m, i)|] == Chunk(m, i);
      part := node.buf[..if i == need - 1 then node.len else NODE_SIZE];
    }

    /** One pass of the waiting loop of Enqueue, under the lock. */
    method EnqueueLocked(buf: Message) returns (r: Status)
      requires Valid() && |buf| >= 1
      modifies this, nodes
      ensures Valid() && taken == old(taken) && shutDown == old(shutDown)
      ensures r == (if Used(old(messages)) + NeedNodes(|buf|) <= nodes.Length - 1 then Done
                    else if shutDown then ShutDown else Waits)
      ensures messages == if r == Done then old(messages) + [buf] else old(messages)
    {
      NodesInUse();
      if FullQueue() || EmptyNodes() < NeedNodes(|buf|) {
        return if shutDown then ShutDown else Waits;
      }
      Write(buf);
      r := Done;
    }

    method Enqueue(buf: Message) returns (r: Status)
      requires Valid()
      modifies this, nodes
      ensures Valid() && taken == old(taken) && shutDown == old(shutDown)
      ensures r == Refused <==> buf == [] || shutDown
      ensures r == Done <==> buf != [] && !shutDown && Used(old(messages)) + NeedNodes(|buf|) <= nodes.Length - 1
      ensures messages == if r == Done then old(messages) + [buf] else old(messages)
    {
      if |buf| == 0 || shutDown { return Refused; }
      r := EnqueueLocked(buf);
    }

    /** One pass of the waiting loop of Dequeue, under the lock. */
    method DequeueLocked() returns (r: Status, buf: Message, len: nat)
      requires Valid()
      modifies this
      ensures Valid() && shutDown == old(shutDown)
      ensures r == (if old(messages) != [] then Done else if shutDown then ShutDown else Waits)
      ensures r == Done ==> buf == old(messages)[0] && len == |buf| && messages == old(messages)[1..]
      ensures r != Done ==> messages == old(messages)
    {
      NodesInUse();
      buf, len := [], 0;
      if EmptyQueue() {
        r := if shutDown then ShutDown else Waits;
        return;
      }
      buf, len := Read();
      r := Done;
    }

    method Dequeue() returns (r: Status, buf: Message, len: nat)
      requires Valid()
      modifies this
      ensures Valid() && shutDown == old(shutDown)
      ensures r == (if shutDown then Refused else if old(messages) == [] then Waits else Done)
      ensures r == Done ==> buf == old(messages)[0] && len == |buf| && messages == old(messages)[1..]
      ensures r != Done ==> messages == old(messages)
    {
      if shutDown { return Refused, [], 0; }
      r, buf, len := DequeueLocked();
    }

    // ---- the same as steps of the machine of threads ----

    /** The machine's queue is this one. */
    ghost predicate Mirrors(s: ShmMonitor.State)
      reads this
    {
      s.capacity == nodes.Length - 1 && s.messages == messages
    }

    /** A sender's pass of the waiting loop is the machine's step: it sleeps
        exactly when the pass waits, else it goes on to signal. */
    method SendStep(buf: Message, ghost s: ShmMonitor.State, ghost t: nat) returns (r: Status, ghost s': ShmMonitor.State)
      requires Valid() && Mirrors(s) && !shutDown
      requires ShmMonitor.WellFormed(s) && t in s.threads && s.threads[t] == ShmMonitor.SendCheck(buf)
      modifies this, nodes
      ensures Valid() && s' == ShmMonitor.Next(s, t, t) && Mirrors(s')
      ensures if s'.threads[t].SendSleep? then r == Waits else r == Done && s'.threads[t].SendSignal?
    {
      assert ShmMonitor.WellFormedPc(s.threads[t]);
      s' := ShmMonitor.Next(s, t, t);
      r := EnqueueLocked(buf);
    }

    /** And a receiver's. */
    method RecvStep(ghost s: ShmMonitor.State, ghost t: nat) returns (r: Status, buf: Message, len: nat, ghost s': ShmMonitor.State)
      requires Valid() && Mirrors(s) && !shutDown
      requires ShmMonitor.WellFormed(s) && t in s.threads && s.threads[t].RecvCheck?
      modifies this
      ensures Valid() && s' == ShmMonitor.Next(s, t, t) && Mirrors(s')
      ensures if s'.threads[t].RecvSleep? then r == Waits
              else r == Done && s'.threads[t].RecvSignal? && s'.received == s.received + [buf] && len == |buf|
    {
      s' := ShmMonitor.Next(s, t, t);
      r, buf, len := DequeueLocked();
    }
  }

  lemma SmallMod(x: nat, n: nat)
    requires x < 2 * n
    ensures x % n == if x < n then x else x - n
  {
    if x < n { Remainder(0, x, n); } else { Remainder(1, x - n, n); }
  }

  lemma IndexDistance(at: nat, used: nat, n: nat)
    requires used < n
    ensures var f, r := at % n, (at + used) % n;
      && (if r >= f then n - 1 - (r - f) else f - r - 1) == n - 1 - used
      && (f == (r + 1) % n <==> used == n - 1)
      && (f == r <==> used == 0)
  {
    ModAdd(at, used, n);
    SmallMod(at % n + used, n);
    SmallMod((at + used) % n + 1, n);
  }
}
