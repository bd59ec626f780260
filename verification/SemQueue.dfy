/** The bounded queue of the second server: two counting semaphores, and one
    mutex for each end, so an enqueue and a dequeue can be inside at once. */
module SemQueue {
  import opened Counting
  import opened Modular

  type Tid = nat

  /** Where a thread is: the atomic action it will do next. A ticket is the
      position, among all items put or taken, of the thread's own item. */
  datatype Pc<T> =
    | Idle
    | EnqWaitEmpty(obj: T)
    | EnqWaitMutex(obj: T)
    | EnqWrite(obj: T)
    | EnqAdvance
    | EnqPostMutex
    | EnqPostFull
    | DeqWaitFull
    | DeqWaitMutex
    | DeqRead
    | DeqAdvance(ret: T, ghost ticket: nat)
    | DeqPostMutex(ret: T, ghost ticket: nat)
    | DeqPostEmpty(ret: T, ghost ticket: nat)

  /** What a finished dequeue returned, and its ticket. */
  datatype Return<T> = Return(item: T, ticket: nat)

  /** One state of the queue and of the threads that use it, with the items
      that enqueue was called with, that were written to a slot, that were read
      from one, and that dequeue returned, each in the order of the event. */
  datatype State<T> = State(
    slots: seq<T>, head: nat, tail: nat,
    full: nat, empty: nat, enqueueMutex: nat, dequeueMutex: nat,
    threads: map<Tid, Pc<T>>,
    asked: seq<T>, put: seq<T>, taken: seq<T>, returned: seq<Return<T>>)
  {
    function Size(): nat { |slots| }
  }

  datatype Action<T> = Enqueue(t: Tid, obj: T) | Dequeue(t: Tid) | Step(t: Tid)

  ghost function Init<T>(slots: seq<T>): State<T> {
    State(slots, 0, 0, 0, |slots|, 1, 1, map[], [], [], [], [])
  }

  // ---- the atomic actions ----

  predicate IsIdle<T>(threads: map<Tid, Pc<T>>, t: Tid) { t in threads ==> threads[t].Idle? }

  /** The thread is inside a call and its next action does not block. */
  predicate CanStep<T>(s: State<T>, t: Tid) {
    && t in s.threads
    && match s.threads[t] {
         case Idle => false
         case EnqWaitEmpty(_) => s.empty > 0
         case EnqWaitMutex(_) => s.enqueueMutex > 0
         case DeqWaitFull => s.full > 0
         case DeqWaitMutex => s.dequeueMutex > 0
         case _ => true
       }
  }

  ghost function Next<T>(s: State<T>, t: Tid): State<T>
    requires CanStep(s, t) && s.head < s.Size() && s.tail < s.Size()
  {
    match s.threads[t]
    case EnqWaitEmpty(obj) => s.(empty := s.empty - 1, threads := s.threads[t := EnqWaitMutex(obj)])
    case EnqWaitMutex(obj) => s.(enqueueMutex := s.enqueueMutex - 1, threads := s.threads[t := EnqWrite(obj)])
    case EnqWrite(obj) =>
      s.(slots := s.slots[s.head := obj], put := s.put + [obj], threads := s.threads[t := EnqAdvance])
    case EnqAdvance => s.(head := (s.head + 1) % s.Size(), threads := s.threads[t := EnqPostMutex])
    case EnqPostMutex => s.(enqueueMutex := s.enqueueMutex + 1, threads := s.threads[t := EnqPostFull])
    case EnqPostFull => s.(full := s.full + 1, threads := s.threads[t := Idle])
    case DeqWaitFull => s.(full := s.full - 1, threads := s.threads[t := DeqWaitMutex])
    case DeqWaitMutex => s.(dequeueMutex := s.dequeueMutex - 1, threads := s.threads[t := DeqRead])
    case DeqRead =>
      s.(taken := s.taken + [s.slots[s.tail]], threads := s.threads[t := DeqAdvance(s.slots[s.tail], |s.taken|)])
    case DeqAdvance(ret, k) =>
      s.(tail := (s.tail + 1) % s.Size(), threads := s.threads[t := DeqPostMutex(ret, k)])
    case DeqPostMutex(ret, k) =>
      s.(dequeueMutex := s.dequeueMutex + 1, threads := s.threads[t := DeqPostEmpty(ret, k)])
    case DeqPostEmpty(ret, k) =>
      s.(empty := s.empty + 1, returned := s.returned + [Return(ret, k)], threads := s.threads[t := Idle])
  }

  // ---- the invariant ----

  /** What a thread holds at a given place. */
  datatype Class<T> =
    | Holding(x: T)
    | Wanting
    | Reserving | Written | InEnqueue | Advancing
    | Claiming | Consumed | InDequeue | Retiring

  ghost predicate In<T>(c: Class<T>, pc: Pc<T>) {
    match c
    case Holding(x) => (pc.EnqWaitEmpty? || pc.EnqWaitMutex? || pc.EnqWrite?) && pc.obj == x
    case Wanting => pc.DeqWaitFull? || pc.DeqWaitMutex? || pc.DeqRead?
    case Reserving => pc.EnqWaitMutex? || pc.EnqWrite?
    case Written => pc.EnqAdvance? || pc.EnqPostMutex? || pc.EnqPostFull?
    case InEnqueue => pc.EnqWrite? || pc.EnqAdvance? || pc.EnqPostMutex?
    case Advancing => pc.EnqAdvance?
    case Claiming => pc.DeqWaitMutex? || pc.DeqRead?
    case Consumed => pc.DeqAdvance? || pc.DeqPostMutex? || pc.DeqPostEmpty?
    case InDequeue => pc.DeqRead? || pc.DeqAdvance? || pc.DeqPostMutex?
    case Retiring => pc.DeqAdvance?
  }

  ghost function Members<T>(threads: map<Tid, Pc<T>>, c: Class<T>): set<Tid> {
    set t | t in threads && In(c, threads[t])
  }

  ghost function Count<T>(threads: map<Tid, Pc<T>>, c: Class<T>): nat { |Members(threads, c)| }

  lemma CountMoves<T>(threads: map<Tid, Pc<T>>, t: Tid, pc: Pc<T>, c: Class<T>)
    ensures Count(threads[t := pc], c) == Count(threads, c) - One(t in threads && In(c, threads[t])) + One(In(c, pc))
  {
    var was, now := Members(threads, c), Members(threads[t := pc], c);
    forall u | u != t ensures u in was <==> u in now { }
    SizesDifferBy(was, now, t);
  }

  lemma CountHas<T>(threads: map<Tid, Pc<T>>, t: Tid, c: Class<T>)
    requires t in threads && In(c, threads[t])
    ensures Count(threads, c) >= 1
  {
    assert t in Members(threads, c);
  }

  /** `Advancing` threads are `InEnqueue`, and `Retiring` ones `InDequeue`. */
  lemma CountInside<T>(threads: map<Tid, Pc<T>>, t: Tid)
    ensures Count(threads, Advancing) <= Count(threads, InEnqueue)
    ensures Count(threads, Retiring) <= Count(threads, InDequeue)
    ensures t in threads && threads[t].EnqWrite? ==> Count(threads, Advancing) < Count(threads, InEnqueue)
    ensures t in threads && threads[t].DeqRead? ==> Count(threads, Retiring) < Count(threads, InDequeue)
  {
    var a, e := Members(threads, Advancing), Members(threads, InEnqueue);
    var r, d := Members(threads, Retiring), Members(threads, InDequeue);
    assert a <= e && r <= d;
    SubsetSize(a, e);
    SubsetSize(r, d);
    if t in threads && threads[t].EnqWrite? { assert a <= e - {t}; SubsetSize(a, e - {t}); }
    if t in threads && threads[t].DeqRead? { assert r <= d - {t}; SubsetSize(r, d - {t}); }
  }

  /** Semaphores and mutexes account for every slot and every thread. */
  ghost predicate Tokens<T>(s: State<T>) {
    && s.Size() >= 1
    && |s.taken| <= |s.put|
    && s.full + Count(s.threads, Claiming) + Count(s.threads, Written) == |s.put| - |s.taken|
    && s.empty + Count(s.threads, Reserving) + Count(s.threads, Consumed) == s.Size() - (|s.put| - |s.taken|)
    && s.enqueueMutex + Count(s.threads, InEnqueue) == 1
    && s.dequeueMutex + Count(s.threads, InDequeue) == 1
  }

  /** The indexes count the items, and the slots between them hold the items
      that were put and not yet taken. */
  ghost predicate Ring<T>(s: State<T>) {
    && IndexCounts(s.head, |s.put|, Count(s.threads, Advancing), s.Size())
    && IndexCounts(s.tail, |s.taken|, Count(s.threads, Retiring), s.Size())
    && forall i :: |s.taken| <= i < |s.put| ==> s.slots[i % s.Size()] == s.put[i]
  }

  /** The ticket of a thread that has read an item, -1 before. */
  ghost function Ticket<T>(pc: Pc<T>): int {
    match pc
    case DeqAdvance(_, k) => k
    case DeqPostMutex(_, k) => k
    case DeqPostEmpty(_, k) => k
    case _ => -1
  }

  /** A thread that has read an item returns the one on its ticket. */
  ghost predicate Owns<T>(pc: Pc<T>, taken: seq<T>) {
    Ticket(pc) != -1 ==> Ticket(pc) < |taken| && pc.ret == taken[Ticket(pc)]
  }

  /** What was taken is what was put, in the same order, and no two calls
      return the same item. */
  ghost predicate Order<T>(s: State<T>) {
    && s.taken <= s.put
    && (forall t :: t in s.threads ==> Owns(s.threads[t], s.taken))
    && (forall t, u | t in s.threads && u in s.threads && t != u ::
          Ticket(s.threads[t]) == -1 || Ticket(s.threads[t]) != Ticket(s.threads[u]))
  }

  /** Every finished dequeue returned the item of its ticket, and no other call,
      finished or in progress, has that ticket; and there is a call for each item
      read. */
  ghost predicate Returns<T>(s: State<T>) {
    && (forall i :: 0 <= i < |s.returned| ==> IsTaken(s.returned[i], s.taken))
    && (forall i, j :: 0 <= i < j < |s.returned| ==> s.returned[i].ticket != s.returned[j].ticket)
    && (forall i, t :: 0 <= i < |s.returned| && t in s.threads ==> s.returned[i].ticket != Ticket(s.threads[t]))
    && |s.returned| + Count(s.threads, Consumed) == |s.taken|
  }

  ghost predicate IsTaken<T>(r: Return<T>, taken: seq<T>) { r.ticket < |taken| && r.item == taken[r.ticket] }

  /** Every item given to enqueue is written once, or still in its caller's hands. */
  ghost predicate Conserved<T(!new)>(s: State<T>) {
    forall x :: multiset(s.asked)[x] == multiset(s.put)[x] + Count(s.threads, Holding(x))
  }

  ghost predicate Inv<T(!new)>(s: State<T>) { Tokens(s) && Ring(s) && Order(s) && Returns(s) && Conserved(s) }

  // ---- every action keeps the invariant ----

  /** Every action moves one thread to its next place. */
  lemma OnlyOneMoves<T>(s: State<T>, t: Tid)
    requires CanStep(s, t) && s.head < s.Size() && s.tail < s.Size()
    ensures t in Next(s, t).threads && Next(s, t).threads == s.threads[t := Next(s, t).threads[t]]
  {
  }

  lemma SemaphoresKept<T>(s: State<T>, t: Tid)
    requires Tokens(s) && s.head < s.Size() && s.tail < s.Size() && CanStep(s, t)
    requires s.threads[t].DeqRead? ==> |s.taken| < |s.put|
    ensures var s' := Next(s, t);
      && |s'.taken| <= |s'.put|
      && s'.full + Count(s'.threads, Claiming) + Count(s'.threads, Written) == |s'.put| - |s'.taken|
      && s'.empty + Count(s'.threads, Reserving) + Count(s'.threads, Consumed) == s'.Size() - (|s'.put| - |s'.taken|)
  {
    OnlyOneMoves(s, t);
    var pc := Next(s, t).threads[t];
    CountMoves(s.threads, t, pc, Claiming);
    CountMoves(s.threads, t, pc, Written);
    CountMoves(s.threads, t, pc, Reserving);
    CountMoves(s.threads, t, pc, Consumed);
  }

  lemma MutexesKept<T>(s: State<T>, t: Tid)
    requires Tokens(s) && s.head < s.Size() && s.tail < s.Size() && CanStep(s, t)
    ensures var s' := Next(s, t);
      && s'.enqueueMutex + Count(s'.threads, InEnqueue) == 1
      && s'.dequeueMutex + Count(s'.threads, InDequeue) == 1
  {
    OnlyOneMoves(s, t);
    var pc := Next(s, t).threads[t];
    CountMoves(s.threads, t, pc, InEnqueue);
    CountMoves(s.threads, t, pc, InDequeue);
  }

  /** A reader about to read finds an item; a writer about to write finds room. */
  lemma ItemAndRoom<T>(s: State<T>, t: Tid)
    requires Tokens(s) && t in s.threads
    ensures s.threads[t].DeqRead? ==> |s.taken| < |s.put| && Count(s.threads, Retiring) == 0
    ensures s.threads[t].EnqWrite? ==> |s.put| < |s.taken| + s.Size() && Count(s.threads, Advancing) == 0
  {
    CountInside(s.threads, t);
    if s.threads[t].DeqRead? { CountHas(s.threads, t, Claiming); }
    if s.threads[t].EnqWrite? { CountHas(s.threads, t, Reserving); }
  }

  /** An index counts the items of its end, less those whose thread has yet to
      advance it. */
  ghost predicate IndexCounts(index: nat, items: nat, pending: nat, n: nat) {
    n >= 1 && pending <= items && index == (items - pending) % n
  }

  lemma IndexStep(index: nat, items: nat, pending: nat, n: nat, index': nat, items': nat, pending': nat, advances: bool)
    requires IndexCounts(index, items, pending, n)
    requires items' - pending' == items - pending + One(advances)
    requires index' == if advances then (index + 1) % n else index
    ensures IndexCounts(index', items', pending', n)
  {
    if advances { ModAdd(items - pending, 1, n); }
  }

  /** How one action moves the two indexes and the two item counts. */
  lemma WhoMoves<T>(s: State<T>, t: Tid)
    requires CanStep(s, t) && s.head < s.Size() && s.tail < s.Size()
    ensures var s', pc, pc' := Next(s, t), s.threads[t], Next(s, t).threads[t];
      && s'.Size() == s.Size()
      && s'.head == (if pc.EnqAdvance? then (s.head + 1) % s.Size() else s.head)
      && |s'.put| == |s.put| + One(pc.EnqWrite?) && (pc'.EnqAdvance? <==> pc.EnqWrite?)
      && s'.tail == (if pc.DeqAdvance? then (s.tail + 1) % s.Size() else s.tail)
      && |s'.taken| == |s.taken| + One(pc.DeqRead?) && (pc'.DeqAdvance? <==> pc.DeqRead?)
  {
  }

  lemma HeadKept<T>(s: State<T>, t: Tid)
    requires CanStep(s, t) && s.head < s.Size() && s.tail < s.Size()
    requires IndexCounts(s.head, |s.put|, Count(s.threads, Advancing), s.Size())
    ensures var s' := Next(s, t); IndexCounts(s'.head, |s'.put|, Count(s'.threads, Advancing), s'.Size())
  {
    var s', pc := Next(s, t), s.threads[t];
    OnlyOneMoves(s, t);
    WhoMoves(s, t);
    CountMoves(s.threads, t, s'.threads[t], Advancing);
    IndexStep(s.head, |s.put|, Count(s.threads, Advancing), s.Size(),
              s'.head, |s'.put|, Count(s'.threads, Advancing), pc.EnqAdvance?);
  }

  lemma TailKept<T>(s: State<T>, t: Tid)
    requires CanStep(s, t) && s.head < s.Size() && s.tail < s.Size()
    requires IndexCounts(s.tail, |s.taken|, Count(s.threads, Retiring), s.Size())
    ensures var s' := Next(s, t); IndexCounts(s'.tail, |s'.taken|, Count(s'.threads, Retiring), s'.Size())
  {
    var s', pc := Next(s, t), s.threads[t];
    OnlyOneMoves(s, t);
    WhoMoves(s, t);
    CountMoves(s.threads, t, s'.threads[t], Retiring);
    IndexStep(s.tail, |s.taken|, Count(s.threads, Retiring), s.Size(),
              s'.tail, |s'.taken|, Count(s'.threads, Retiring), pc.DeqAdvance?);
  }

  lemma SlotsKept<T>(s: State<T>, t: Tid)
    requires Tokens(s) && Ring(s) && CanStep(s, t)
    ensures var s' := Next(s, t);
      forall i :: |s'.taken| <= i < |s'.put| ==> s'.slots[i % s.Size()] == s'.put[i]
  {
    ItemAndRoom(s, t);
    if s.threads[t].EnqWrite? {
      forall i | |s.taken| <= i < |s.put| ensures i % s.Size() != s.head {
        ModApart(i, |s.put|, s.Size());
      }
    }
  }

  lemma PrefixKept<T>(s: State<T>, t: Tid)
    requires s.taken <= s.put && CanStep(s, t) && s.head < s.Size() && s.tail < s.Size()
    requires s.threads[t].DeqRead? ==> |s.taken| < |s.put| && s.slots[s.tail] == s.put[|s.taken|]
    ensures s.taken <= Next(s, t).taken <= Next(s, t).put
  {
  }

  lemma TicketKept<T>(s: State<T>, t: Tid)
    requires CanStep(s, t) && s.head < s.Size() && s.tail < s.Size() && Owns(s.threads[t], s.taken)
    ensures Owns(Next(s, t).threads[t], Next(s, t).taken)
    ensures Ticket(Next(s, t).threads[t]) in {-1, Ticket(s.threads[t]), |s.taken|}
  {
  }

  /** A reader finds the oldest item that was not taken. */
  lemma NextItem<T>(s: State<T>, t: Tid)
    requires Tokens(s) && Ring(s) && t in s.threads && s.threads[t].DeqRead?
    ensures |s.taken| < |s.put| && s.slots[s.tail] == s.put[|s.taken|]
  {
    ItemAndRoom(s, t);
  }

  lemma OrderKept<T>(s: State<T>, t: Tid)
    requires Tokens(s) && Ring(s) && Order(s) && CanStep(s, t)
    ensures Order(Next(s, t))
  {
    OnlyOneMoves(s, t);
    if s.threads[t].DeqRead? { NextItem(s, t); }
    PrefixKept(s, t);
    TicketKept(s, t);
    var s' := Next(s, t);
    forall u | u in s.threads && u != t
      ensures Owns(s.threads[u], s'.taken)
      ensures Ticket(s.threads[u]) == -1 || Ticket(s.threads[u]) != Ticket(s'.threads[t])
    {
      assert Owns(s.threads[u], s.taken);
    }
  }

  /** How one action moves the returns: only the last action of a dequeue adds one. */
  lemma WhoReturns<T>(s: State<T>, t: Tid)
    requires CanStep(s, t) && s.head < s.Size() && s.tail < s.Size()
    ensures var s', pc := Next(s, t), s.threads[t];
      && s'.returned == (if pc.DeqPostEmpty? then s.returned + [Return(pc.ret, pc.ticket)] else s.returned)
      && s.taken <= s'.taken
      && (pc.DeqPostEmpty? ==> Ticket(s'.threads[t]) == -1 && s'.taken == s.taken)
      && (pc.DeqRead? ==> s'.threads[t].DeqAdvance? && |s'.taken| == |s.taken| + 1)
      && (!pc.DeqRead? ==> s'.taken == s.taken)
      && One(In(Consumed, s'.threads[t])) + One(pc.DeqPostEmpty?) == One(In(Consumed, pc)) + One(pc.DeqRead?)
  {
  }

  lemma ReturnsKept<T>(s: State<T>, t: Tid)
    requires Order(s) && Returns(s) && s.head < s.Size() && s.tail < s.Size() && CanStep(s, t)
    ensures Returns(Next(s, t))
  {
    OnlyOneMoves(s, t);
    WhoReturns(s, t);
    TicketKept(s, t);
    var s' := Next(s, t);
    CountMoves(s.threads, t, s'.threads[t], Consumed);
    assert Owns(s.threads[t], s.taken);
    forall i | 0 <= i < |s'.returned| ensures IsTaken(s'.returned[i], s'.taken) {
      assert i < |s.returned| ==> IsTaken(s.returned[i], s.taken);
    }
    forall i, u | 0 <= i < |s'.returned| && u in s'.threads ensures s'.returned[i].ticket != Ticket(s'.threads[u]) {
      assert i < |s.returned| ==> IsTaken(s.returned[i], s.taken);
      assert i < |s.returned| && u in s.threads ==> s.returned[i].ticket != Ticket(s.threads[u]);
    }
  }

  lemma ConservedKept<T(!new)>(s: State<T>, t: Tid)
    requires Conserved(s) && s.head < s.Size() && s.tail < s.Size() && CanStep(s, t)
    ensures Conserved(Next(s, t))
  {
    OnlyOneMoves(s, t);
    var s' := Next(s, t);
    forall x ensures multiset(s'.asked)[x] == multiset(s'.put)[x] + Count(s'.threads, Holding(x)) {
      CountMoves(s.threads, t, s'.threads[t], Holding(x));
    }
  }

  lemma StepKeepsInv<T(!new)>(s: State<T>, t: Tid)
    requires Inv(s) && CanStep(s, t)
    ensures Inv(Next(s, t))
  {
    ItemAndRoom(s, t);
    SemaphoresKept(s, t);
    MutexesKept(s, t);
    HeadKept(s, t);
    TailKept(s, t);
    SlotsKept(s, t);
    OrderKept(s, t);
    ReturnsKept(s, t);
    ConservedKept(s, t);
  }

  // ---- runs ----

  /** A call starts only in an idle thread; a blocked or idle thread stays put.
      The indexes are always those of slots, by the invariant. */
  ghost function Act<T(!new)>(s: State<T>, a: Action<T>): State<T> {
    match a
    case Enqueue(t, obj) =>
      if IsIdle(s.threads, t) then s.(threads := s.threads[t := EnqWaitEmpty(obj)], asked := s.asked + [obj]) else s
    case Dequeue(t) =>
      if IsIdle(s.threads, t) then s.(threads := s.threads[t := DeqWaitFull]) else s
    case Step(t) => if CanStep(s, t) && s.head < s.Size() && s.tail < s.Size() then Next(s, t) else s
  }

  lemma CallKeepsInv<T(!new)>(s: State<T>, t: Tid, pc: Pc<T>, s': State<T>)
    requires Inv(s) && IsIdle(s.threads, t) && (pc.EnqWaitEmpty? || pc.DeqWaitFull?)
    requires s' == s.(threads := s.threads[t := pc], asked := if pc.EnqWaitEmpty? then s.asked + [pc.obj] else s.asked)
    ensures Inv(s')
  {
    assert Tokens(s') && Ring(s') by { CallKeepsCounts(s, t, pc); }
    CallKeepsItems(s, t, pc, s');
    CallKeepsOrder(s, t, pc, s');
    CallKeepsReturns(s, t, pc, s');
  }

  lemma CallKeepsReturns<T>(s: State<T>, t: Tid, pc: Pc<T>, s': State<T>)
    requires Returns(s) && IsIdle(s.threads, t) && (pc.EnqWaitEmpty? || pc.DeqWaitFull?)
    requires s'.threads == s.threads[t := pc] && s'.taken == s.taken && s'.returned == s.returned
    ensures Returns(s')
  {
    CountMoves(s.threads, t, pc, Consumed);
  }

  lemma CallKeepsItems<T(!new)>(s: State<T>, t: Tid, pc: Pc<T>, s': State<T>)
    requires Conserved(s) && IsIdle(s.threads, t) && (pc.EnqWaitEmpty? || pc.DeqWaitFull?)
    requires s' == s.(threads := s.threads[t := pc], asked := if pc.EnqWaitEmpty? then s.asked + [pc.obj] else s.asked)
    ensures Conserved(s')
  {
    forall x ensures multiset(s'.asked)[x] == multiset(s'.put)[x] + Count(s'.threads, Holding(x)) {
      CountMoves(s.threads, t, pc, Holding(x));
    }
  }

  lemma CallKeepsCounts<T(!new)>(s: State<T>, t: Tid, pc: Pc<T>)
    requires IsIdle(s.threads, t) && (pc.EnqWaitEmpty? || pc.DeqWaitFull?)
    ensures forall c: Class<T> | !c.Holding? && !c.Wanting? :: Count(s.threads[t := pc], c) == Count(s.threads, c)
  {
    forall c: Class<T> | !c.Holding? && !c.Wanting? ensures Count(s.threads[t := pc], c) == Count(s.threads, c) {
      CountMoves(s.threads, t, pc, c);
    }
  }

  lemma CallKeepsOrder<T>(s: State<T>, t: Tid, pc: Pc<T>, s': State<T>)
    requires Order(s) && Ticket(pc) == -1
    requires s'.threads == s.threads[t := pc] && s'.put == s.put && s'.taken == s.taken
    ensures Order(s')
  {
    forall u | u in s'.threads ensures Owns(s'.threads[u], s'.taken) {
      assert u != t ==> Owns(s.threads[u], s.taken);
    }
  }

  lemma ActKeepsInv<T(!new)>(s: State<T>, a: Action<T>)
    requires Inv(s)
    ensures Inv(Act(s, a)) && Act(s, a).Size() == s.Size()
  {
    match a {
      case Enqueue(t, obj) =>
        if IsIdle(s.threads, t) { CallKeepsInv(s, t, EnqWaitEmpty(obj), Act(s, a)); }
      case Dequeue(t) =>
        if IsIdle(s.threads, t) { CallKeepsInv(s, t, DeqWaitFull, Act(s, a)); }
      case Step(t) =>
        if CanStep(s, t) { StepKeepsInv(s, t); }
    }
  }

  lemma InitHasInv<T(!new)>(slots: seq<T>)
    requires |slots| >= 1
    ensures Inv(Init(slots))
  {
    var threads := Init(slots).threads;
    forall c: Class<T> ensures Count(threads, c) == 0 { Nobody(threads, c); }
  }

  /** The state after any interleaving of the threads' actions. */
  ghost function Run<T(!new)>(slots: seq<T>, acts: seq<Action<T>>): State<T> {
    if acts == [] then Init(slots) else Act(Run(slots, acts[..|acts| - 1]), acts[|acts| - 1])
  }

  lemma {:induction false} RunHasInv<T(!new)>(slots: seq<T>, acts: seq<Action<T>>)
    requires |slots| >= 1
    ensures Inv(Run(slots, acts)) && Run(slots, acts).Size() == |slots|
  {
    if acts == [] {
      InitHasInv(slots);
    } else {
      RunHasInv(slots, acts[..|acts| - 1]);
      ActKeepsInv(Run(slots, acts[..|acts| - 1]), acts[|acts| - 1]);
    }
  }

  /** The items read are a prefix of the items written; each is returned by one
      call, finished or in progress, and no two; nothing given to enqueue is
      lost; and the unread items lie in order in the ring. */
  ghost predicate Fifo<T(!new)>(s: State<T>) {
    && s.taken <= s.put
    && |s.put| - |s.taken| <= s.Size()
    && (forall t :: t in s.threads ==> Owns(s.threads[t], s.taken))
    && (forall t, u | t in s.threads && u in s.threads && t != u ::
          Ticket(s.threads[t]) == -1 || Ticket(s.threads[t]) != Ticket(s.threads[u]))
    && Returns(s)
    && (forall x :: multiset(s.asked)[x] == multiset(s.put)[x] + Count(s.threads, Holding(x)))
    && (s.Size() > 0 ==> forall i :: |s.taken| <= i < |s.put| ==> s.slots[i % s.Size()] == s.put[i])
  }

  /** The items of those calls of enqueue that were made, by an idle thread. */
  ghost function Given<T(!new)>(slots: seq<T>, acts: seq<Action<T>>): (items: seq<T>) {
    if acts == [] then []
    else
      var before, a := acts[..|acts| - 1], acts[|acts| - 1];
      Given(slots, before) +
        (if a.Enqueue? && IsIdle(Run(slots, before).threads, a.t) then [a.obj] else [])
  }

  lemma {:induction false} AskedIsGiven<T(!new)>(slots: seq<T>, acts: seq<Action<T>>)
    requires |slots| >= 1
    ensures Run(slots, acts).asked == Given(slots, acts)
  {
    if acts != [] {
      var before, a := acts[..|acts| - 1], acts[|acts| - 1];
      AskedIsGiven(slots, before);
      ActAsks(Run(slots, before), a);
    }
  }

  lemma ActAsks<T(!new)>(s: State<T>, a: Action<T>)
    ensures Act(s, a).asked == s.asked + if a.Enqueue? && IsIdle(s.threads, a.t) then [a.obj] else []
  {
  }

  /** Every item given to enqueue is written once or still in its caller's hands, and
      no other item is. */
  lemma {:induction false} GivenIsPutOrHeld<T(!new)>(slots: seq<T>, acts: seq<Action<T>>)
    requires |slots| >= 1
    ensures var s := Run(slots, acts);
      forall x :: multiset(Given(slots, acts))[x] == multiset(s.put)[x] + Count(s.threads, Holding(x))
  {
    RunHasInv(slots, acts);
    AskedIsGiven(slots, acts);
  }

  /** The number of calls of dequeue that were made, by an idle thread. */
  ghost function Calls<T(!new)>(slots: seq<T>, acts: seq<Action<T>>): (n: nat) {
    if acts == [] then 0
    else
      var before, a := acts[..|acts| - 1], acts[|acts| - 1];
      Calls(slots, before) + One(a.Dequeue? && IsIdle(Run(slots, before).threads, a.t))
  }

  /** Every call of dequeue that was made has read an item or is yet to read one. */
  lemma {:induction false} EveryCallReadsOrWants<T(!new)>(slots: seq<T>, acts: seq<Action<T>>)
    requires |slots| >= 1
    ensures var s := Run(slots, acts); Calls(slots, acts) == |s.taken| + Count(s.threads, Wanting)
  {
    if acts == [] {
      Nobody(Run(slots, acts).threads, Wanting);
    } else {
      var before, a := acts[..|acts| - 1], acts[|acts| - 1];
      EveryCallReadsOrWants(slots, before);
      RunHasInv(slots, before);
      ActWants(Run(slots, before), a);
    }
  }

  lemma ActWants<T(!new)>(s: State<T>, a: Action<T>)
    requires Inv(s)
    ensures |Act(s, a).taken| + Count(Act(s, a).threads, Wanting)
         == |s.taken| + Count(s.threads, Wanting) + One(a.Dequeue? && IsIdle(s.threads, a.t))
  {
    match a {
      case Enqueue(t, obj) => CountMoves(s.threads, t, EnqWaitEmpty(obj), Wanting);
      case Dequeue(t) => CountMoves(s.threads, t, DeqWaitFull, Wanting);
      case Step(t) => if CanStep(s, t) { StepWants(s, t); }
    }
  }

  lemma StepWants<T>(s: State<T>, t: Tid)
    requires CanStep(s, t) && s.head < s.Size() && s.tail < s.Size()
    ensures |Next(s, t).taken| + Count(Next(s, t).threads, Wanting) == |s.taken| + Count(s.threads, Wanting)
  {
    OnlyOneMoves(s, t);
    WhoMoves(s, t);
    CountMoves(s.threads, t, Next(s, t).threads[t], Wanting);
  }

  lemma InvIsFifo<T(!new)>(s: State<T>)
    requires Inv(s)
    ensures Fifo(s)
  {
  }

  lemma {:induction false} EveryRunIsFifo<T(!new)>(slots: seq<T>, acts: seq<Action<T>>)
    requires |slots| >= 1
    ensures Fifo(Run(slots, acts)) && Run(slots, acts).Size() == |slots|
    ensures Run(slots, acts).asked == Given(slots, acts)
  {
    AskedIsGiven(slots, acts);
    RunHasInv(slots, acts);
    InvIsFifo(Run(slots, acts));
  }

  /** A writing enqueue and a reading dequeue never touch the same slot, and no
      two threads are inside the same end. */
  lemma DifferentSlots<T(!new)>(s: State<T>, t: Tid, u: Tid)
    requires Inv(s) && t in s.threads && u in s.threads
    ensures s.threads[t].EnqWrite? && s.threads[u].DeqRead? ==> s.head != s.tail
    ensures In(InEnqueue, s.threads[t]) && In(InEnqueue, s.threads[u]) ==> t == u
    ensures In(InDequeue, s.threads[t]) && In(InDequeue, s.threads[u]) ==> t == u
  {
    if s.threads[t].EnqWrite? && s.threads[u].DeqRead? {
      ItemAndRoom(s, t);
      ItemAndRoom(s, u);
      ModApart(|s.taken|, |s.put|, s.Size());
    }
    AtMostOne(s.threads, InEnqueue, t, u);
    AtMostOne(s.threads, InDequeue, t, u);
  }

  lemma AtMostOne<T>(threads: map<Tid, Pc<T>>, c: Class<T>, t: Tid, u: Tid)
    requires Count(threads, c) <= 1 && t in threads && u in threads
    ensures In(c, threads[t]) && In(c, threads[u]) ==> t == u
  {
    if In(c, threads[t]) && In(c, threads[u]) {
      SubsetSize({t, u}, Members(threads, c));
    }
  }

  // ---- blocking ----

  ghost predicate Stuck<T>(s: State<T>) { forall t :: !CanStep(s, t) }

  lemma Nobody<T>(threads: map<Tid, Pc<T>>, c: Class<T>)
    requires forall t :: t in threads ==> !In(c, threads[t])
    ensures Count(threads, c) == 0
  {
    assert Members(threads, c) == {};
  }

  lemma NobodyIn<T>(s: State<T>, c: Class<T>)
    requires Stuck(s) && !c.Holding? && !c.Reserving? && !c.Claiming? && !c.Wanting?
    ensures Count(s.threads, c) == 0
  {
    forall t | t in s.threads ensures !In(c, s.threads[t]) {
      assert !CanStep(s, t);
    }
    Nobody(s.threads, c);
  }

  /** No thread can go on exactly when every active thread is an enqueue facing
      a full ring, or every one is a dequeue facing an empty ring. */
  lemma StuckOnlyWhenFullOrEmpty<T(!new)>(s: State<T>)
    requires Inv(s)
    ensures Stuck(s) <==>
      || (forall t :: t in s.threads ==> s.threads[t].Idle?)
      || (|s.put| - |s.taken| == s.full == s.Size()
          && forall t :: t in s.threads ==> s.threads[t].Idle? || s.threads[t].EnqWaitEmpty?)
      || (|s.put| - |s.taken| == s.full == 0 && s.empty == s.Size()
          && forall t :: t in s.threads ==> s.threads[t].Idle? || s.threads[t].DeqWaitFull?)
  {
    if Stuck(s) {
      NobodyIn(s, InEnqueue);
      NobodyIn(s, InDequeue);
      NobodyIn(s, Written);
      NobodyIn(s, Consumed);
      forall t | t in s.threads ensures s.threads[t].Idle? || s.threads[t].EnqWaitEmpty? || s.threads[t].DeqWaitFull? {
        assert !CanStep(s, t);
      }
      Nobody(s.threads, Reserving);
      Nobody(s.threads, Claiming);
      assert forall t :: t in s.threads ==> !CanStep(s, t);
    }
  }

  // ---- the queue itself ----

  predicate Enqueuing<T>(pc: Pc<T>) {
    pc.EnqWaitEmpty? || pc.EnqWaitMutex? || pc.EnqWrite? || pc.EnqAdvance? || pc.EnqPostMutex? || pc.EnqPostFull?
  }

  /** The queue object, its methods cut at their atomic actions. */
  class Queue<T(0,!new)> {
    const queue: array<T>
    var full: nat
    var empty: nat
    var enqueueMutex: nat
    var dequeueMutex: nat
    var head: nat
    var tail: nat
    var threads: map<Tid, Pc<T>>
    ghost var asked: seq<T>
    ghost var put: seq<T>
    ghost var taken: seq<T>
    ghost var returned: seq<Return<T>>

    ghost function View(): State<T>
      reads this, queue
    {
      State(queue[..], head, tail, full, empty, enqueueMutex, dequeueMutex, threads, asked, put, taken, returned)
    }

    ghost predicate Valid()
      reads this, queue
    {
      Inv(View())
    }

    constructor (queueSize: nat)
      requires queueSize >= 1
      ensures Valid() && fresh(queue) && queue.Length == queueSize
      ensures View() == Init(queue[..])
    {
      queue := new T[queueSize];
      head, tail, full, empty := 0, 0, 0, queueSize;
      enqueueMutex, dequeueMutex := 1, 1;
      threads := map[];
      asked, put, taken, returned := [], [], [], [];
      new;
      InitHasInv(queue[..]);
    }

    /** A thread enters enqueue. */
    method Enqueue(t: Tid, obj: T)
      requires Valid() && IsIdle(threads, t)
      modifies this
      ensures Valid() && View() == Act(old(View()), Action.Enqueue(t, obj))
      ensures threads == old(threads)[t := EnqWaitEmpty(obj)] && asked == old(asked) + [obj]
    {
      ActKeepsInv(View(), Action.Enqueue(t, obj));
      threads := threads[t := EnqWaitEmpty(obj)];
      asked := asked + [obj];
    }

    /** A thread enters dequeue. */
    method Dequeue(t: Tid)
      requires Valid() && IsIdle(threads, t)
      modifies this
      ensures Valid() && View() == Act(old(View()), Action.Dequeue(t))
      ensures threads == old(threads)[t := DeqWaitFull] && asked == old(asked)
    {
      ActKeepsInv(View(), Action.Dequeue(t));
      threads := threads[t := DeqWaitFull];
    }

    /** The next atomic action of a thread that is not blocked. */
    method Step(t: Tid)
      requires Valid() && CanStep(View(), t)
      modifies this, queue
      ensures Valid() && View() == Next(old(View()), t) && View() == Act(old(View()), Action.Step(t))
    {
      StepKeepsInv(View(), t);
      if Enqueuing(threads[t]) { EnqueueStep(t); } else { DequeueStep(t); }
    }

    method EnqueueStep(t: Tid)
      requires CanStep(View(), t) && Enqueuing(threads[t]) && head < queue.Length && tail < queue.Length
      modifies this, queue
      ensures View() == Next(old(View()), t)
    {
      ghost var before := View();
      match threads[t] {
        case EnqWaitEmpty(obj) =>
          empty := empty - 1;
          threads := threads[t := EnqWaitMutex(obj)];
        case EnqWaitMutex(obj) =>
          enqueueMutex := enqueueMutex - 1;
          threads := threads[t := EnqWrite(obj)];
        case EnqWrite(obj) =>
          queue[head] := obj;
          put := put + [obj];
          threads := threads[t := EnqAdvance];
        case EnqAdvance =>
          head := (head + 1) % queue.Length;
          threads := threads[t := EnqPostMutex];
        case EnqPostMutex =>
          enqueueMutex := enqueueMutex + 1;
          threads := threads[t := EnqPostFull];
        case EnqPostFull =>
          full := full + 1;
          threads := threads[t := Idle];
      }
      assert View() == Next(before, t);
    }

    method DequeueStep(t: Tid)
      requires CanStep(View(), t) && !Enqueuing(threads[t]) && head < queue.Length && tail < queue.Length
      modifies this
      ensures View() == Next(old(View()), t)
    {
      ghost var before := View();
      match threads[t] {
        case DeqWaitFull =>
          full := full - 1;
          threads := threads[t := DeqWaitMutex];
        case DeqWaitMutex =>
          dequeueMutex := dequeueMutex - 1;
          threads := threads[t := DeqRead];
        case DeqRead =>
          var ret := queue[tail];
          threads := threads[t := DeqAdvance(ret, |taken|)];
          taken := taken + [ret];
        case DeqAdvance(ret, ticket) =>
          tail := (tail + 1) % queue.Length;
          threads := threads[t := DeqPostMutex(ret, ticket)];
        case DeqPostMutex(ret, ticket) =>
          dequeueMutex := dequeueMutex + 1;
          threads := threads[t := DeqPostEmpty(ret, ticket)];
        case DeqPostEmpty(ret, ticket) =>
          empty := empty + 1;
          returned := returned + [Return(ret, ticket)];
          threads := threads[t := Idle];
      }
      assert View() == Next(before, t);
    }
  }
}
