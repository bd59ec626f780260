/** The shared-memory queue used by many threads: its mutex, its two condition
    variables, and who is woken when. */
module ShmMonitor {
  import opened Counting
  import opened ShmMessages

  type Tid = nat

  /** Where a thread is. A thread woken from a wait has to take the mutex again;
      a woken receiver is told apart from one that has just arrived. */
  datatype Pc =
    | Idle
    | SendLock(m: Message)
    | SendCheck(m: Message)
    | SendSleep(m: Message)
    | SendSignal
    | SendUnlock
    | RecvLock
    | RecvWoken
    | RecvCheck
    | RecvSleep
    | RecvSignal
    | RecvUnlock

  type Threads = map<Tid, Pc>

  /** The queue holds at most `capacity` nodes; `sent` and `received` record the
      messages in the order they went in and came out. */
  datatype State = State(
    capacity: nat, messages: seq<Message>, locked: bool, threads: Threads,
    sent: seq<Message>, received: seq<Message>)

  /** A step names the thread that its signal wakes, if it signals. */
  datatype Action =
    | Send(t: Tid, m: Message)
    | Recv(t: Tid)
    | Step(t: Tid, woken: Tid)
    | Spurious(t: Tid)

  ghost predicate WellFormed(s: State) {
    NonEmpty(s.messages) && forall t :: t in s.threads ==> WellFormedPc(s.threads[t])
  }

  predicate WellFormedPc(pc: Pc) {
    pc.SendLock? || pc.SendCheck? || pc.SendSleep? ==> |pc.m| >= 1
  }

  // ---- the steps ----

  predicate Receiving(threads: Threads, t: Tid) { t in threads && threads[t].RecvSleep? }

  predicate Sending(threads: Threads, t: Tid) { t in threads && threads[t].SendSleep? }

  /** The thread can go on. A signal wakes a sleeper whenever there is one. */
  ghost predicate CanStep(s: State, t: Tid, woken: Tid) {
    && t in s.threads
    && match s.threads[t] {
         case Idle => false
         case SendLock(_) => !s.locked
         case RecvLock => !s.locked
         case RecvWoken => !s.locked
         case SendSleep(_) => false
         case RecvSleep => false
         case SendSignal => Receiving(s.threads, woken) || forall u :: !Receiving(s.threads, u)
         case RecvSignal => Sending(s.threads, woken) || forall u :: !Sending(s.threads, u)
         case _ => true
       }
  }

  /** The woken thread goes for the mutex again. */
  function Woken(pc: Pc): (r: Pc) {
    match pc
    case RecvSleep => RecvWoken
    case SendSleep(m) => SendLock(m)
    case _ => pc
  }

  function Wake(threads: Threads, t: Tid): (r: Threads) {
    if t in threads then threads[t := Woken(threads[t])] else threads
  }

  ghost function Next(s: State, t: Tid, woken: Tid): State
    requires WellFormed(s) && CanStep(s, t, woken)
  {
    match s.threads[t]
    case SendLock(m) => s.(locked := true, threads := s.threads[t := SendCheck(m)])
    case SendCheck(m) =>
      assert WellFormedPc(s.threads[t]);
      if !Admits(s.capacity, s.messages, m)
      then s.(locked := false, threads := s.threads[t := SendSleep(m)])
      else s.(messages := s.messages + [m], sent := s.sent + [m], threads := s.threads[t := SendSignal])
    case SendSignal =>
      s.(threads := (if Receiving(s.threads, woken) then Wake(s.threads, woken) else s.threads)[t := SendUnlock])
    case SendUnlock => s.(locked := false, threads := s.threads[t := Idle])
    case RecvLock => s.(locked := true, threads := s.threads[t := RecvCheck])
    case RecvWoken => s.(locked := true, threads := s.threads[t := RecvCheck])
    case RecvCheck =>
      if s.messages == []
      then s.(locked := false, threads := s.threads[t := RecvSleep])
      else s.(messages := s.messages[1..], received := s.received + [s.messages[0]], threads := s.threads[t := RecvSignal])
    case RecvSignal =>
      s.(threads := (if Sending(s.threads, woken) then Wake(s.threads, woken) else s.threads)[t := RecvUnlock])
    case RecvUnlock => s.(locked := false, threads := s.threads[t := Idle])
  }

  // ---- the invariant ----

  datatype Class = Inside | Pending | Announcing | Holding(m: Message) | Wanting

  /** Holding: a sender that has yet to put its message in. Wanting: a receiver that
      has yet to take one. Inside: holds the mutex. Pending: a receiver woken, or at its test, that
      has yet to look at the queue. Announcing: a sender that has put a message
      in and not yet signalled. */
  predicate In(c: Class, pc: Pc) {
    match c
    case Inside => pc.SendCheck? || pc.SendSignal? || pc.SendUnlock? || pc.RecvCheck? || pc.RecvSignal? || pc.RecvUnlock?
    case Pending => pc.RecvWoken? || pc.RecvCheck?
    case Announcing => pc.SendSignal?
    case Wanting => pc.RecvLock? || pc.RecvWoken? || pc.RecvCheck? || pc.RecvSleep?
    case Holding(m) => (pc.SendLock? || pc.SendCheck? || pc.SendSleep?) && pc.m == m
  }

  ghost function Members(threads: Threads, c: Class): set<Tid> {
    set t | t in threads && In(c, threads[t])
  }

  ghost function Count(threads: Threads, c: Class): nat { |Members(threads, c)| }

  lemma CountMoves(threads: Threads, t: Tid, pc: Pc, c: Class)
    ensures Count(threads[t := pc], c) == Count(threads, c) - One(t in threads && In(c, threads[t])) + One(In(c, pc))
  {
    var was, now := Members(threads, c), Members(threads[t := pc], c);
    forall u | u != t ensures u in was <==> u in now { }
    SizesDifferBy(was, now, t);
  }

  ghost predicate Somebody(threads: Threads) { exists t :: Receiving(threads, t) }

  ghost predicate Delivered(capacity: nat, ms: seq<Message>, sent: seq<Message>, received: seq<Message>)
    requires NonEmpty(ms)
  {
    sent == received + ms && Used(ms) <= capacity
  }

  /** Nothing is lost, repeated or reordered, and the queue fits. */
  ghost predicate Delivery(s: State)
    requires NonEmpty(s.messages)
  {
    Delivered(s.capacity, s.messages, s.sent, s.received)
  }

  ghost predicate Mutex(s: State) { Count(s.threads, Inside) == One(s.locked) }

  /** While a receiver sleeps, every queued message has a receiver on its way to
      it, or a sender about to call one. */
  ghost predicate NoLostWakeup(s: State) {
    Somebody(s.threads) ==> |s.messages| <= Count(s.threads, Pending) + Count(s.threads, Announcing)
  }

  ghost predicate Inv(s: State) {
    WellFormed(s) && Delivery(s) && Mutex(s) && NoLostWakeup(s)
  }

  // ---- every step keeps the invariant ----

  lemma {:induction false} PutIn(capacity: nat, ms: seq<Message>, sent: seq<Message>, received: seq<Message>, m: Message)
    requires NonEmpty(ms) && Delivered(capacity, ms, sent, received) && |m| >= 1 && Admits(capacity, ms, m)
    ensures NonEmpty(ms + [m]) && Delivered(capacity, ms + [m], sent + [m], received)
  {
    UsedAppend(ms, m);
  }

  lemma {:induction false} TakenOut(capacity: nat, ms: seq<Message>, sent: seq<Message>, received: seq<Message>)
    requires ms != [] && NonEmpty(ms) && Delivered(capacity, ms, sent, received)
    ensures NonEmpty(ms[1..]) && Delivered(capacity, ms[1..], sent, received + [ms[0]])
  {
    assert ms == [ms[0]] + ms[1..];
  }

  lemma DeliveryKept(s: State, t: Tid, woken: Tid)
    requires WellFormed(s) && Delivery(s) && CanStep(s, t, woken)
    ensures NonEmpty(Next(s, t, woken).messages) && Delivery(Next(s, t, woken))
  {
    match s.threads[t] {
      case SendCheck(m) =>
        assert WellFormedPc(s.threads[t]);
        if Admits(s.capacity, s.messages, m) { PutIn(s.capacity, s.messages, s.sent, s.received, m); }
      case RecvCheck =>
        if s.messages != [] { TakenOut(s.capacity, s.messages, s.sent, s.received); }
      case _ =>
        QueueAlone(s, t, woken);
    }
  }

  /** Only the two tests change the queue. */
  lemma {:induction false} QueueAlone(s: State, t: Tid, woken: Tid)
    requires WellFormed(s) && CanStep(s, t, woken) && !s.threads[t].SendCheck? && !s.threads[t].RecvCheck?
    ensures var s' := Next(s, t, woken);
      s'.messages == s.messages && s'.sent == s.sent && s'.received == s.received && s'.capacity == s.capacity
  {
  }

  lemma WellFormedKept(s: State, t: Tid, woken: Tid)
    requires WellFormed(s) && Delivery(s) && CanStep(s, t, woken)
    ensures WellFormed(Next(s, t, woken)) && Delivery(Next(s, t, woken))
  {
    DeliveryKept(s, t, woken);
    var mid := WhoMoves(s, t, woken);
    assert WellFormedPc(s.threads[t]);
    forall u | u in mid ensures WellFormedPc(mid[u]) {
      assert WellFormedPc(s.threads[u]);
    }
    assert WellFormedPc(Next(s, t, woken).threads[t]);
  }

  /** One thread moves, and perhaps one sleeper is woken before it. */
  lemma WhoMoves(s: State, t: Tid, woken: Tid) returns (mid: Threads)
    requires WellFormed(s) && CanStep(s, t, woken)
    ensures mid == s.threads || (mid == Wake(s.threads, woken) && woken in s.threads && woken != t)
    ensures t in mid && mid[t] == s.threads[t]
    ensures t in Next(s, t, woken).threads && Next(s, t, woken).threads == mid[t := Next(s, t, woken).threads[t]]
    ensures mid != s.threads ==>
      || (s.threads[t].SendSignal? && Receiving(s.threads, woken))
      || (s.threads[t].RecvSignal? && Sending(s.threads, woken))
    ensures s.threads[t].SendSignal? && Receiving(s.threads, woken) ==> mid == Wake(s.threads, woken)
  {
    mid := if || (s.threads[t].SendSignal? && Receiving(s.threads, woken))
              || (s.threads[t].RecvSignal? && Sending(s.threads, woken))
           then Wake(s.threads, woken) else s.threads;
  }

  lemma CountWakes(threads: Threads, u: Tid, c: Class)
    requires u in threads
    ensures Count(Wake(threads, u), c) == Count(threads, c) + One(c.Pending? && threads[u].RecvSleep?)
  {
    CountMoves(threads, u, Woken(threads[u]), c);
  }

  lemma CountStep(s: State, t: Tid, woken: Tid, c: Class)
    requires WellFormed(s) && CanStep(s, t, woken)
    ensures Count(Next(s, t, woken).threads, c)
         == Count(s.threads, c) - One(In(c, s.threads[t])) + One(In(c, Next(s, t, woken).threads[t]))
          + One(c.Pending? && s.threads[t].SendSignal? && Receiving(s.threads, woken))
  {
    var mid := WhoMoves(s, t, woken);
    if mid != s.threads { CountWakes(s.threads, woken, c); }
    CountMoves(mid, t, Next(s, t, woken).threads[t], c);
  }

  lemma MutexKept(s: State, t: Tid, woken: Tid)
    requires WellFormed(s) && Mutex(s) && CanStep(s, t, woken)
    ensures Mutex(Next(s, t, woken))
  {
    CountStep(s, t, woken, Inside);
    if In(Inside, s.threads[t]) { assert t in Members(s.threads, Inside); }
  }

  /** A step puts nobody to sleep but the receiver that found nothing. */
  lemma SleepersAfter(s: State, t: Tid, woken: Tid)
    requires WellFormed(s) && CanStep(s, t, woken) && Somebody(Next(s, t, woken).threads)
    ensures Somebody(s.threads) || (s.threads[t].RecvCheck? && s.messages == [])
    ensures s.threads[t].SendSignal? ==> Receiving(s.threads, woken)
  {
    var u :| Receiving(Next(s, t, woken).threads, u);
    if u != t { assert Receiving(s.threads, u); }
  }

  lemma WakeupKept(s: State, t: Tid, woken: Tid)
    requires WellFormed(s) && NoLostWakeup(s) && CanStep(s, t, woken)
    ensures NoLostWakeup(Next(s, t, woken))
  {
    CountStep(s, t, woken, Pending);
    CountStep(s, t, woken, Announcing);
    if Somebody(Next(s, t, woken).threads) {
      SleepersAfter(s, t, woken);
    }
  }

  lemma StepKeepsInv(s: State, t: Tid, woken: Tid)
    requires Inv(s) && CanStep(s, t, woken)
    ensures Inv(Next(s, t, woken))
  {
    WellFormedKept(s, t, woken);
    MutexKept(s, t, woken);
    WakeupKept(s, t, woken);
  }

  lemma CallKeepsInv(s: State, t: Tid, pc: Pc)
    requires Inv(s) && (t in s.threads ==> s.threads[t].Idle?)
    requires WellFormedPc(pc) && (pc.SendLock? || pc.RecvLock?)
    ensures Inv(s.(threads := s.threads[t := pc]))
  {
    var s' := s.(threads := s.threads[t := pc]);
    CountMoves(s.threads, t, pc, Inside);
    CountMoves(s.threads, t, pc, Pending);
    CountMoves(s.threads, t, pc, Announcing);
    if Somebody(s'.threads) {
      var u :| Receiving(s'.threads, u);
      assert Receiving(s.threads, u);
    }
  }

  lemma SpuriousKeepsInv(s: State, t: Tid)
    requires Inv(s) && t in s.threads
    ensures Inv(s.(threads := Wake(s.threads, t)))
  {
    var s' := s.(threads := Wake(s.threads, t));
    CountWakes(s.threads, t, Inside);
    CountWakes(s.threads, t, Pending);
    CountWakes(s.threads, t, Announcing);
    forall u | u in s'.threads ensures WellFormedPc(s'.threads[u]) {
      assert WellFormedPc(s.threads[u]);
    }
    if Somebody(s'.threads) {
      var u :| Receiving(s'.threads, u);
      assert Receiving(s.threads, u);
    }
  }

  // ---- runs ----

  predicate IsIdle(s: State, t: Tid) { t in s.threads ==> s.threads[t].Idle? }

  ghost function Init(capacity: nat): State { State(capacity, [], false, map[], [], []) }

  /** A call starts only in an idle thread, with a message that is not empty; a
      thread that cannot go on stays where it is. */
  ghost function Act(s: State, a: Action): State
    requires Inv(s)
  {
    match a
    case Send(t, m) => if IsIdle(s, t) && |m| >= 1 then s.(threads := s.threads[t := SendLock(m)]) else s
    case Recv(t) => if IsIdle(s, t) then s.(threads := s.threads[t := RecvLock]) else s
    case Step(t, woken) => if CanStep(s, t, woken) then Next(s, t, woken) else s
    case Spurious(t) => s.(threads := Wake(s.threads, t))
  }

  lemma ActKeepsInv(s: State, a: Action)
    requires Inv(s)
    ensures Inv(Act(s, a)) && Act(s, a).capacity == s.capacity
  {
    match a {
      case Send(t, m) => if IsIdle(s, t) && |m| >= 1 { CallKeepsInv(s, t, SendLock(m)); }
      case Recv(t) => if IsIdle(s, t) { CallKeepsInv(s, t, RecvLock); }
      case Step(t, woken) => if CanStep(s, t, woken) { StepKeepsInv(s, t, woken); }
      case Spurious(t) => if t in s.threads { SpuriousKeepsInv(s, t); }
    }
  }

  lemma InitHasInv(capacity: nat)
    ensures Inv(Init(capacity))
  {
    assert Members(Init(capacity).threads, Inside) == {};
  }

  /** The state after any interleaving of the threads' steps and of spurious wakeups. */
  ghost function Run(capacity: nat, acts: seq<Action>): (s: State)
    ensures Inv(s) && s.capacity == capacity
  {
    if acts == [] then
      InitHasInv(capacity);
      Init(capacity)
    else
      var before := Run(capacity, acts[..|acts| - 1]);
      ActKeepsInv(before, acts[|acts| - 1]);
      Act(before, acts[|acts| - 1])
  }

  // ---- every message is sent once ----

  /** The messages of those calls that were made, by an idle thread. */
  ghost function Given(capacity: nat, acts: seq<Action>): (ms: seq<Message>) {
    if acts == [] then []
    else
      var before, a := acts[..|acts| - 1], acts[|acts| - 1];
      Given(capacity, before) + (if a.Send? && |a.m| >= 1 && IsIdle(Run(capacity, before), a.t) then [a.m] else [])
  }

  ghost predicate Conserved(given: seq<Message>, s: State) {
    forall m :: multiset(given)[m] == multiset(s.sent)[m] + Count(s.threads, Holding(m))
  }

  /** A step that puts a message in takes it from its sender; no other step does. */
  lemma {:induction false} StepConserves(given: seq<Message>, s: State, t: Tid, woken: Tid)
    requires WellFormed(s) && CanStep(s, t, woken) && Conserved(given, s)
    ensures Conserved(given, Next(s, t, woken))
  {
    forall m ensures multiset(given)[m] == multiset(Next(s, t, woken).sent)[m] + Count(Next(s, t, woken).threads, Holding(m)) {
      CountStep(s, t, woken, Holding(m));
    }
  }

  lemma {:induction false} ActConserves(given: seq<Message>, s: State, a: Action)
    requires Inv(s) && Conserved(given, s)
    ensures Conserved(given + (if a.Send? && |a.m| >= 1 && IsIdle(s, a.t) then [a.m] else []), Act(s, a))
  {
    match a {
      case Send(t, m) => if IsIdle(s, t) && |m| >= 1 { CallConserves(given, s, t, SendLock(m)); } else { assert given + [] == given; }
      case Recv(t) => assert given + [] == given; if IsIdle(s, t) { CallConserves(given, s, t, RecvLock); }
      case Step(t, woken) => assert given + [] == given; if CanStep(s, t, woken) { StepConserves(given, s, t, woken); }
      case Spurious(t) => assert given + [] == given; if t in s.threads { SpuriousConserves(given, s, t); }
    }
  }

  lemma {:induction false} CallConserves(given: seq<Message>, s: State, t: Tid, pc: Pc)
    requires Conserved(given, s) && IsIdle(s, t) && (pc.SendLock? || pc.RecvLock?)
    ensures Conserved(if pc.SendLock? then given + [pc.m] else given, s.(threads := s.threads[t := pc]))
  {
    forall m ensures multiset(if pc.SendLock? then given + [pc.m] else given)[m]
                     == multiset(s.sent)[m] + Count(s.threads[t := pc], Holding(m)) {
      CountMoves(s.threads, t, pc, Holding(m));
    }
  }

  lemma {:induction false} SpuriousConserves(given: seq<Message>, s: State, t: Tid)
    requires Conserved(given, s) && t in s.threads
    ensures Conserved(given, s.(threads := Wake(s.threads, t)))
  {
    forall m ensures Count(Wake(s.threads, t), Holding(m)) == Count(s.threads, Holding(m)) {
      CountWakes(s.threads, t, Holding(m));
    }
  }

  /** In every run each message given is put in once or still in its sender's hands,
      and no other message is. */
  lemma {:induction false} EveryMessageIsSentOrHeld(capacity: nat, acts: seq<Action>)
    ensures Conserved(Given(capacity, acts), Run(capacity, acts))
  {
    if acts == [] {
      forall m ensures Count(Init(capacity).threads, Holding(m)) == 0 {
        assert Members(Init(capacity).threads, Holding(m)) == {};
      }
    } else {
      var before := acts[..|acts| - 1];
      EveryMessageIsSentOrHeld(capacity, before);
      ActConserves(Given(capacity, before), Run(capacity, before), acts[|acts| - 1]);
    }
  }

  /** The number of calls of a receiver that were made, by an idle thread. */
  ghost function Calls(capacity: nat, acts: seq<Action>): (n: nat) {
    if acts == [] then 0
    else
      var before, a := acts[..|acts| - 1], acts[|acts| - 1];
      Calls(capacity, before) + One(a.Recv? && IsIdle(Run(capacity, before), a.t))
  }

  /** In every run each call of a receiver has taken a message or is yet to take one. */
  lemma {:induction false} EveryCallTakesOrWants(capacity: nat, acts: seq<Action>)
    ensures var s := Run(capacity, acts); Calls(capacity, acts) == |s.received| + Count(s.threads, Wanting)
  {
    if acts == [] {
      assert Members(Init(capacity).threads, Wanting) == {};
    } else {
      var before, a := acts[..|acts| - 1], acts[|acts| - 1];
      EveryCallTakesOrWants(capacity, before);
      ActWants(Run(capacity, before), a);
    }
  }

  lemma {:induction false} ActWants(s: State, a: Action)
    requires Inv(s)
    ensures |Act(s, a).received| + Count(Act(s, a).threads, Wanting)
         == |s.received| + Count(s.threads, Wanting) + One(a.Recv? && IsIdle(s, a.t))
  {
    match a {
      case Send(t, m) => CountMoves(s.threads, t, SendLock(m), Wanting);
      case Recv(t) => CountMoves(s.threads, t, RecvLock, Wanting);
      case Step(t, woken) => if CanStep(s, t, woken) { CountStep(s, t, woken, Wanting); }
      case Spurious(t) => if t in s.threads { CountWakes(s.threads, t, Wanting); }
    }
  }

  /** A thread that can go on does so. */
  lemma {:induction false} RunGoesOn(capacity: nat, acts: seq<Action>, t: Tid, woken: Tid)
    requires CanStep(Run(capacity, acts), t, woken)
    ensures Run(capacity, acts + [Step(t, woken)]) == Next(Run(capacity, acts), t, woken)
  {
    assert (acts + [Step(t, woken)])[..|acts|] == acts;
  }

  // ---- senders over an empty queue ----

  /** On its way to put a message in, or about to wake one that is. */
  predicate Coming(pc: Pc) { pc.RecvSignal? || pc.SendLock? || pc.SendCheck? }

  ghost predicate SomebodySends(threads: Threads) { exists t :: Sending(threads, t) }

  ghost predicate SomebodyComes(threads: Threads) { exists t :: t in threads && Coming(threads[t]) }

  /** While the queue is empty, a sleeping sender has somebody coming for it. */
  ghost predicate SendersAreWoken(s: State) {
    s.messages == [] && SomebodySends(s.threads) ==> SomebodyComes(s.threads)
  }

  predicate SmallPc(capacity: nat, pc: Pc) {
    (pc.SendLock? || pc.SendCheck? || pc.SendSleep?) && |pc.m| >= 1 ==> NeedNodes(|pc.m|) <= capacity
  }

  ghost predicate SmallHeld(s: State) { forall t :: t in s.threads ==> SmallPc(s.capacity, s.threads[t]) }

  lemma {:induction false} SmallKept(s: State, t: Tid, woken: Tid)
    requires WellFormed(s) && SmallHeld(s) && CanStep(s, t, woken)
    ensures SmallHeld(Next(s, t, woken))
  {
    var mid := WhoMoves(s, t, woken);
    assert SmallPc(s.capacity, s.threads[t]);
    forall u | u in mid ensures SmallPc(s.capacity, mid[u]) { assert SmallPc(s.capacity, s.threads[u]); }
  }

  /** Somebody coming, other than the thread that moves, still comes. */
  lemma {:induction false} StillComes(s: State, t: Tid, woken: Tid, c: Tid)
    requires WellFormed(s) && CanStep(s, t, woken) && c != t && c in s.threads && Coming(s.threads[c])
    ensures SomebodyComes(Next(s, t, woken).threads)
  {
    var mid := WhoMoves(s, t, woken);
    assert Coming(mid[c]) && Next(s, t, woken).threads[c] == mid[c];
  }

  /** A dequeue's signal wakes a sender if one sleeps. */
  lemma {:induction false} SignalWakes(s: State, t: Tid, woken: Tid)
    requires WellFormed(s) && CanStep(s, t, woken) && s.threads[t].RecvSignal? && SomebodySends(s.threads)
    ensures SomebodyComes(Next(s, t, woken).threads)
  {
    assert Sending(s.threads, woken) && Next(s, t, woken).threads[woken] == SendLock(s.threads[woken].m);
  }

  /** No step but a sender's test puts a sender to sleep. */
  lemma {:induction false} SleepersBefore(s: State, t: Tid, woken: Tid)
    requires WellFormed(s) && CanStep(s, t, woken) && SomebodySends(Next(s, t, woken).threads)
    ensures SomebodySends(s.threads) || s.threads[t].SendCheck?
  {
    var mid := WhoMoves(s, t, woken);
    var u :| Sending(Next(s, t, woken).threads, u);
    if u != t { assert Sending(s.threads, u); }
  }

  /** What a step can do to an empty queue. */
  lemma {:induction false} EmptyAfter(s: State, t: Tid, woken: Tid)
    requires WellFormed(s) && SmallHeld(s) && CanStep(s, t, woken) && Next(s, t, woken).messages == []
    ensures s.messages == [] || s.threads[t].RecvCheck?
    ensures s.messages != [] ==> Coming(Next(s, t, woken).threads[t])
    ensures !s.threads[t].SendCheck?
    ensures Coming(s.threads[t]) ==> Coming(Next(s, t, woken).threads[t]) || s.threads[t].RecvSignal?
  {
    assert WellFormedPc(s.threads[t]) && SmallPc(s.capacity, s.threads[t]);
  }

  lemma {:induction false} SendersKept(s: State, t: Tid, woken: Tid)
    requires WellFormed(s) && SmallHeld(s) && SendersAreWoken(s) && CanStep(s, t, woken)
    ensures SendersAreWoken(Next(s, t, woken))
  {
    var s' := Next(s, t, woken);
    if s'.messages == [] && SomebodySends(s'.threads) {
      SleepersBefore(s, t, woken);
      EmptyAfter(s, t, woken);
      if Coming(s'.threads[t]) {
        assert SomebodyComes(s'.threads);
      } else if s.threads[t].RecvSignal? {
        SignalWakes(s, t, woken);
      } else {
        var c :| c in s.threads && Coming(s.threads[c]);
        StillComes(s, t, woken, c);
      }
    }
  }

  /** Every message that is ever sent fits into an empty queue. */
  ghost predicate Small(capacity: nat, acts: seq<Action>) {
    forall i :: 0 <= i < |acts| && acts[i].Send? && |acts[i].m| >= 1 ==> NeedNodes(|acts[i].m|) <= capacity
  }

  lemma {:induction false} ActKeepsSenders(s: State, a: Action)
    requires Inv(s) && SmallHeld(s) && SendersAreWoken(s)
    requires a.Send? && |a.m| >= 1 ==> NeedNodes(|a.m|) <= s.capacity
    ensures SmallHeld(Act(s, a)) && SendersAreWoken(Act(s, a))
  {
    match a {
      case Send(t, m) => if IsIdle(s, t) && |m| >= 1 { CallKeepsSenders(s, t, SendLock(m)); }
      case Recv(t) => if IsIdle(s, t) { CallKeepsSenders(s, t, RecvLock); }
      case Step(t, woken) => if CanStep(s, t, woken) { SmallKept(s, t, woken); SendersKept(s, t, woken); }
      case Spurious(t) => if t in s.threads { SpuriousKeepsSenders(s, t); }
    }
  }

  lemma {:induction false} CallKeepsSenders(s: State, t: Tid, pc: Pc)
    requires SmallHeld(s) && SendersAreWoken(s) && IsIdle(s, t) && SmallPc(s.capacity, pc) && (pc.SendLock? || pc.RecvLock?)
    ensures var s' := s.(threads := s.threads[t := pc]); SmallHeld(s') && SendersAreWoken(s')
  {
    var s' := s.(threads := s.threads[t := pc]);
    forall u | u in s'.threads ensures SmallPc(s.capacity, s'.threads[u]) { assert u != t ==> SmallPc(s.capacity, s.threads[u]); }
    if s'.messages == [] && SomebodySends(s'.threads) {
      var u :| Sending(s'.threads, u);
      assert Sending(s.threads, u);
      var c :| c in s.threads && Coming(s.threads[c]);
      assert s'.threads[c] == s.threads[c];
    }
  }

  lemma {:induction false} SpuriousKeepsSenders(s: State, t: Tid)
    requires SmallHeld(s) && SendersAreWoken(s) && t in s.threads
    ensures var s' := s.(threads := Wake(s.threads, t)); SmallHeld(s') && SendersAreWoken(s')
  {
    var s' := s.(threads := Wake(s.threads, t));
    forall u | u in s'.threads ensures SmallPc(s.capacity, s'.threads[u]) { assert SmallPc(s.capacity, s.threads[u]); }
    if s'.messages == [] && SomebodySends(s'.threads) {
      var u :| Sending(s'.threads, u);
      assert Sending(s.threads, u);
      var c :| c in s.threads && Coming(s.threads[c]);
      assert Coming(s'.threads[c]);
    }
  }

  /** In every run of messages that each fit into an empty queue: while the queue is
      empty and a sender sleeps, a receiver is about to signal or a sender is on
      its way. */
  lemma {:induction false} NoSenderIsForgotten(capacity: nat, acts: seq<Action>)
    requires Small(capacity, acts)
    ensures SmallHeld(Run(capacity, acts)) && SendersAreWoken(Run(capacity, acts))
  {
    if acts != [] {
      NoSenderIsForgotten(capacity, acts[..|acts| - 1]);
      ActKeepsSenders(Run(capacity, acts[..|acts| - 1]), acts[|acts| - 1]);
    }
  }

  /** So when nobody can go on, a sender sleeps only over a queue that is not empty. */
  lemma {:induction false} StuckSendersFaceMessages(capacity: nat, acts: seq<Action>)
    requires Small(capacity, acts) && forall t, woken :: !CanStep(Run(capacity, acts), t, woken)
    ensures SomebodySends(Run(capacity, acts).threads) ==> Run(capacity, acts).messages != []
  {
    var s := Run(capacity, acts);
    NoSenderIsForgotten(capacity, acts);
    StuckReceiversHaveNothing(s);
  }

  // ---- receivers ----

  ghost function WokenReceivers(threads: Threads): nat {
    |set t | t in threads && threads[t].RecvWoken?|
  }

  /** In every run: messages come out in the order they went in, what is queued
      fits, and while the mutex is free and a receiver sleeps there are at
      least as many woken receivers as queued messages. */
  lemma {:induction false} NoConsumerWakeupIsLost(capacity: nat, acts: seq<Action>)
    ensures var s := Run(capacity, acts);
      && s.sent == s.received + s.messages && Used(s.messages) <= capacity
      && (!s.locked && Somebody(s.threads) ==> |s.messages| <= WokenReceivers(s.threads))
  {
    var s := Run(capacity, acts);
    if !s.locked {
      FreeMutex(s);
    }
  }

  lemma FreeMutex(s: State)
    requires Mutex(s) && !s.locked
    ensures Count(s.threads, Pending) == WokenReceivers(s.threads)
    ensures Count(s.threads, Announcing) == 0
    ensures forall t :: t in s.threads ==> !In(Inside, s.threads[t])
  {
    forall t | t in s.threads ensures !In(Inside, s.threads[t]) {
      assert t in Members(s.threads, Inside) <==> In(Inside, s.threads[t]);
    }
    assert Members(s.threads, Announcing) == {};
    assert Members(s.threads, Pending) == set t | t in s.threads && s.threads[t].RecvWoken?;
  }

  /** When nobody can go on, whoever is inside a call sleeps, and a receiver
      sleeps only over an empty queue. */
  lemma StuckReceiversHaveNothing(s: State)
    requires Inv(s) && forall t, woken :: !CanStep(s, t, woken)
    ensures forall t :: t in s.threads ==> s.threads[t].Idle? || s.threads[t].SendSleep? || s.threads[t].RecvSleep?
    ensures Somebody(s.threads) ==> s.messages == []
  {
    NobodyInside(s);
    FreeMutex(s);
    forall t | t in s.threads ensures s.threads[t].Idle? || s.threads[t].SendSleep? || s.threads[t].RecvSleep? {
      assert !CanStep(s, t, t);
    }
    assert (set t | t in s.threads && s.threads[t].RecvWoken?) == {};
  }

  lemma NobodyInside(s: State)
    requires Inv(s) && forall t, woken :: !CanStep(s, t, woken)
    ensures !s.locked
  {
    if s.locked {
      var t :| t in Members(s.threads, Inside);
      var woken: Tid :|
        (s.threads[t].SendSignal? ==> Receiving(s.threads, woken) || forall u :: !Receiving(s.threads, u)) &&
        (s.threads[t].RecvSignal? ==> Sending(s.threads, woken) || forall u :: !Sending(s.threads, u));
      assert CanStep(s, t, woken);
      assert false;
    }
  }
}
