/** The hand-off of responses from the websocket threads to the one thread that receives them, as
    interleaved atomic steps. The mutex is held by at most one side, but the receiver looks at the
    queue without it once and clears the queue without it after a timeout. */
module Handoff {

  /** A response is known by its identity. */
  type Response = int

  datatype Holder =
    | Free
    | Pushing(r: Response)  // a producer that has the mutex and has not pushed yet
    | Enqueued              // it has pushed
    | Flagged               // it has set the flag
    | Receiver              // the receiving thread has the mutex

  datatype Pc =
    | Idle
    | WantLock              // Receive: before the mutex
    | Checking              // wait_until: about to test the predicate
    | Waiting               // wait_until: blocked, mutex released
    | Satisfied             // the predicate held, mutex still held
    | Expired               // the wait timed out, mutex still held
    | AtClear               // mutex released, about to clear the queue
    | EmptyCheck(inReceive: bool)   // PopResponse: about to look at the queue without the mutex
    | WantPop(inReceive: bool)
    | AtFront(inReceive: bool)
    | AtPop(inReceive: bool)
    | AtFlag(inReceive: bool)
    | AtUnlock(inReceive: bool)

  /** The shared fields, where the threads are, and the history: the responses pushed so far, how
      many of them have left the queue, which ones were handed over (as positions in pushed, and as
      the values the receiver got), how many a clear threw away, and whether a clear has thrown
      something away since the last push (StaleExactly says so from the schedule). */
  datatype Conn = Conn(
    queue: seq<Response>,
    hasResponse: bool,
    holder: Holder,
    pc: Pc,
    response: Response,
    pushed: seq<Response>,
    removed: nat,
    delivered: seq<nat>,
    received: seq<Response>,
    discarded: nat,
    timeouts: nat,
    unfilled: nat,
    stale: bool)

  const INITIAL := Conn([], false, Free, Idle, 0, [], 0, [], [], 0, 0, 0, false)

  datatype Action =
    | LockPush(r: Response)
    | Enqueue
    | SetFlag
    | UnlockPush
    | CallReceive
    | CallPop
    | LockWait
    | TestPredicate
    | Wake
    | TimeOut
    | UnlockHit
    | UnlockMiss
    | ClearQueue
    | LookEmpty
    | LockPop
    | ReadFront
    | PopFront
    | ClearFlag
    | UnlockPop

  ghost predicate Enabled(s: Conn, a: Action)
  {
    match a
    case LockPush(_) => s.holder == Free
    case Enqueue => s.holder.Pushing?
    case SetFlag => s.holder == Enqueued
    case UnlockPush => s.holder == Flagged
    case CallReceive => s.pc == Idle
    case CallPop => s.pc == Idle
    case LockWait => s.pc == WantLock && s.holder == Free
    case TestPredicate => s.pc == Checking
    case Wake => s.pc == Waiting && s.holder == Free
    case TimeOut => s.pc == Waiting && s.holder == Free
    case UnlockHit => s.pc == Satisfied
    case UnlockMiss => s.pc == Expired
    case ClearQueue => s.pc == AtClear
    case LookEmpty => s.pc.EmptyCheck?
    case LockPop => s.pc.WantPop? && s.holder == Free
    case ReadFront => s.pc.AtFront?
    case PopFront => s.pc.AtPop?
    case ClearFlag => s.pc.AtFlag?
    case UnlockPop => s.pc.AtUnlock?
  }

  /** One atomic step. Reading or popping the front of an empty queue is undefined in the program;
      here it leaves the queue alone, and is shown not to happen. */
  function Apply(s: Conn, a: Action): Conn
  {
    match a
    case LockPush(r) => s.(holder := Pushing(r))
    case Enqueue =>
      if s.holder.Pushing? then
        s.(queue := s.queue + [s.holder.r], pushed := s.pushed + [s.holder.r], holder := Enqueued, stale := false)
      else s
    case SetFlag => s.(hasResponse := true, holder := Flagged)
    case UnlockPush => s.(holder := Free)
    case CallReceive => s.(pc := WantLock)
    case CallPop => s.(pc := EmptyCheck(false))
    case LockWait => s.(pc := Checking, holder := Receiver)
    case TestPredicate =>
      if s.queue != [] then s.(pc := Satisfied) else s.(pc := Waiting, holder := Free)
    case Wake => s.(pc := Checking, holder := Receiver)
    case TimeOut => s.(pc := if s.queue != [] then Satisfied else Expired, holder := Receiver)
    case UnlockHit => s.(pc := EmptyCheck(true), holder := Free)
    case UnlockMiss => s.(pc := AtClear, holder := Free)
    case ClearQueue =>
      s.(queue := [], removed := |s.pushed|, discarded := s.discarded + |s.queue|,
         timeouts := s.timeouts + 1, stale := s.stale || s.queue != [], pc := Idle)
    case LookEmpty =>
      if !s.pc.EmptyCheck? then s
      else if s.queue == [] then
        s.(pc := Idle, unfilled := s.unfilled + if s.pc.inReceive then 1 else 0)
      else s.(pc := WantPop(s.pc.inReceive))
    case LockPop => if s.pc.WantPop? then s.(pc := AtFront(s.pc.inReceive), holder := Receiver) else s
    case ReadFront =>
      if s.pc.AtFront? && s.queue != [] then s.(response := s.queue[0], pc := AtPop(s.pc.inReceive)) else s
    case PopFront =>
      if s.pc.AtPop? && s.queue != [] then
        s.(queue := s.queue[1..], removed := s.removed + 1, pc := AtFlag(s.pc.inReceive))
      else s
    case ClearFlag =>
      if s.pc.AtFlag? then
        s.(hasResponse := if s.queue == [] then false else s.hasResponse, pc := AtUnlock(s.pc.inReceive))
      else s
    case UnlockPop =>
      s.(pc := Idle, holder := Free, received := s.received + [s.response],
         delivered := s.delivered + [if s.removed == 0 then 0 else s.removed - 1])
  }

  /** Any schedule: every step is taken where it is enabled. */
  ghost predicate Possible(s: Conn, schedule: seq<Action>)
    decreases |schedule|
  {
    schedule == [] || (Enabled(s, schedule[0]) && Possible(Apply(s, schedule[0]), schedule[1..]))
  }

  function Execute(s: Conn, schedule: seq<Action>): Conn
    decreases |schedule|
  {
    if schedule == [] then s else Execute(Apply(s, schedule[0]), schedule[1..])
  }

  // ----- the invariant -----

  ghost predicate HoldsMutex(pc: Pc)
  {
    pc == Checking || pc == Satisfied || pc == Expired || pc.AtFront? || pc.AtPop? || pc.AtFlag? || pc.AtUnlock?
  }

  /** A response has left the queue and is on its way to the caller. */
  ghost predicate InFlight(pc: Pc) { pc.AtFlag? || pc.AtUnlock? }

  /** From a successful wait to the pop nobody else takes from the queue. */
  ghost predicate Promised(pc: Pc)
  {
    pc == Satisfied || pc == EmptyCheck(true) || pc.WantPop? || pc.AtFront? || pc.AtPop?
  }

  /** How many of the responses that left the queue are settled: handed over or thrown away. */
  ghost function Settled(s: Conn): int { s.removed - if InFlight(s.pc) then 1 else 0 }

  ghost predicate Fifo(s: Conn)
  {
    && s.removed <= |s.pushed| && s.queue == s.pushed[s.removed..]
    && |s.received| == |s.delivered|
    && (forall k | 0 <= k < |s.delivered| :: s.delivered[k] < Settled(s) && s.delivered[k] < |s.pushed|)
    && (forall k | 0 <= k < |s.delivered| && s.delivered[k] < |s.pushed| :: s.received[k] == s.pushed[s.delivered[k]])
    && (forall j, k | 0 <= j < k < |s.delivered| :: s.delivered[j] < s.delivered[k])
    && |s.delivered| + s.discarded == Settled(s)
    && (s.timeouts == 0 ==> s.discarded == 0)
  }

  ghost predicate Agreement(s: Conn)
  {
    && (s.queue != [] ==> s.hasResponse || s.holder == Enqueued)
    && (s.hasResponse && s.queue == [] ==> s.stale || s.pc.AtFlag?)
    && (s.stale ==> s.queue == [] && (s.hasResponse || s.holder == Enqueued))
    && (s.stale ==> s.timeouts > 0 && !InFlight(s.pc))
    && (s.holder == Enqueued && s.queue == [] ==> s.stale)
  }

  /** Who has the mutex, and what the receiver may rely on at each point. */
  ghost predicate Control(s: Conn)
  {
    && (s.holder == Receiver <==> HoldsMutex(s.pc))
    && (Promised(s.pc) ==> s.queue != [])
    && (InFlight(s.pc) ==> 0 < s.removed <= |s.pushed| && s.response == s.pushed[s.removed - 1])
    && (s.pc.AtPop? ==> s.response == s.queue[0])
    && (s.pc.AtFlag? ==> s.hasResponse)
    && (s.pc == Expired ==> s.queue == [])
    && s.unfilled == 0
  }

  ghost predicate Invariant(s: Conn)
  {
    Control(s) && Fifo(s) && Agreement(s)
  }

  lemma StepKeepsControl(s: Conn, a: Action)
    requires Invariant(s) && Enabled(s, a)
    ensures Control(Apply(s, a))
  {
  }

  lemma EnqueueKeepsFifo(s: Conn)
    requires Invariant(s) && Enabled(s, Enqueue)
    ensures Fifo(Apply(s, Enqueue))
  {
  }

  lemma ClearKeepsFifo(s: Conn)
    requires Invariant(s) && Enabled(s, ClearQueue)
    ensures Fifo(Apply(s, ClearQueue))
  {
  }

  lemma PopKeepsFifo(s: Conn)
    requires Invariant(s) && Enabled(s, PopFront)
    ensures Fifo(Apply(s, PopFront))
  {
  }

  lemma HandOverKeepsFifo(s: Conn)
    requires Invariant(s) && Enabled(s, UnlockPop)
    ensures Fifo(Apply(s, UnlockPop))
  {
  }

  lemma OthersKeepFifo(s: Conn, a: Action)
    requires Invariant(s) && Enabled(s, a)
    requires a != Enqueue && a != ClearQueue && a != PopFront && a != UnlockPop
    ensures Fifo(Apply(s, a))
  {
    var t := Apply(s, a);
    assert t.queue == s.queue && t.pushed == s.pushed && t.removed == s.removed;
    assert t.delivered == s.delivered && t.received == s.received && InFlight(t.pc) == InFlight(s.pc);
  }

  lemma StepKeepsFifo(s: Conn, a: Action)
    requires Invariant(s) && Enabled(s, a)
    ensures Fifo(Apply(s, a))
  {
    match a
    case Enqueue => EnqueueKeepsFifo(s);
    case ClearQueue => ClearKeepsFifo(s);
    case PopFront => PopKeepsFifo(s);
    case UnlockPop => HandOverKeepsFifo(s);
    case _ => OthersKeepFifo(s, a);
  }

  lemma StepKeepsAgreement(s: Conn, a: Action)
    requires Invariant(s) && Enabled(s, a)
    ensures Agreement(Apply(s, a))
  {
  }

  lemma {:induction false} RunKeeps(s: Conn, schedule: seq<Action>)
    requires Invariant(s) && Possible(s, schedule)
    ensures Invariant(Execute(s, schedule))
    decreases |schedule|
  {
    if schedule != [] {
      StepKeepsControl(s, schedule[0]);
      StepKeepsFifo(s, schedule[0]);
      StepKeepsAgreement(s, schedule[0]);
      RunKeeps(Apply(s, schedule[0]), schedule[1..]);
    }
  }

  // ----- what every schedule guarantees -----

  /** received is what remains of pushed when some positions are left out. */
  ghost predicate IsSubsequence(received: seq<Response>, pushed: seq<Response>, at: seq<nat>)
  {
    && |at| == |received|
    && (forall j, k | 0 <= j < k < |at| :: at[j] < at[k])
    && (forall k | 0 <= k < |at| :: at[k] < |pushed| && received[k] == pushed[at[k]])
  }

  /** Over every interleaving: the responses handed over are an in-order, duplicate-free
      subsequence of those pushed; every push is accounted for; and if nothing timed out nothing is
      skipped. */
  lemma FifoOverAllSchedules(schedule: seq<Action>)
    requires Possible(INITIAL, schedule)
    ensures var s := Execute(INITIAL, schedule);
      && IsSubsequence(s.received, s.pushed, s.delivered)
      && |s.pushed| == |s.received| + s.discarded + |s.queue| + (if InFlight(s.pc) then 1 else 0)
      && (s.timeouts == 0 ==> s.received <= s.pushed)
  {
    RunKeeps(INITIAL, schedule);
    var s := Execute(INITIAL, schedule);
    if s.timeouts == 0 {
      NothingSkipped(s.delivered, |s.delivered|);
      assert forall k | 0 <= k < |s.received| :: s.received[k] == s.pushed[k];
    }
  }

  /** An increasing sequence of n positions below n is 0, 1, ..., n - 1. */
  lemma {:induction false} NothingSkipped(at: seq<nat>, n: nat)
    requires |at| == n
    requires forall j, k | 0 <= j < k < n :: at[j] < at[k]
    requires forall k | 0 <= k < n :: at[k] < n
    ensures forall k | 0 <= k < n :: at[k] == k
  {
    if n > 0 {
      var front := at[..n - 1];
      forall k | 0 <= k < n - 1
        ensures front[k] < n - 1
      {
        assert at[k] < at[n - 1];
      }
      NothingSkipped(front, n - 1);
      assert forall k | 0 <= k < n - 1 :: at[k] == front[k];
      if n > 1 { assert at[n - 2] < at[n - 1]; }
    }
  }

  /** A Receive gives up only with nothing queued. One that found a response never comes back without
      one, although it lets the mutex go before it pops; and what it pops is the oldest response in the
      queue. */
  lemma ReceiveIsAlwaysFilled(schedule: seq<Action>)
    requires Possible(INITIAL, schedule)
    ensures var s := Execute(INITIAL, schedule);
      && s.unfilled == 0
      && (s.pc == Expired ==> s.queue == [])
      && (s.pc == Satisfied || s.pc == EmptyCheck(true) ==> s.queue != [])
      && (s.pc.AtFront? || s.pc.AtPop? ==> s.queue != [])
      && (s.pc.AtPop? ==> s.response == s.queue[0])
      && (s.pc.AtUnlock? ==> s.removed > 0 && s.removed <= |s.pushed| && s.response == s.pushed[s.removed - 1]
                             && s.queue == s.pushed[s.removed..])
  {
    RunKeeps(INITIAL, schedule);
  }

  // ----- what a timeout throws away -----

  /** The receiver's last miss, with nothing queued, is step m; it has done nothing since. */
  ghost predicate MissedAt(schedule: seq<Action>, m: int)
  {
    && 0 <= m < |schedule| && schedule[m] == UnlockMiss
    && Execute(INITIAL, schedule[..m]).queue == []
    && forall k | m < k < |schedule| ::
         schedule[k].LockPush? || schedule[k] == Enqueue || schedule[k] == SetFlag || schedule[k] == UnlockPush
  }

  /** What is queued is what was pushed since the state before. */
  ghost predicate QueuedSince(before: Conn, s: Conn)
  {
    before.pushed <= s.pushed && s.queue == s.pushed[|before.pushed|..]
  }

  lemma PushKeepsQueuedSince(before: Conn, s: Conn, a: Action)
    requires QueuedSince(before, s) && Enabled(s, a)
    requires a.LockPush? || a == Enqueue || a == SetFlag || a == UnlockPush
    ensures QueuedSince(before, Apply(s, a))
  {
  }

  /** Before a clear the queue holds exactly what was pushed after that Receive had missed: nothing
      that was queued while it held the mutex is thrown away. */
  lemma {:induction false} ClearTakesOnlyLateResponses(schedule: seq<Action>) returns (m: nat)
    requires Possible(INITIAL, schedule) && Execute(INITIAL, schedule).pc == AtClear
    ensures MissedAt(schedule, m)
    ensures QueuedSince(Execute(INITIAL, schedule[..m]), Execute(INITIAL, schedule))
    decreases |schedule|
  {
    var n := |schedule| - 1;
    var front, a := schedule[..n], schedule[n];
    var s := Execute(INITIAL, front);
    LastStep(front, a, schedule);
    if a == UnlockMiss {
      m := n;
    } else {
      OnlyPushesBeforeClear(s, a);
      m := ClearTakesOnlyLateResponses(front);
      assert front[..m] == schedule[..m];
      PushKeepsQueuedSince(Execute(INITIAL, front[..m]), s, a);
    }
  }

  lemma LastStep(front: seq<Action>, a: Action, schedule: seq<Action>)
    requires schedule == front + [a] && Possible(INITIAL, schedule)
    ensures var s := Execute(INITIAL, front);
      && Possible(INITIAL, front) && Enabled(s, a) && Invariant(s)
      && Execute(INITIAL, schedule) == Apply(s, a)
  {
    ExecuteAppend(INITIAL, front, [a]);
    PossiblePrefix(INITIAL, front, [a]);
    RunOne(Execute(INITIAL, front), a);
    RunKeeps(INITIAL, front);
  }

  lemma OnlyPushesBeforeClear(s: Conn, a: Action)
    requires Enabled(s, a) && Invariant(s) && Apply(s, a).pc == AtClear && a != UnlockMiss
    ensures s.pc == AtClear
    ensures a.LockPush? || a == Enqueue || a == SetFlag || a == UnlockPush
  {
  }

  /** A response that is pushed before the deadline passes is received, not thrown away. */
  lemma DeadlineWithAResponse(r: Response) returns (schedule: seq<Action>)
    ensures Possible(INITIAL, schedule) && TimeOut in schedule
    ensures var s := Execute(INITIAL, schedule);
      s.received == [r] && s.pushed == [r] && s.queue == [] && s.discarded == 0 && s.pc == Idle && s.holder == Free
  {
    var pushed := INITIAL.(queue := [r], pushed := [r], hasResponse := true);
    schedule := DeadlinePassed(r);
    var s1 := pushed.(pc := EmptyCheck(true));
    Chain(INITIAL, schedule, pushed.(pc := Satisfied, holder := Receiver), UnlockHit, s1);
    schedule := schedule + [UnlockHit];
    Chain(INITIAL, schedule, s1, LookEmpty, pushed.(pc := WantPop(true)));
    schedule := schedule + [LookEmpty];
    var s2 := pushed.(pc := AtFront(true), holder := Receiver);
    Chain(INITIAL, schedule, pushed.(pc := WantPop(true)), LockPop, s2);
    schedule := schedule + [LockPop];
    var s3 := s2.(pc := AtPop(true), response := r);
    Chain(INITIAL, schedule, s2, ReadFront, s3);
    schedule := schedule + [ReadFront];
    var s4 := s3.(pc := AtFlag(true), queue := [], removed := 1);
    Chain(INITIAL, schedule, s3, PopFront, s4);
    schedule := schedule + [PopFront];
    var s5 := s4.(pc := AtUnlock(true), hasResponse := false);
    Chain(INITIAL, schedule, s4, ClearFlag, s5);
    schedule := schedule + [ClearFlag];
    Chain(INITIAL, schedule, s5, UnlockPop, s5.(pc := Idle, holder := Free, received := [r], delivered := [0]));
    schedule := schedule + [UnlockPop];
  }

  /** The receiver waits, a response is pushed, and the wait times out before it is woken. */
  lemma DeadlinePassed(r: Response) returns (schedule: seq<Action>)
    ensures Possible(INITIAL, schedule) && TimeOut in schedule
    ensures Execute(INITIAL, schedule) ==
      INITIAL.(queue := [r], pushed := [r], hasResponse := true, pc := Satisfied, holder := Receiver)
  {
    var s1, s2, s3 := INITIAL.(pc := WantLock), INITIAL.(pc := Checking, holder := Receiver), INITIAL.(pc := Waiting);
    schedule := [CallReceive];
    RunOne(INITIAL, CallReceive);
    Chain(INITIAL, schedule, s1, LockWait, s2);
    schedule := schedule + [LockWait];
    Chain(INITIAL, schedule, s2, TestPredicate, s3);
    schedule := schedule + [TestPredicate];
    var s4 := s3.(holder := Pushing(r));
    Chain(INITIAL, schedule, s3, LockPush(r), s4);
    schedule := schedule + [LockPush(r)];
    var s5 := s3.(holder := Enqueued, queue := [r], pushed := [r]);
    Chain(INITIAL, schedule, s4, Enqueue, s5);
    schedule := schedule + [Enqueue];
    var s6 := s5.(holder := Flagged, hasResponse := true);
    Chain(INITIAL, schedule, s5, SetFlag, s6);
    schedule := schedule + [SetFlag];
    Chain(INITIAL, schedule, s6, UnlockPush, s6.(holder := Free));
    schedule := schedule + [UnlockPush];
    Chain(INITIAL, schedule, s6.(holder := Free), TimeOut, s6.(pc := Satisfied, holder := Receiver));
    schedule := schedule + [TimeOut];
  }

  // ----- the flag -----

  /** A poll reads the flag without the mutex, so it can happen in any reachable state. The answer is
      false with a response queued exactly while a push has been done and its flag is not yet set,
      and true with nothing queued exactly after a clear that threw responses away, until the next
      push, or while a pop is about to clear the flag. */
  lemma FlagAgreesExactly(schedule: seq<Action>)
    requires Possible(INITIAL, schedule)
    ensures var s := Execute(INITIAL, schedule);
      && (!s.hasResponse && s.queue != [] <==> s.holder == Enqueued && !s.hasResponse && !Stale(schedule))
      && (s.hasResponse && s.queue == [] <==>
            (Stale(schedule) && s.hasResponse) || (s.pc.AtFlag? && s.queue == []))
  {
    RunKeeps(INITIAL, schedule);
    StaleExactly(schedule);
  }

  /** A poll by the receiving thread, which is then at no other place, whatever the others are doing:
      wrong one way only while a push is between its two writes, and the other way only after a
      timeout. */
  lemma PollByReceiver(schedule: seq<Action>)
    requires Possible(INITIAL, schedule) && Execute(INITIAL, schedule).pc == Idle
    ensures var s := Execute(INITIAL, schedule);
      && ((s.hasResponse <==> s.queue != []) <==>
            !(s.holder == Enqueued && !s.hasResponse && !Stale(schedule)) && !(s.hasResponse && Stale(schedule)))
      && (s.timeouts == 0 ==> ((s.hasResponse <==> s.queue != []) <==> s.holder != Enqueued || s.hasResponse))
  {
    RunKeeps(INITIAL, schedule);
    StaleExactly(schedule);
  }

  /** Whenever the mutex is free the flag is set if the queue is not empty, and it is wrong the other
      way round exactly when a timeout has thrown responses away and nothing was pushed since. */
  lemma FlagAgreesWithQueue(schedule: seq<Action>)
    requires Possible(INITIAL, schedule)
    ensures var s := Execute(INITIAL, schedule);
      s.holder == Free ==>
        && (s.queue != [] ==> s.hasResponse)
        && (s.hasResponse && s.queue == [] <==> Stale(schedule))
        && (s.timeouts == 0 ==> (s.hasResponse <==> s.queue != []))
  {
    RunKeeps(INITIAL, schedule);
    StaleExactly(schedule);
  }

  // ----- stale, from the schedule alone -----

  /** The i-th step is a clear that throws something away, and nothing is pushed after it. */
  ghost predicate LastsFrom(schedule: seq<Action>, i: int)
  {
    && 0 <= i < |schedule| && schedule[i] == ClearQueue
    && Execute(INITIAL, schedule[..i]).queue != []
    && Enqueue !in schedule[i..]
  }

  ghost predicate Stale(schedule: seq<Action>)
  {
    exists i :: LastsFrom(schedule, i)
  }

  lemma StaleSnoc(schedule: seq<Action>, a: Action)
    ensures Stale(schedule + [a]) <==>
      || (a == ClearQueue && Execute(INITIAL, schedule).queue != [])
      || (a != Enqueue && Stale(schedule))
  {
    var longer, n := schedule + [a], |schedule|;
    assert longer[..n] == schedule && longer[n..] == [a];
    if a == ClearQueue && Execute(INITIAL, schedule).queue != [] {
      assert LastsFrom(longer, n);
    }
    if a != Enqueue && Stale(schedule) {
      var i :| LastsFrom(schedule, i);
      assert longer[..i] == schedule[..i] && longer[i..] == schedule[i..] + [a];
      assert LastsFrom(longer, i);
    }
    if Stale(longer) {
      var i :| LastsFrom(longer, i);
      if i < n {
        assert longer[..i] == schedule[..i] && longer[i..] == schedule[i..] + [a];
        assert a in longer[i..];
        assert LastsFrom(schedule, i);
      }
    }
  }

  lemma {:induction false} StaleExactly(schedule: seq<Action>)
    requires Possible(INITIAL, schedule)
    ensures Execute(INITIAL, schedule).stale <==> Stale(schedule)
    decreases |schedule|
  {
    if schedule != [] {
      var front, a := schedule[..|schedule| - 1], schedule[|schedule| - 1];
      assert schedule == front + [a];
      ExecuteAppend(INITIAL, front, [a]);
      PossiblePrefix(INITIAL, front, [a]);
      StaleExactly(front);
      StaleSnoc(front, a);
      RunOne(Execute(INITIAL, front), a);
    }
  }

  lemma {:induction false} PossiblePrefix(s: Conn, first: seq<Action>, second: seq<Action>)
    requires Possible(s, first + second)
    ensures Possible(s, first) && Possible(Execute(s, first), second)
    decreases |first|
  {
    if first == [] {
      assert first + second == second;
    } else {
      assert (first + second)[1..] == first[1..] + second;
      PossiblePrefix(Apply(s, first[0]), first[1..], second);
    }
  }

  lemma RunOne(s: Conn, a: Action)
    ensures Execute(s, [a]) == Apply(s, a)
    ensures Enabled(s, a) ==> Possible(s, [a])
  {
    var one := [a];
    assert one[1..] == [];
    assert Execute(Apply(s, a), one[1..]) == Apply(s, a);
  }

  /** Two runs that can be put one after the other. */
  lemma Chain(s: Conn, first: seq<Action>, t: Conn, a: Action, u: Conn)
    requires Possible(s, first) && Execute(s, first) == t
    requires Enabled(t, a) && Apply(t, a) == u
    ensures Possible(s, first + [a]) && Execute(s, first + [a]) == u
  {
    RunOne(t, a);
    ExecuteAppend(s, first, [a]);
  }

  /** A Receive on an empty queue that has timed out and let the mutex go. */
  lemma TimedOut() returns (schedule: seq<Action>)
    ensures Possible(INITIAL, schedule)
    ensures Execute(INITIAL, schedule) == INITIAL.(pc := AtClear)
  {
    var s1 := INITIAL.(pc := WantLock);
    var s2 := INITIAL.(pc := Checking, holder := Receiver);
    var s3 := INITIAL.(pc := Waiting);
    var s4 := INITIAL.(pc := Expired, holder := Receiver);
    var s5 := INITIAL.(pc := AtClear);
    schedule := [];
    Chain(INITIAL, schedule, INITIAL, CallReceive, s1);
    schedule := schedule + [CallReceive];
    Chain(INITIAL, schedule, s1, LockWait, s2);
    schedule := schedule + [LockWait];
    Chain(INITIAL, schedule, s2, TestPredicate, s3);
    schedule := schedule + [TestPredicate];
    Chain(INITIAL, schedule, s3, TimeOut, s4);
    schedule := schedule + [TimeOut];
    Chain(INITIAL, schedule, s4, UnlockMiss, s5);
    schedule := schedule + [UnlockMiss];
  }

  /** A timeout whose clear runs while a response is being pushed leaves the flag set and the queue
      empty. */
  lemma TimeoutCanLeaveTheFlagSet(r: Response) returns (schedule: seq<Action>)
    ensures Possible(INITIAL, schedule)
    ensures var s := Execute(INITIAL, schedule);
      s.holder == Free && s.hasResponse && s.queue == [] && s.pushed == [r] && s.received == []
  {
    var s5 := INITIAL.(pc := AtClear);
    var s6 := s5.(holder := Pushing(r));
    var s7 := s5.(holder := Enqueued, queue := [r], pushed := [r]);
    var s8 := INITIAL.(holder := Enqueued, pushed := [r], removed := 1, discarded := 1, timeouts := 1, stale := true);
    schedule := TimedOut();
    Chain(INITIAL, schedule, s5, LockPush(r), s6);
    schedule := schedule + [LockPush(r)];
    Chain(INITIAL, schedule, s6, Enqueue, s7);
    schedule := schedule + [Enqueue];
    Chain(INITIAL, schedule, s7, ClearQueue, s8);
    schedule := schedule + [ClearQueue];
    Chain(INITIAL, schedule, s8, SetFlag, s8.(holder := Flagged, hasResponse := true));
    schedule := schedule + [SetFlag];
    Chain(INITIAL, schedule, s8.(holder := Flagged, hasResponse := true), UnlockPush,
          s8.(holder := Free, hasResponse := true));
    schedule := schedule + [UnlockPush];
  }

  /** A poll that comes between the two writes of a push misses the response, without any timeout. */
  lemma PollCanMissAResponse(r: Response) returns (schedule: seq<Action>)
    ensures Possible(INITIAL, schedule)
    ensures var s := Execute(INITIAL, schedule);
      s.pc == Idle && s.timeouts == 0 && s.queue == [r] && !s.hasResponse
  {
    var s1 := INITIAL.(holder := Pushing(r));
    schedule := [LockPush(r)];
    RunOne(INITIAL, LockPush(r));
    Chain(INITIAL, schedule, s1, Enqueue, s1.(holder := Enqueued, queue := [r], pushed := [r]));
    schedule := schedule + [Enqueue];
  }

  lemma {:induction false} ExecuteAppend(s: Conn, first: seq<Action>, second: seq<Action>)
    ensures Execute(s, first + second) == Execute(Execute(s, first), second)
    ensures Possible(s, first) && Possible(Execute(s, first), second) ==> Possible(s, first + second)
    decreases |first|
  {
    if first == [] {
      assert first + second == second;
    } else {
      assert (first + second)[1..] == first[1..] + second;
      ExecuteAppend(Apply(s, first[0]), first[1..], second);
    }
  }
}
