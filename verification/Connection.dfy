/** The connection's queue as the program has it. Each method runs its statements without being
    interrupted; beside each statement the step it is in Handoff is taken, so every history of an
    object is one of the schedules there. */
module Connection {
  import opened Handoff

  const NULL: Response := 0

  class ResponseQueue {
    var queue: seq<Response>
    var hasResponse: bool
    ghost var schedule: seq<Action>  // every step taken so far
    ghost var state: Conn            // where they have led

    ghost predicate Tracked()
      reads this
    {
      Possible(INITIAL, schedule) && state == Execute(INITIAL, schedule)
    }

    ghost predicate Linked()
      reads this
    {
      Tracked() && queue == state.queue && hasResponse == state.hasResponse
    }

    /** Between calls: nobody has the mutex, and the fields are those of the state. */
    ghost predicate Valid()
      reads this
    {
      Linked() && state.holder == Free && state.pc == Idle
    }

    constructor ()
      ensures Valid() && queue == [] && !hasResponse && schedule == []
    {
      queue, hasResponse := [], false;
      schedule, state := [], INITIAL;
    }

    ghost method Step(a: Action)
      requires Tracked() && Enabled(state, a)
      modifies `schedule, `state
      ensures Tracked()
      ensures schedule == old(schedule) + [a] && state == Apply(old(state), a)
    {
      Chain(INITIAL, schedule, state, a, Apply(state, a));
      schedule := schedule + [a];
      state := Apply(state, a);
    }

    /** A websocket thread can push whenever the mutex is free, wherever the receiver is. */
    method PushResponse(r: Response)
      requires Linked() && state.holder == Free
      modifies this
      ensures Linked() && queue == old(queue) + [r] && hasResponse
      ensures schedule == old(schedule) + [LockPush(r), Enqueue, SetFlag, UnlockPush]
      ensures SameButPushed(state, old(state))
    {
      Step(LockPush(r));
      queue := queue + [r];
      Step(Enqueue);
      hasResponse := true;
      Step(SetFlag);
      Step(UnlockPush);
    }

    /** The pushes that come in while the receiver is between two of its steps. */
    method PushAll(rs: seq<Response>)
      requires Linked() && state.holder == Free
      modifies this
      ensures Linked() && queue == old(queue) + rs
      ensures SameButPushed(state, old(state))
    {
      for i := 0 to |rs|
        invariant Linked() && queue == old(queue) + rs[..i]
        invariant SameButPushed(state, old(state))
      {
        PushResponse(rs[i]);
      }
    }

    /** Lock, read the front and pop it. */
    method PopFront() returns (response: Response)
      requires Linked() && state.holder == Free && state.pc.WantPop?
      modifies this
      ensures Linked() && state.holder == Receiver && state.pc.AtFlag? && hasResponse == old(hasResponse)
      ensures old(queue) != [] && response == old(queue)[0] == state.response && queue == old(queue)[1..]
      ensures state.received == old(state.received) && state.discarded == old(state.discarded)
      ensures state.timeouts == old(state.timeouts)
    {
      PromiseKept(schedule);
      Step(LockPop);
      response := queue[0];
      Step(ReadFront);
      queue := queue[1..];
      Step(Action.PopFront);
    }

    /** The part of PopResponse after the emptiness check. */
    method TakeFront() returns (response: Response)
      requires Linked() && state.holder == Free && state.pc.WantPop?
      modifies this
      ensures Valid() && old(queue) != []
      ensures response == old(queue)[0] && queue == old(queue)[1..]
      ensures hasResponse <==> queue != []
      ensures state.received == old(state.received) + [response]
      ensures state.discarded == old(state.discarded) && state.timeouts == old(state.timeouts)
    {
      response := PopFront();
      if queue == [] {
        hasResponse := false;
      }
      Step(ClearFlag);
      Step(UnlockPop);
      FlagAgreesWithQueue(schedule);
    }

    /** The response is left alone if there is none. */
    method PopResponse(prior: Response) returns (response: Response)
      requires Valid()
      modifies this
      ensures Valid()
      ensures old(queue) == [] ==> response == prior && queue == [] && hasResponse == old(hasResponse)
      ensures old(queue) != [] ==>
        response == old(queue)[0] && queue == old(queue)[1..] && (hasResponse <==> queue != [])
    {
      Step(CallPop);
      Step(LookEmpty);
      if queue == [] {
        return prior;
      }
      response := TakeFront();
    }

    /** Lock and wait_until. A wait on an empty queue lets the mutex go, and coming are the responses
        that are pushed until it has it again. */
    method WaitUntil(coming: seq<Response>) returns (found: bool)
      requires Valid()
      modifies this
      ensures Linked() && state.holder == Receiver && state.pc == if found then Satisfied else Expired
      ensures queue == if old(queue) != [] then old(queue) else coming
      ensures found <==> queue != []
      ensures state.timeouts == old(state.timeouts) && state.discarded == old(state.discarded)
    {
      Step(CallReceive);
      Step(LockWait);
      Step(TestPredicate);
      if queue != [] {
        return true;
      }
      PushAll(coming);
      if queue != [] {
        Step(Wake);
        Step(TestPredicate);
        return true;
      }
      Step(TimeOut);
      return false;
    }

    /** The responses coming are pushed while the wait blocks, and those later while the mutex is free
        after it: before the pop, or before the clear, which throws them away. */
    method Receive(coming: seq<Response>, later: seq<Response>) returns (found: bool, response: Response)
      requires Valid()
      modifies this
      ensures Valid()
      ensures var waiting := if old(queue) != [] then old(queue) else coming;
        && (found <==> waiting != [])
        && (found ==> response == waiting[0] && queue == waiting[1..] + later && (hasResponse <==> queue != [])
                      && state.discarded == old(state.discarded))
      ensures !found ==> response == NULL && queue == [] && state.timeouts == old(state.timeouts) + 1
                         && state.discarded == old(state.discarded) + |later|
    {
      found := WaitUntil(coming);
      if found {
        response := TakePromised(later);
      } else {
        response := NULL;
        ClearAfterTimeout(later);
      }
    }

    /** A successful wait lets the mutex go before it pops. */
    method TakePromised(later: seq<Response>) returns (response: Response)
      requires Linked() && state.pc == Satisfied && queue != []
      modifies this
      ensures Valid() && response == old(queue)[0] && queue == old(queue)[1..] + later
      ensures hasResponse <==> queue != []
      ensures state.timeouts == old(state.timeouts) && state.discarded == old(state.discarded)
    {
      Step(UnlockHit);
      PushAll(later);
      assert queue[0] == old(queue)[0] && queue[1..] == old(queue)[1..] + later;
      LookThere();
      response := TakeFront();
    }

    /** The emptiness check of PopResponse, when there is something. */
    ghost method LookThere()
      requires Linked() && state.holder == Free && state.pc.EmptyCheck? && queue != []
      modifies `schedule, `state
      ensures Linked() && state == old(state).(pc := WantPop(old(state).pc.inReceive))
    {
      Step(LookEmpty);
    }

    /** The clear does not take the mutex again. */
    method ClearAfterTimeout(later: seq<Response>)
      requires Linked() && state.pc == Expired && queue == []
      modifies this
      ensures Valid() && queue == []
      ensures state.timeouts == old(state.timeouts) + 1 && state.discarded == old(state.discarded) + |later|
    {
      Step(UnlockMiss);
      PushAll(later);
      queue := [];
      Step(ClearQueue);
    }

    /** The flag is read without the mutex, at any moment of any history. */
    method PollResponse() returns (r: bool)
      requires Linked()
      ensures !r && queue != [] <==> state.holder == Enqueued && !r && !Stale(schedule)
      ensures r && queue == [] <==> (r && Stale(schedule)) || (state.pc.AtFlag? && queue == [])
      ensures state.holder == Free && state.timeouts == 0 ==> (r <==> queue != [])
    {
      FlagAgreesExactly(schedule);
      FlagAgreesWithQueue(schedule);
      r := hasResponse;
    }
  }

  /** A push changes nothing for the receiver but the queue and the flag. */
  ghost predicate SameButPushed(s: Conn, before: Conn)
  {
    && s.holder == before.holder && s.pc == before.pc && s.response == before.response
    && s.removed == before.removed && s.delivered == before.delivered && s.received == before.received
    && s.discarded == before.discarded && s.timeouts == before.timeouts
  }

  lemma PromiseKept(schedule: seq<Action>)
    requires Possible(INITIAL, schedule)
    ensures Execute(INITIAL, schedule).pc.WantPop? ==> Execute(INITIAL, schedule).queue != []
  {
    RunKeeps(INITIAL, schedule);
  }
}
