/** The task loop of one step of the resource agent. */
module Scheduler {
  import opened Options
  import opened TaskQueue

  type U32 = x: int | 0 <= x < 0x1_0000_0000

  function ToU32(x: int): U32 { x % 0x1_0000_0000 }

  /** What the game and the other agents answer while a task is handled: what the task costs,
      whether the unit, worker or building site that it needs is there, and whether the unit to be
      transferred is a command center. */
  datatype Answer = Answer(food: real, minerals: U32, vespene: U32, ready: bool, center: bool)

  /** A cost is never negative. */
  type Reply = r: Answer | r.food >= 0.0 witness Answer(0.0, 0, 0, false, false)

  /** The observation at the start of the step, and the answers for the n-th task popped. */
  datatype World = World(foodCap: U32, foodUsed: U32, minerals: U32, vespene: U32, reply: (nat, Task) -> Reply)

  /** An order given to a unit, with what it costs. */
  datatype Order = Order(task: Task, food: real, minerals: U32, vespene: U32)

  datatype Loop = Loop(
    food: U32,
    minerals: U32,
    vespene: U32,
    running: bool,
    putBack: bool,
    orders: seq<Order>)

  /** available_food is an unsigned difference. */
  function Begin(w: World): Loop
  {
    Loop(ToU32(w.foodCap as int - w.foodUsed), w.minerals, w.vespene, true, false, [])
  }

  predicate Short(s: Loop, r: Reply)
  {
    r.food > s.food as real || r.minerals > s.minerals || r.vespene > s.vespene
  }

  predicate ShortOfMoney(s: Loop, r: Reply)
  {
    r.minerals > s.minerals || r.vespene > s.vespene
  }

  /** The food counter is an unsigned integer and the cost a float: the difference is truncated. */
  function Pay(s: Loop, r: Reply): Loop
  {
    s.(food := ToU32((s.food as real - r.food).Floor),
       minerals := ToU32(s.minerals as int - r.minerals),
       vespene := ToU32(s.vespene as int - r.vespene))
  }

  function Give(s: Loop, t: Task, r: Reply): Loop
  {
    s.(orders := s.orders + [Order(t, r.food, r.minerals, r.vespene)])
  }

  function PutBack(s: Loop): Loop
  {
    s.(putBack := true, running := false)
  }

  /** One iteration, for a task that has been popped. */
  function Handle(s: Loop, t: Task, r: Reply, foodCap: U32): Loop
  {
    match t.action
    case Harvest => if r.ready then Give(s, t, r) else s
    case Build =>
      if Short(s, r) && foodCap < 200 && ShortOfMoney(s, r) then PutBack(s)
      else if r.ready then Pay(Give(s, t, r), r).(running := false)
      else s
    case Train =>
      if !r.ready then s
      else if Short(s, r) then if foodCap < 200 && ShortOfMoney(s, r) then PutBack(s) else s
      else Pay(Give(s, t, r), r)
    case Repair => if r.ready then Give(s, t, r) else s
    case Upgrade =>
      if ShortOfMoney(s, r) then PutBack(s)
      else if r.ready then Give(s, t, r)
      else s
    case Move => if r.ready then Give(s, t, r) else s
    case Transfer =>
      if !r.ready then s
      else if t.source == ResourceAgent then s.(running := false)
      else Give(s, t, r)
    case _ => s
  }

  /** The scout agent asks for an orbital command when it is given a command center. */
  function MorphTask(t: Task): Task
  {
    Task(Train, ScoutAgent, 7, 0, t.payload)
  }

  /** What other agents put into the queue while a task is handled. */
  function Enqueued(t: Task, r: Reply): Option<Task>
  {
    if t.action == Transfer && t.source == ScoutAgent && r.ready && r.center then Some(MorphTask(t)) else None
  }

  /** The loop as a function of the tasks it popped. */
  function Replay(w: World, popped: seq<Task>): Loop
    decreases |popped|
  {
    if popped == [] then Begin(w)
    else
      var n, t := |popped| - 1, popped[|popped| - 1];
      Handle(Replay(w, popped[..n]), t, w.reply(n, t), w.foodCap)
  }

  /** The loop kept running up to its last task. */
  ghost predicate RanThrough(w: World, popped: seq<Task>)
  {
    forall k | 0 <= k < |popped| :: Replay(w, popped[..k]).running
  }

  function Single(x: Option<Task>): multiset<Task>
  {
    if x.Some? then multiset{x.value} else multiset{}
  }

  /** Everything that other agents put into the queue during the loop. */
  function Added(w: World, popped: seq<Task>): multiset<Task>
    decreases |popped|
  {
    if popped == [] then multiset{}
    else
      var n, t := |popped| - 1, popped[|popped| - 1];
      Added(w, popped[..n]) + Single(Enqueued(t, w.reply(n, t)))
  }

  /** x came into the queue while one of the tasks from the j-th on was handled. */
  ghost predicate CameAfter(w: World, popped: seq<Task>, j: int, x: Task)
  {
    exists i | 0 <= i < |popped| :: j <= i && Enqueued(popped[i], w.reply(i, popped[i])) == Some(x)
  }

  /** A task above an earlier one was not in the queue yet when that one was popped. */
  ghost predicate InOrder(w: World, popped: seq<Task>)
  {
    forall j, k | 0 <= j < k < |popped| ::
      Less(popped[j], popped[k]) ==> CameAfter(w, popped[..k], j, popped[k])
  }

  ghost predicate RestInOrder(w: World, popped: seq<Task>, c: seq<Task>)
  {
    forall j, x | 0 <= j < |popped| && x in c :: Less(popped[j], x) ==> CameAfter(w, popped, j, x)
  }

  function Back(s: Loop, popped: seq<Task>): multiset<Task>
  {
    if s.putBack && popped != [] then multiset{popped[|popped| - 1]} else multiset{}
  }

  /** Between iterations: c is what is left in the queue. */
  ghost predicate Between(w: World, initial: seq<Task>, c: seq<Task>, s: Loop, popped: seq<Task>)
  {
    && IsHeap(c)
    && s == Replay(w, popped) && RanThrough(w, popped)
    && InOrder(w, popped) && RestInOrder(w, popped, c)
    && (s.putBack ==> popped != [] && !s.running && popped[|popped| - 1] in c)
    && multiset(c) + multiset(popped) == multiset(initial) + Added(w, popped) + Back(s, popped)
  }

  lemma HandleFacts(s: Loop, t: Task, r: Reply, foodCap: U32)
    requires s.running && !s.putBack
    ensures var s' := Handle(s, t, r, foodCap); s'.putBack ==> !s'.running
  {
  }

  // ----- one iteration -----

  /** What is in the queue after t was handled: t itself if it goes back, and what came in. */
  ghost predicate Left(c: seq<Task>, after: seq<Task>, t: Task, back: bool, added: Option<Task>)
  {
    multiset(c) == multiset(after) + (if back then multiset{t} else multiset{}) + Single(added)
  }

  lemma AddedSnoc(w: World, popped: seq<Task>, t: Task)
    ensures Added(w, popped + [t]) == Added(w, popped) + Single(Enqueued(t, w.reply(|popped|, t)))
  {
    assert (popped + [t])[..|popped|] == popped;
  }

  lemma CameAfterSnoc(w: World, popped: seq<Task>, t: Task, j: nat, x: Task)
    ensures CameAfter(w, popped, j, x) ==> CameAfter(w, popped + [t], j, x)
    ensures j <= |popped| && Enqueued(t, w.reply(|popped|, t)) == Some(x) ==> CameAfter(w, popped + [t], j, x)
  {
    var longer := popped + [t];
    if CameAfter(w, popped, j, x) {
      var i :| 0 <= i < |popped| && j <= i && Enqueued(popped[i], w.reply(i, popped[i])) == Some(x);
      assert longer[i] == popped[i];
    }
    if j <= |popped| && Enqueued(t, w.reply(|popped|, t)) == Some(x) {
      assert longer[|popped|] == t;
    }
  }

  /** The popped task was in the queue, so the order it must respect is that of the queue. */
  lemma PopInOrder(w: World, popped: seq<Task>, before: seq<Task>, t: Task)
    requires InOrder(w, popped) && RestInOrder(w, popped, before) && t in before
    ensures InOrder(w, popped + [t])
  {
    var longer := popped + [t];
    forall j, k | 0 <= j < k < |longer| && Less(longer[j], longer[k])
      ensures CameAfter(w, longer[..k], j, longer[k])
    {
      if k < |popped| {
        assert longer[..k] == popped[..k];
      } else {
        assert longer[..k] == popped;
      }
    }
  }

  lemma RestStaysInOrder(w: World, popped: seq<Task>, before: seq<Task>, after: seq<Task>, c: seq<Task>,
                         t: Task, back: bool)
    requires RestInOrder(w, popped, before) && t in before
    requires multiset(after) == multiset(before) - multiset{t}
    requires forall i | 0 <= i < |before| :: !Less(t, before[i])
    requires Left(c, after, t, back, Enqueued(t, w.reply(|popped|, t)))
    ensures RestInOrder(w, popped + [t], c)
  {
    var longer, added := popped + [t], Enqueued(t, w.reply(|popped|, t));
    forall j: nat, x | j < |longer| && x in c && Less(longer[j], x)
      ensures CameAfter(w, longer, j, x)
    {
      CameAfterSnoc(w, popped, t, j, x);
      LeftOver(before, after, c, t, back, added, x);
      if added != Some(x) {
        assert x in before && j < |popped|;
        assert longer[j] == popped[j];
      }
    }
  }

  lemma LeftOver(before: seq<Task>, after: seq<Task>, c: seq<Task>, t: Task, back: bool, added: Option<Task>, x: Task)
    requires x in c && t in before && multiset(after) == multiset(before) - multiset{t}
    requires Left(c, after, t, back, added)
    ensures added == Some(x) || x in before
  {
    assert x in multiset(c);
    if added != Some(x) && x != t {
      assert x in multiset(after);
      assert x in multiset(before);
    }
  }

  /** After a pop: the queue has lost t, and gets it back if it cannot be afforded. */
  lemma HandledNext(w: World, initial: seq<Task>, before: seq<Task>, after: seq<Task>, c: seq<Task>,
                    s: Loop, popped: seq<Task>, t: Task)
    requires Between(w, initial, before, s, popped) && s.running
    requires t in before && multiset(after) == multiset(before) - multiset{t}
    requires forall i | 0 <= i < |before| :: !Less(t, before[i])
    requires IsHeap(c)
    requires var r := w.reply(|popped|, t);
      Left(c, after, t, Handle(s, t, r, w.foodCap).putBack, Enqueued(t, r))
    ensures Between(w, initial, c, Handle(s, t, w.reply(|popped|, t), w.foodCap), popped + [t])
  {
    var r := w.reply(|popped|, t);
    var s' := Handle(s, t, r, w.foodCap);
    HandleFacts(s, t, r, w.foodCap);
    PopInOrder(w, popped, before, t);
    RestStaysInOrder(w, popped, before, after, c, t, s'.putBack);
    RanThroughSnoc(w, popped, t);
    AddedSnoc(w, popped, t);
    assert s'.putBack ==> t in c by {
      if s'.putBack { assert t in multiset(c); }
    }
    Exchange(initial, before, after, c, popped, t, Added(w, popped), s'.putBack, Enqueued(t, r));
  }

  lemma Exchange(initial: seq<Task>, before: seq<Task>, after: seq<Task>, c: seq<Task>, popped: seq<Task>,
                 t: Task, added: multiset<Task>, back: bool, new_: Option<Task>)
    requires t in before && multiset(after) == multiset(before) - multiset{t}
    requires multiset(before) + multiset(popped) == multiset(initial) + added
    requires Left(c, after, t, back, new_)
    ensures multiset(c) + multiset(popped + [t]) ==
      multiset(initial) + (added + Single(new_)) + if back then multiset{t} else multiset{}
  {
    assert multiset(popped + [t]) == multiset(popped) + multiset{t};
    MoveTask(multiset(initial), multiset(before), multiset(after), multiset(popped), t, added,
             if back then multiset{t} else multiset{}, Single(new_));
  }

  lemma MoveTask(i: multiset<Task>, before: multiset<Task>, after: multiset<Task>, p: multiset<Task>,
                 t: Task, added: multiset<Task>, back: multiset<Task>, new_: multiset<Task>)
    requires t in before && after == before - multiset{t} && before + p == i + added
    ensures (after + back + new_) + (p + multiset{t}) == i + (added + new_) + back
  {
    assert before == after + multiset{t};
    assert (after + back + new_) + (p + multiset{t}) == ((after + multiset{t}) + p) + back + new_;
  }

  lemma RanThroughSnoc(w: World, popped: seq<Task>, t: Task)
    requires RanThrough(w, popped) && Replay(w, popped).running
    ensures RanThrough(w, popped + [t])
    ensures Replay(w, popped + [t]) == Handle(Replay(w, popped), t, w.reply(|popped|, t), w.foodCap)
  {
    var all := popped + [t];
    assert all[..|popped|] == popped;
    forall k | 0 <= k < |all|
      ensures Replay(w, all[..k]).running
    {
      if k < |popped| { assert all[..k] == popped[..k]; }
    }
  }

  // ----- how long the loop can run -----

  predicate IsScoutTransfer(t: Task) { t.action == Transfer && t.source == ScoutAgent }

  function ScoutTransfers(tasks: seq<Task>): multiset<Task>
  {
    if tasks == [] then multiset{}
    else
      var n, t := |tasks| - 1, tasks[|tasks| - 1];
      ScoutTransfers(tasks[..n]) + if IsScoutTransfer(t) then multiset{t} else multiset{}
  }

  lemma {:induction false} ScoutTransfersCount(tasks: seq<Task>, x: Task)
    ensures ScoutTransfers(tasks)[x] == if IsScoutTransfer(x) then multiset(tasks)[x] else 0
  {
    if tasks != [] {
      var n := |tasks| - 1;
      assert tasks == tasks[..n] + [tasks[n]];
      ScoutTransfersCount(tasks[..n], x);
    }
  }

  /** How many of the popped tasks handed a command center to the scout agent. */
  function CentersHandedOver(w: World, popped: seq<Task>): nat
    decreases |popped|
  {
    if popped == [] then 0
    else
      var n, t := |popped| - 1, popped[|popped| - 1];
      var r := w.reply(n, t);
      CentersHandedOver(w, popped[..n])
      + if t.action == Transfer && t.source == ScoutAgent && r.ready && r.center then 1 else 0
  }

  lemma {:induction false} AddedCount(w: World, popped: seq<Task>)
    ensures |Added(w, popped)| == CentersHandedOver(w, popped) <= |ScoutTransfers(popped)|
    ensures forall x | x in Added(w, popped) :: x.action == Train && x.source == ScoutAgent && x.priority == 7
    decreases |popped|
  {
    if popped != [] {
      AddedCount(w, popped[..|popped| - 1]);
    }
  }

  lemma SubsetCount(a: multiset<Task>, b: multiset<Task>)
    requires a <= b
    ensures |a| <= |b|
  {
    assert b == a + (b - a);
  }

  /** No more tasks are popped than were queued, and one for every transfer to the scout agent. */
  lemma PopsAreBounded(w: World, initial: seq<Task>, c: seq<Task>, s: Loop, popped: seq<Task>)
    requires Between(w, initial, c, s, popped)
    ensures |c| + |popped| == |initial| + |Added(w, popped)| + if s.putBack then 1 else 0
    ensures |Added(w, popped)| == CentersHandedOver(w, popped)
    ensures forall x | x in Added(w, popped) :: x.action == Train && x.source == ScoutAgent && x.priority == 7
    ensures |Added(w, popped)| <= |ScoutTransfers(initial)|
    ensures |popped| <= |initial| + |ScoutTransfers(initial)|
  {
    assert |multiset(c) + multiset(popped)| == |c| + |popped|;
    AddedCount(w, popped);
    if s.putBack {
      FewerAfterPutBack(w, initial, c, s, popped);
    } else {
      TransfersWereThere(initial, popped, c, Added(w, popped), multiset{});
    }
  }

  lemma TransfersWereThere(initial: seq<Task>, popped: seq<Task>, c: seq<Task>, added: multiset<Task>,
                           back: multiset<Task>)
    requires multiset(c) + multiset(popped) == multiset(initial) + added + back
    requires back <= multiset(c)
    requires forall x | x in added :: !IsScoutTransfer(x)
    ensures |ScoutTransfers(popped)| <= |ScoutTransfers(initial)|
  {
    forall x: Task
      ensures ScoutTransfers(popped)[x] <= ScoutTransfers(initial)[x]
    {
      ScoutTransfersCount(popped, x);
      ScoutTransfersCount(initial, x);
      assert (multiset(c) + multiset(popped))[x] == multiset(initial)[x] + added[x] + back[x];
    }
    SubsetCount(ScoutTransfers(popped), ScoutTransfers(initial));
  }

  lemma FewerAfterPutBack(w: World, initial: seq<Task>, c: seq<Task>, s: Loop, popped: seq<Task>)
    requires Between(w, initial, c, s, popped) && s.putBack
    requires forall x | x in Added(w, popped) :: !IsScoutTransfer(x)
    ensures |ScoutTransfers(popped)| <= |ScoutTransfers(initial)| && |c| >= 1
  {
    assert popped[|popped| - 1] in multiset(c);
    TransfersWereThere(initial, popped, c, Added(w, popped), multiset{popped[|popped| - 1]});
  }

  /** What a task needs is there, and what is left suffices for it. */
  predicate Affordable(s: Loop, t: Task, r: Reply, foodCap: U32)
  {
    var enough := r.minerals <= s.minerals && r.vespene <= s.vespene;
    && r.ready
    && t.action in {Harvest, Repair, Move, Transfer, Upgrade, Train, Build}
    && (t.action == Transfer ==> t.source != ResourceAgent)
    && (t.action == Upgrade || t.action == Train ==> enough)
    && (t.action == Train ==> r.food <= s.food as real)
    && (t.action == Build ==> foodCap >= 200 || enough)
  }

  lemma HandleGives(s: Loop, t: Task, r: Reply, foodCap: U32)
    ensures Handle(s, t, r, foodCap).orders ==
      if Affordable(s, t, r, foodCap) then s.orders + [Order(t, r.food, r.minerals, r.vespene)] else s.orders
  {
  }

  class ResourceAgentLoop {
    const taskQueue: PriorityQueue
    var availableFood: U32
    var availableMinerals: U32
    var availableVespene: U32
    var taskSuccess: bool
    var orders: seq<Order>  // the unit commands sent

    constructor (taskQueue: PriorityQueue)
      ensures this.taskQueue == taskQueue
    {
      this.taskQueue := taskQueue;
      availableFood, availableMinerals, availableVespene, taskSuccess, orders := 0, 0, 0, true, [];
    }

    ghost function Abs(putBack: bool): Loop
      reads this
    {
      Loop(availableFood, availableMinerals, availableVespene, taskSuccess, putBack, orders)
    }

    method Command(t: Task, r: Reply)
      modifies `orders
      ensures Abs(false) == Give(old(Abs(false)), t, r)
    {
      orders := orders + [Order(t, r.food, r.minerals, r.vespene)];
    }

    method UpdateResources(r: Reply)
      modifies `availableFood, `availableMinerals, `availableVespene
      ensures Abs(false) == Pay(old(Abs(false)), r)
    {
      availableFood := ToU32((availableFood as real - r.food).Floor);
      availableMinerals := ToU32(availableMinerals as int - r.minerals);
      availableVespene := ToU32(availableVespene as int - r.vespene);
    }

    /** The switch over the task's action; the result says that the task goes back to the queue. */
    method Perform(t: Task, r: Reply, foodCap: U32) returns (putBack: bool)
      requires taskSuccess && IsHeap(taskQueue.c)
      modifies `availableFood, `availableMinerals, `availableVespene, `taskSuccess, `orders, taskQueue
      ensures Abs(putBack) == Handle(old(Abs(false)), t, r, foodCap)
      ensures IsHeap(taskQueue.c) && Left(taskQueue.c, old(taskQueue.c), t, putBack, Enqueued(t, r))
      ensures putBack <==>
        && (r.minerals > old(availableMinerals) || r.vespene > old(availableVespene))
        && (t.action == Upgrade || (foodCap < 200 && (t.action == Build || (t.action == Train && r.ready))))
      ensures orders == if Affordable(old(Abs(false)), t, r, foodCap)
                        then old(orders) + [Order(t, r.food, r.minerals, r.vespene)] else old(orders)
      ensures orders == old(orders) || (t.action != Build && t.action != Train) ==>
        availableFood == old(availableFood) && availableMinerals == old(availableMinerals)
        && availableVespene == old(availableVespene)
      ensures t.action == Train && orders != old(orders) ==>
        && availableMinerals == old(availableMinerals) - r.minerals
        && availableVespene == old(availableVespene) - r.vespene
        && availableFood == (old(availableFood) as real - r.food).Floor
      ensures !taskSuccess <==>
        || putBack
        || (t.action == Build && orders != old(orders))
        || (t.action == Transfer && t.source == ResourceAgent && r.ready)
    {
      ghost var s := Abs(false);
      putBack := TryTask(t, r, foodCap);
      HandlePutsBack(s, t, r, foodCap);
      HandleStops(s, t, r, foodCap);
      HandlePays(s, t, r, foodCap);
      HandleGives(s, t, r, foodCap);
    }

    method TryTask(t: Task, r: Reply, foodCap: U32) returns (putBack: bool)
      requires taskSuccess && IsHeap(taskQueue.c)
      modifies `availableFood, `availableMinerals, `availableVespene, `taskSuccess, `orders, taskQueue
      ensures Abs(putBack) == Handle(old(Abs(false)), t, r, foodCap)
      ensures IsHeap(taskQueue.c) && Left(taskQueue.c, old(taskQueue.c), t, putBack, Enqueued(t, r))
    {
      match t.action
      case Harvest | Repair | Move =>
        if r.ready {
          Command(t, r);
        }
        putBack := false;
      case Build => putBack := TryBuild(t, r, foodCap);
      case Train => putBack := TryTrain(t, r, foodCap);
      case Upgrade => putBack := TryUpgrade(t, r, foodCap);
      case Transfer => putBack := TryTransfer(t, r, foodCap);
      case _ => putBack := false;
    }

    method TryBuild(t: Task, r: Reply, foodCap: U32) returns (putBack: bool)
      requires t.action == Build && taskSuccess && IsHeap(taskQueue.c)
      modifies `availableFood, `availableMinerals, `availableVespene, `taskSuccess, `orders, taskQueue
      ensures Abs(putBack) == Handle(old(Abs(false)), t, r, foodCap)
      ensures IsHeap(taskQueue.c) && Left(taskQueue.c, old(taskQueue.c), t, putBack, Enqueued(t, r))
    {
      var moneyShort := r.minerals > availableMinerals || r.vespene > availableVespene;
      if r.food > availableFood as real || moneyShort {
        if foodCap < 200 && moneyShort {
          taskQueue.Push(t);
          taskSuccess := false;
          return true;
        }
      }
      if r.ready {
        Command(t, r);
        UpdateResources(r);
        taskSuccess := false;
      }
      return false;
    }

    method TryTrain(t: Task, r: Reply, foodCap: U32) returns (putBack: bool)
      requires t.action == Train && taskSuccess && IsHeap(taskQueue.c)
      modifies `availableFood, `availableMinerals, `availableVespene, `taskSuccess, `orders, taskQueue
      ensures Abs(putBack) == Handle(old(Abs(false)), t, r, foodCap)
      ensures IsHeap(taskQueue.c) && Left(taskQueue.c, old(taskQueue.c), t, putBack, Enqueued(t, r))
    {
      var moneyShort := r.minerals > availableMinerals || r.vespene > availableVespene;
      if !r.ready {
        return false;
      }
      if r.food > availableFood as real || moneyShort {
        if foodCap < 200 && moneyShort {
          taskQueue.Push(t);
          taskSuccess := false;
          return true;
        }
        return false;
      }
      Command(t, r);
      UpdateResources(r);
      return false;
    }

    method TryUpgrade(t: Task, r: Reply, ghost foodCap: U32) returns (putBack: bool)
      requires t.action == Upgrade && taskSuccess && IsHeap(taskQueue.c)
      modifies `availableFood, `availableMinerals, `availableVespene, `taskSuccess, `orders, taskQueue
      ensures Abs(putBack) == Handle(old(Abs(false)), t, r, foodCap)
      ensures IsHeap(taskQueue.c) && Left(taskQueue.c, old(taskQueue.c), t, putBack, Enqueued(t, r))
    {
      if r.minerals > availableMinerals || r.vespene > availableVespene {
        taskQueue.Push(t);
        taskSuccess := false;
        return true;
      }
      if r.ready {
        Command(t, r);
      }
      return false;
    }

    method TryTransfer(t: Task, r: Reply, ghost foodCap: U32) returns (putBack: bool)
      requires t.action == Transfer && taskSuccess && IsHeap(taskQueue.c)
      modifies `availableFood, `availableMinerals, `availableVespene, `taskSuccess, `orders, taskQueue
      ensures Abs(putBack) == Handle(old(Abs(false)), t, r, foodCap)
      ensures IsHeap(taskQueue.c) && Left(taskQueue.c, old(taskQueue.c), t, putBack, Enqueued(t, r))
    {
      putBack := false;
      if !r.ready {
        return;
      }
      if t.source == ResourceAgent {
        taskSuccess := false;
        return;
      }
      Command(t, r);
      if t.source == ScoutAgent && r.center {
        taskQueue.Push(MorphTask(t));
      }
    }

    /** The while loop of step, from the reading of the resources on. popped is the tasks it took, in
        order, and putBack says that the last of them went back to the queue. */
    method Step(w: World) returns (popped: seq<Task>, putBack: bool)
      requires IsHeap(taskQueue.c)
      modifies this, taskQueue
      ensures Between(w, old(taskQueue.c), taskQueue.c, Abs(putBack), popped)
      ensures taskSuccess ==> taskQueue.c == []
    {
      availableFood := ToU32(w.foodCap as int - w.foodUsed);
      availableMinerals := w.minerals;
      availableVespene := w.vespene;
      taskSuccess := true;
      orders := [];
      popped, putBack := [], false;
      ghost var initial := taskQueue.c;
      while |taskQueue.c| != 0 && taskSuccess
        invariant Between(w, initial, taskQueue.c, Abs(putBack), popped)
        decreases |initial| + |ScoutTransfers(initial)| - |popped|
      {
        ghost var before, s := taskQueue.c, Abs(false);
        PopsAreBounded(w, initial, before, s, popped);
        var t := taskQueue.Pop();
        ghost var after := taskQueue.c;
        putBack := Perform(t, w.reply(|popped|, t), w.foodCap);
        HandledNext(w, initial, before, after, taskQueue.c, s, popped, t);
        popped := popped + [t];
      }
    }
  }

  lemma HandlePays(s: Loop, t: Task, r: Reply, foodCap: U32)
    requires s.running && !s.putBack
    ensures var s' := Handle(s, t, r, foodCap);
      && (s'.orders == s.orders || (t.action != Build && t.action != Train) ==>
            s'.food == s.food && s'.minerals == s.minerals && s'.vespene == s.vespene)
      && (t.action == Train && s'.orders != s.orders ==>
            && s'.minerals == s.minerals - r.minerals && s'.vespene == s.vespene - r.vespene
            && s'.food == (s.food as real - r.food).Floor)
  {
    assert |s.orders + [Order(t, r.food, r.minerals, r.vespene)]| != |s.orders|;
    if !Short(s, r) {
      PayFacts(Give(s, t, r), r);
    }
  }

  // ----- the budget -----

  predicate Costs(o: Order) { o.task.action == Train || o.task.action == Build }

  function Minerals(orders: seq<Order>): nat
  {
    if orders == [] then 0
    else Minerals(orders[..|orders| - 1]) + var o := orders[|orders| - 1]; if Costs(o) then o.minerals else 0
  }

  function Vespene(orders: seq<Order>): nat
  {
    if orders == [] then 0
    else Vespene(orders[..|orders| - 1]) + var o := orders[|orders| - 1]; if Costs(o) then o.vespene else 0
  }

  function TrainFood(orders: seq<Order>): real
  {
    if orders == [] then 0.0
    else
      TrainFood(orders[..|orders| - 1])
      + var o := orders[|orders| - 1]; if o.task.action == Train then o.food else 0.0
  }

  function Builds(orders: seq<Order>): nat
  {
    if orders == [] then 0
    else Builds(orders[..|orders| - 1]) + if orders[|orders| - 1].task.action == Build then 1 else 0
  }

  /** The counters are what is left after the orders given so far, as long as the loop runs. */
  ghost predicate Accounted(w: World, s: Loop)
  {
    && s.minerals + Minerals(s.orders) == w.minerals
    && s.vespene + Vespene(s.orders) == w.vespene
    && s.food as real + TrainFood(s.orders) <= Begin(w).food as real
    && Builds(s.orders) == 0
  }

  lemma OrdersSnoc(orders: seq<Order>, o: Order)
    ensures Minerals(orders + [o]) == Minerals(orders) + if Costs(o) then o.minerals else 0
    ensures Vespene(orders + [o]) == Vespene(orders) + if Costs(o) then o.vespene else 0
    ensures TrainFood(orders + [o]) == TrainFood(orders) + if o.task.action == Train then o.food else 0.0
    ensures Builds(orders + [o]) == Builds(orders) + if o.task.action == Build then 1 else 0
  {
    assert (orders + [o])[..|orders|] == orders;
  }

  lemma PayFacts(s: Loop, r: Reply)
    requires !Short(s, r)
    ensures var s' := Pay(s, r);
      && s'.minerals == s.minerals - r.minerals
      && s'.vespene == s.vespene - r.vespene
      && s'.food as real <= s.food as real - r.food
      && s'.food == (s.food as real - r.food).Floor
  {
    var left := s.food as real - r.food;
    assert 0 <= left.Floor <= s.food;
  }

  /** What handling one task does to the account. */
  ghost predicate Keeps(w: World, s: Loop, t: Task, r: Reply, s': Loop)
  {
    var over := Minerals(s'.orders) > w.minerals || Vespene(s'.orders) > w.vespene;
    && (s'.running ==> Accounted(w, s'))
    && (over <==> t.action == Build && w.foodCap >= 200 && ShortOfMoney(s, r) && r.ready)
    && TrainFood(s'.orders) <= Begin(w).food as real
    && Builds(s'.orders) <= 1
  }

  /** An affordable training order. */
  lemma PaidOrderKeeps(w: World, s: Loop, o: Order, s': Loop)
    requires Accounted(w, s) && o.task.action == Train
    requires s'.orders == s.orders + [o]
    requires s'.minerals == s.minerals - o.minerals && s'.vespene == s.vespene - o.vespene
    requires s'.food as real <= s.food as real - o.food
    ensures Accounted(w, s')
  {
    OrdersSnoc(s.orders, o);
  }

  lemma AccountedIsWithinBudget(w: World, s: Loop)
    requires Accounted(w, s)
    ensures Minerals(s.orders) <= w.minerals && Vespene(s.orders) <= w.vespene
    ensures TrainFood(s.orders) <= Begin(w).food as real && Builds(s.orders) <= 1
  {
  }

  lemma TrainAccounts(w: World, s: Loop, t: Task, r: Reply)
    requires Accounted(w, s) && t.action == Train
    ensures Accounted(w, Handle(s, t, r, w.foodCap))
  {
    if r.ready && !Short(s, r) {
      PayFacts(Give(s, t, r), r);
      PaidOrderKeeps(w, s, Order(t, r.food, r.minerals, r.vespene), Pay(Give(s, t, r), r));
    }
  }

  lemma BuildAccounts(w: World, s: Loop, t: Task, r: Reply)
    requires Accounted(w, s) && t.action == Build && s.running
    ensures Keeps(w, s, t, r, Handle(s, t, r, w.foodCap))
  {
    OrdersSnoc(s.orders, Order(t, r.food, r.minerals, r.vespene));
    assert Give(s, t, r).orders == s.orders + [Order(t, r.food, r.minerals, r.vespene)];
  }

  lemma HandleOthers(s: Loop, t: Task, r: Reply, foodCap: U32)
    requires !t.action.Train? && !t.action.Build?
    ensures var s' := Handle(s, t, r, foodCap);
      && s'.food == s.food && s'.minerals == s.minerals && s'.vespene == s.vespene
      && (s'.orders == s.orders || s'.orders == s.orders + [Order(t, r.food, r.minerals, r.vespene)])
  {
  }

  lemma FreeOrderKeeps(w: World, s: Loop, t: Task, r: Reply, o: Order, s': Loop)
    requires Accounted(w, s) && !t.action.Train? && !t.action.Build? && o.task == t
    requires s'.food == s.food && s'.minerals == s.minerals && s'.vespene == s.vespene
    requires s'.orders == s.orders || s'.orders == s.orders + [o]
    ensures Keeps(w, s, t, r, s')
  {
    OrdersSnoc(s.orders, o);
    assert Accounted(w, s');
  }

  lemma OthersAccount(w: World, s: Loop, t: Task, r: Reply)
    requires Accounted(w, s) && !t.action.Train? && !t.action.Build?
    ensures Keeps(w, s, t, r, Handle(s, t, r, w.foodCap))
  {
    HandleOthers(s, t, r, w.foodCap);
    FreeOrderKeeps(w, s, t, r, Order(t, r.food, r.minerals, r.vespene), Handle(s, t, r, w.foodCap));
  }

  lemma HandleAccounts(w: World, s: Loop, t: Task, r: Reply)
    requires Accounted(w, s) && s.running
    ensures Keeps(w, s, t, r, Handle(s, t, r, w.foodCap))
  {
    match t.action
    case Train =>
      TrainAccounts(w, s, t, r);
      AccountedIsWithinBudget(w, Handle(s, t, r, w.foodCap));
    case Build => BuildAccounts(w, s, t, r);
    case _ => OthersAccount(w, s, t, r);
  }

  lemma {:induction false} ReplayAccounts(w: World, popped: seq<Task>)
    requires RanThrough(w, popped) && Replay(w, popped).running
    ensures Accounted(w, Replay(w, popped))
    decreases |popped|
  {
    if popped != [] {
      RanThroughBefore(w, popped);
      var n, t := |popped| - 1, popped[|popped| - 1];
      ReplayAccounts(w, popped[..n]);
      HandleAccounts(w, Replay(w, popped[..n]), t, w.reply(n, t));
    }
  }

  lemma RanThroughBefore(w: World, popped: seq<Task>)
    requires RanThrough(w, popped) && popped != []
    ensures RanThrough(w, popped[..|popped| - 1]) && Replay(w, popped[..|popped| - 1]).running
  {
    var front := popped[..|popped| - 1];
    forall k | 0 <= k < |front|
      ensures Replay(w, front[..k]).running
    {
      assert front[..k] == popped[..k];
    }
  }

  lemma LastAccounts(w: World, popped: seq<Task>)
    requires RanThrough(w, popped) && popped != []
    ensures var n, t := |popped| - 1, popped[|popped| - 1];
      Keeps(w, Replay(w, popped[..n]), t, w.reply(n, t), Replay(w, popped))
  {
    RanThroughBefore(w, popped);
    var n, t := |popped| - 1, popped[|popped| - 1];
    ReplayAccounts(w, popped[..n]);
    HandleAccounts(w, Replay(w, popped[..n]), t, w.reply(n, t));
  }

  /** Whatever tasks the loop took and whatever the game answered: below the food cap of 200 the
      training and building orders of a step never cost more than was read at its start; training
      food never exceeds what was free; and there is at most one building order. */
  lemma BudgetIsKept(w: World, popped: seq<Task>)
    requires RanThrough(w, popped)
    ensures var orders := Replay(w, popped).orders;
      && (w.foodCap < 200 ==> Minerals(orders) <= w.minerals && Vespene(orders) <= w.vespene)
      && (w.foodUsed <= w.foodCap ==> TrainFood(orders) <= (w.foodCap - w.foodUsed) as real)
      && Builds(orders) <= 1
  {
    BeginFood(w);
    if popped != [] {
      LastAccounts(w, popped);
    }
  }

  lemma BeginFood(w: World)
    ensures w.foodUsed <= w.foodCap ==> Begin(w).food == w.foodCap - w.foodUsed
  {
  }

  /** What the task costs is more than the orders so far have left of the amounts read at the start. */
  ghost predicate TooExpensive(w: World, orders: seq<Order>, r: Reply)
  {
    Minerals(orders) + r.minerals > w.minerals || Vespene(orders) + r.vespene > w.vespene
  }

  /** The budget is exceeded exactly when the last task is a building order, given at a food cap of
      200 or more, that costs more than is left. */
  lemma BudgetIsExceededExactly(w: World, popped: seq<Task>)
    requires RanThrough(w, popped)
    ensures var orders := Replay(w, popped).orders;
      Minerals(orders) > w.minerals || Vespene(orders) > w.vespene <==>
        && popped != []
        && var n, t := |popped| - 1, popped[|popped| - 1];
           && t.action == Build && w.foodCap >= 200
           && w.reply(n, t).ready && TooExpensive(w, Replay(w, popped[..n]).orders, w.reply(n, t))
  {
    if popped != [] {
      LastAccounts(w, popped);
      RanThroughBefore(w, popped);
      ReplayAccounts(w, popped[..|popped| - 1]);
    }
  }

  /** A building that costs 100 is ordered with no minerals at all. */
  lemma BudgetCanBeExceeded() returns (w: World, popped: seq<Task>)
    ensures w.foodCap == 200 && w.minerals == 0 && RanThrough(w, popped)
    ensures Minerals(Replay(w, popped).orders) == 100
  {
    var r := Answer(0.0, 100, 0, true, false);
    w := World(200, 0, 0, 0, (n, t) => r);
    var t := Task(Build, ResourceAgent, 10, 0, 0);
    popped := [t];
    assert popped[..0] == [];
    assert Replay(w, []).running;
    var s := Handle(Begin(w), t, r, 200);
    assert Replay(w, popped) == s;
    OrdersSnoc([], Order(t, 0.0, 100, 0));
    assert [] + [Order(t, 0.0, 100, 0)] == s.orders;
  }

  // ----- when an order is given -----

  /** The free food at the start, an unsigned difference. */
  function FoodRead(w: World): int
  {
    if w.foodUsed <= w.foodCap then w.foodCap - w.foodUsed else 0x1_0000_0000 + w.foodCap - w.foodUsed
  }

  /** The food taken by training orders: every cost is rounded up, because the counter is an integer. */
  function FoodTaken(orders: seq<Order>): int
  {
    if orders == [] then 0
    else
      FoodTaken(orders[..|orders| - 1])
      + var o := orders[|orders| - 1]; if o.task.action == Train then -((-o.food).Floor) else 0
  }

  lemma FoodTakenSnoc(orders: seq<Order>, o: Order)
    ensures FoodTaken(orders + [o]) == FoodTaken(orders) + if o.task.action == Train then -((-o.food).Floor) else 0
  {
    assert (orders + [o])[..|orders|] == orders;
  }

  lemma HandleFood(w: World, s: Loop, t: Task, r: Reply)
    requires s.running && s.food + FoodTaken(s.orders) == FoodRead(w)
    ensures var s' := Handle(s, t, r, w.foodCap); s'.running ==> s'.food + FoodTaken(s'.orders) == FoodRead(w)
  {
    FoodTakenSnoc(s.orders, Order(t, r.food, r.minerals, r.vespene));
    if !Short(s, r) {
      PayFacts(Give(s, t, r), r);
      assert (s.food as real - r.food).Floor == s.food + (-r.food).Floor;
    }
  }

  lemma {:induction false} ReplayFood(w: World, popped: seq<Task>)
    requires RanThrough(w, popped) && Replay(w, popped).running
    ensures Replay(w, popped).food + FoodTaken(Replay(w, popped).orders) == FoodRead(w)
    decreases |popped|
  {
    if popped != [] {
      RanThroughBefore(w, popped);
      var n, t := |popped| - 1, popped[|popped| - 1];
      ReplayFood(w, popped[..n]);
      HandleFood(w, Replay(w, popped[..n]), t, w.reply(n, t));
    }
  }

  /** The agent can do the task: what it needs is there, and where the action has a check, what it
      costs is within the amounts read less what the orders so far have taken. A building is only
      held back below the food cap of 200, and never for its food. */
  ghost predicate CanBeDone(w: World, orders: seq<Order>, t: Task, r: Reply)
  {
    match t.action
    case Harvest => r.ready
    case Repair => r.ready
    case Move => r.ready
    case Transfer => r.ready && t.source != ResourceAgent
    case Upgrade => r.ready && !TooExpensive(w, orders, r)
    case Train => r.ready && !TooExpensive(w, orders, r) && r.food <= (FoodRead(w) - FoodTaken(orders)) as real
    case Build => r.ready && (w.foodCap >= 200 || !TooExpensive(w, orders, r))
    case _ => false
  }

  /** The last task popped adds exactly one order, its own, if it can be done, and none otherwise. */
  lemma OrderGivenExactly(w: World, popped: seq<Task>)
    requires RanThrough(w, popped) && popped != []
    ensures var n, t := |popped| - 1, popped[|popped| - 1];
      var r, before := w.reply(n, t), Replay(w, popped[..n]).orders;
      Replay(w, popped).orders ==
        if CanBeDone(w, before, t, r) then before + [Order(t, r.food, r.minerals, r.vespene)] else before
  {
    RanThroughBefore(w, popped);
    var n, t := |popped| - 1, popped[|popped| - 1];
    ReplayAccounts(w, popped[..n]);
    ReplayFood(w, popped[..n]);
    HandleOrders(w, Replay(w, popped[..n]), t, w.reply(n, t));
  }

  lemma HandleOrders(w: World, s: Loop, t: Task, r: Reply)
    requires Accounted(w, s) && s.food + FoodTaken(s.orders) == FoodRead(w)
    ensures Handle(s, t, r, w.foodCap).orders ==
      if CanBeDone(w, s.orders, t, r) then s.orders + [Order(t, r.food, r.minerals, r.vespene)] else s.orders
  {
  }

  // ----- what stops the loop -----

  /** The last task goes back to the queue exactly when it is a building, an upgrade or a possible
      training that costs more than is left, and, but for an upgrade, the food cap is below 200. */
  lemma PutBackExactly(w: World, popped: seq<Task>)
    requires RanThrough(w, popped) && popped != []
    ensures var n, t := |popped| - 1, popped[|popped| - 1];
      var r := w.reply(n, t);
      Replay(w, popped).putBack <==>
        && TooExpensive(w, Replay(w, popped[..n]).orders, r)
        && (t.action == Upgrade
            || (w.foodCap < 200 && (t.action == Build || (t.action == Train && r.ready))))
  {
    RanThroughBefore(w, popped);
    var n := |popped| - 1;
    ReplayAccounts(w, popped[..n]);
    NothingIsBack(w, popped[..n]);
    HandlePutsBack(Replay(w, popped[..n]), popped[n], w.reply(n, popped[n]), w.foodCap);
  }

  lemma HandlePutsBack(s: Loop, t: Task, r: Reply, foodCap: U32)
    requires !s.putBack
    ensures Handle(s, t, r, foodCap).putBack <==>
      && ShortOfMoney(s, r)
      && (t.action == Upgrade || (foodCap < 200 && (t.action == Build || (t.action == Train && r.ready))))
  {
  }

  /** While the loop runs nothing has gone back. */
  lemma {:induction false} NothingIsBack(w: World, popped: seq<Task>)
    requires RanThrough(w, popped) && Replay(w, popped).running
    ensures !Replay(w, popped).putBack
    decreases |popped|
  {
    if popped != [] {
      RanThroughBefore(w, popped);
      NothingIsBack(w, popped[..|popped| - 1]);
    }
  }

  /** The loop ends before the queue does exactly when its last task went back, was a building order
      or was a transfer of this agent's own. */
  lemma StopsExactly(w: World, popped: seq<Task>)
    requires RanThrough(w, popped) && popped != []
    ensures var n, t := |popped| - 1, popped[|popped| - 1];
      !Replay(w, popped).running <==>
        || Replay(w, popped).putBack
        || Builds(Replay(w, popped).orders) == 1
        || (t.action == Transfer && t.source == ResourceAgent && w.reply(n, t).ready)
  {
    RanThroughBefore(w, popped);
    var n, t := |popped| - 1, popped[|popped| - 1];
    var s, r := Replay(w, popped[..n]), w.reply(n, t);
    ReplayAccounts(w, popped[..n]);
    NothingIsBack(w, popped[..n]);
    HandleStops(s, t, r, w.foodCap);
    OrdersSnoc(s.orders, Order(t, r.food, r.minerals, r.vespene));
  }

  lemma HandleStops(s: Loop, t: Task, r: Reply, foodCap: U32)
    requires s.running && !s.putBack
    ensures var s' := Handle(s, t, r, foodCap);
      && (s'.orders == s.orders || s'.orders == s.orders + [Order(t, r.food, r.minerals, r.vespene)])
      && (!s'.running <==>
          || s'.putBack
          || (t.action == Build && s'.orders != s.orders)
          || (t.action == Transfer && t.source == ResourceAgent && r.ready))
  {
    assert |s.orders + [Order(t, r.food, r.minerals, r.vespene)]| != |s.orders|;
  }

  // ----- conservation and order -----

  /** What the loop leaves: nothing is lost or invented; only the last task popped can go back; tasks
      are popped in non-increasing order but for those that came in later; and the loop ends after at
      most one iteration for every task queued and one more for every transfer to the scout agent. */
  lemma StepConserves(w: World, initial: seq<Task>, c: seq<Task>, s: Loop, popped: seq<Task>)
    requires Between(w, initial, c, s, popped)
    ensures multiset(c) == multiset(initial) + Added(w, popped) + Back(s, popped) - multiset(popped)
    ensures multiset(popped) <= multiset(initial) + Added(w, popped)
    ensures |c| == |initial| + |Added(w, popped)| - |popped| + if s.putBack then 1 else 0
    ensures |Added(w, popped)| <= |ScoutTransfers(initial)|
    ensures |popped| <= |initial| + |ScoutTransfers(initial)|
    ensures InOrder(w, popped) && RestInOrder(w, popped, c)
    ensures forall j, k | 0 <= j < k < |popped| ::
              Precedes(popped[j], popped[k]) || CameAfter(w, popped[..k], j, popped[k])
  {
    forall j, k | 0 <= j < k < |popped|
      ensures Precedes(popped[j], popped[k]) || CameAfter(w, popped[..k], j, popped[k])
    {
      PrecedesExactly(popped[j], popped[k]);
    }
    PopsAreBounded(w, initial, c, s, popped);
    var back, all := Back(s, popped), multiset(initial) + Added(w, popped);
    assert multiset(c) + multiset(popped) == all + back;
    assert back <= multiset(c) by {
      if s.putBack { assert popped[|popped| - 1] in multiset(c); }
    }
    Difference(multiset(c), multiset(popped), all, back);
  }

  lemma Difference(c: multiset<Task>, p: multiset<Task>, all: multiset<Task>, back: multiset<Task>)
    requires c + p == all + back && back <= c
    ensures p <= all && c == all + back - p
  {
    forall x: Task
      ensures p[x] <= all[x] && c[x] == (all + back - p)[x]
    {
      assert (c + p)[x] == (all + back)[x];
    }
  }

  /** When no command center is transferred to the scout agent: the order is non-increasing, no task
      left behind is above one that was popped, and the queue only loses what was popped. */
  lemma OrderWithoutArrivals(w: World, initial: seq<Task>, c: seq<Task>, s: Loop, popped: seq<Task>)
    requires Between(w, initial, c, s, popped)
    requires forall i | 0 <= i < |popped| :: Enqueued(popped[i], w.reply(i, popped[i])) == None
    ensures forall j, k | 0 <= j < k < |popped| :: Precedes(popped[j], popped[k])
    ensures forall j, x | 0 <= j < |popped| && x in c :: Precedes(popped[j], x)
    ensures |popped| <= |initial|
    ensures multiset(c) == multiset(initial) + Back(s, popped) - multiset(popped)
  {
    NoArrivalsInOrder(w, popped, c);
    StepConserves(w, initial, c, s, popped);
    NothingAdded(w, popped);
    assert multiset(initial) + multiset{} == multiset(initial);
    SubsetCount(multiset(popped), multiset(initial));
  }

  lemma NoArrivalsInOrder(w: World, popped: seq<Task>, c: seq<Task>)
    requires InOrder(w, popped) && RestInOrder(w, popped, c)
    requires forall i | 0 <= i < |popped| :: Enqueued(popped[i], w.reply(i, popped[i])) == None
    ensures forall j, k | 0 <= j < k < |popped| :: Precedes(popped[j], popped[k])
    ensures forall j, x | 0 <= j < |popped| && x in c :: Precedes(popped[j], x)
  {
    forall j, k | 0 <= j < k < |popped|
      ensures Precedes(popped[j], popped[k])
    {
      assert !CameAfter(w, popped[..k], j, popped[k]);
      PrecedesExactly(popped[j], popped[k]);
    }
    forall j, x | 0 <= j < |popped| && x in c
      ensures Precedes(popped[j], x)
    {
      assert !CameAfter(w, popped, j, x);
      PrecedesExactly(popped[j], x);
    }
  }

  lemma {:induction false} NothingAdded(w: World, popped: seq<Task>)
    requires forall i | 0 <= i < |popped| :: Enqueued(popped[i], w.reply(i, popped[i])) == None
    ensures Added(w, popped) == multiset{}
    decreases |popped|
  {
    if popped != [] {
      var n := |popped| - 1;
      assert forall i | 0 <= i < n :: popped[..n][i] == popped[i];
      NothingAdded(w, popped[..n]);
    }
  }
}
