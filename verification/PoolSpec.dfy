/** The unit pool over whole runs: what any sequence of CreateUnit, MarkDead and ClearExisting leaves,
    stated from the sequence alone. */
module PoolSpec {
  import opened Options

  type Tag = int

  /** A unit pointer: a block of the pool and an index into it. */
  datatype Slot = Slot(block: nat, index: nat)

  /** Whether is_alive has been written; the constructor of a unit leaves it unset. */
  datatype Life = Unset | Dead

  datatype Unit = Unit(life: Life)

  const ENTRY_SIZE: nat := 1000

  datatype Damage = Damage(unit: Slot, health: real, shields: real)

  /** What the callers report about units: one per Add method. */
  datatype Notice =
    | EnteredVision(unit: Slot)
    | Completed(unit: Slot)
    | Idled(unit: Slot, own: bool)
    | Damaged(damage: Damage)

  /** The event lists that only callers fill. */
  datatype Events = Events(entering: seq<Slot>, completed: seq<Slot>, idled: set<Slot>, damaged: seq<Damage>)

  const NO_EVENTS := Events([], [], {}, [])

  datatype Pool = Pool(
    blocks: seq<seq<Unit>>,
    first: nat,
    second: nat,
    all: map<Tag, Slot>,
    existing: map<Tag, Slot>,
    newly: seq<Slot>,
    events: Events)

  const EMPTY := Pool([], 0, 0, map[], map[], [], NO_EVENTS)

  datatype Op = Create(tag: Tag) | MarkDead(tag: Tag) | ClearExisting | Add(notice: Notice)

  predicate InBounds(blocks: seq<seq<Unit>>, slot: Slot)
  {
    slot.block < |blocks| && slot.index < |blocks[slot.block]|
  }

  function SetLife(blocks: seq<seq<Unit>>, slot: Slot, life: Life): seq<seq<Unit>>
    requires InBounds(blocks, slot)
  {
    blocks[slot.block := blocks[slot.block][slot.index := Unit(life)]]
  }

  function NewBlock(): (b: seq<Unit>)
    ensures |b| == ENTRY_SIZE
  {
    seq(ENTRY_SIZE, _ => Unit(Unset))
  }

  function Increment(s: Pool): Pool
  {
    if s.second + 1 == ENTRY_SIZE then s.(first := s.first + 1, second := 0)
    else s.(second := s.second + 1)
  }

  function Report(e: Events, n: Notice): Events
  {
    match n
    case EnteredVision(u) => e.(entering := e.entering + [u])
    case Completed(u) => e.(completed := e.completed + [u])
    case Idled(u, own) => if own then e.(idled := e.idled + {u}) else e
    case Damaged(d) => e.(damaged := e.damaged + [d])
  }

  function Apply(s: Pool, op: Op): Pool
  {
    match op
    case Create(tag) =>
      if tag in s.all then s.(existing := s.existing[tag := s.all[tag]])
      else
        var slot := Slot(s.first, s.second);
        Increment(s.(
          blocks := if |s.blocks| == 0 || |s.blocks| == s.first then s.blocks + [NewBlock()] else s.blocks,
          all := s.all[tag := slot],
          existing := s.existing[tag := slot],
          newly := s.newly + [slot]))
    case MarkDead(tag) =>
      if tag in s.all && InBounds(s.blocks, s.all[tag]) then
        s.(blocks := SetLife(s.blocks, s.all[tag], Dead), existing := s.existing - {tag})
      else s
    case ClearExisting => s.(existing := map[], newly := [], events := NO_EVENTS)
    case Add(notice) => s.(events := Report(s.events, notice))
  }

  function Run(ops: seq<Op>): Pool
    decreases |ops|
  {
    if ops == [] then EMPTY else Apply(Run(ops[..|ops| - 1]), ops[|ops| - 1])
  }

  // ----- what a run means -----

  /** The tags ever created, in the order of their first creation. */
  function Created(ops: seq<Op>): seq<Tag>
    decreases |ops|
  {
    if ops == [] then []
    else
      var before, op := Created(ops[..|ops| - 1]), ops[|ops| - 1];
      if op.Create? && op.tag !in before then before + [op.tag] else before
  }

  /** The k-th slot: blocks are filled one after the other. */
  function SlotAt(k: nat): Slot { Slot(k / ENTRY_SIZE, k % ENTRY_SIZE) }

  /** Created, and neither marked dead nor cleared since. */
  ghost predicate Exists(ops: seq<Op>, tag: Tag)
  {
    exists i | 0 <= i < |ops| :: ops[i] == Create(tag) && Undisturbed(ops, i, tag)
  }

  ghost predicate Undisturbed(ops: seq<Op>, i: int, tag: Tag)
  {
    forall j | 0 <= i < j < |ops| :: ops[j] != MarkDead(tag) && ops[j] != ClearExisting
  }

  /** Marked dead at some time after it was created. */
  ghost predicate Killed(ops: seq<Op>, tag: Tag)
  {
    exists j | 0 <= j < |ops| :: ops[j] == MarkDead(tag) && tag in Created(ops[..j])
  }

  /** How many operations come before the current frame, which begins after the last clear. */
  function FrameStart(ops: seq<Op>): (n: nat)
    ensures n <= |ops|
    decreases |ops|
  {
    if ops == [] then 0
    else if ops[|ops| - 1] == ClearExisting then |ops|
    else FrameStart(ops[..|ops| - 1])
  }

  /** What f picks out of a sequence of operations, in order. */
  function Picked<T>(ops: seq<Op>, f: Op -> Option<T>): seq<T>
    decreases |ops|
  {
    if ops == [] then []
    else
      var before, x := Picked(ops[..|ops| - 1], f), f(ops[|ops| - 1]);
      if x.Some? then before + [x.value] else before
  }

  function Entering(op: Op): Option<Slot>
  {
    if op.Add? && op.notice.EnteredVision? then Some(op.notice.unit) else None
  }

  function Completing(op: Op): Option<Slot>
  {
    if op.Add? && op.notice.Completed? then Some(op.notice.unit) else None
  }

  function Damaging(op: Op): Option<Damage>
  {
    if op.Add? && op.notice.Damaged? then Some(op.notice.damage) else None
  }

  // ----- lemmas about runs one operation longer -----

  lemma CreatedSnoc(ops: seq<Op>, op: Op)
    ensures Created(ops + [op]) ==
      if op.Create? && op.tag !in Created(ops) then Created(ops) + [op.tag] else Created(ops)
    ensures Run(ops + [op]) == Apply(Run(ops), op)
    ensures FrameStart(ops + [op]) == if op == ClearExisting then |ops| + 1 else FrameStart(ops)
  {
    assert (ops + [op])[..|ops|] == ops;
  }

  lemma ExistsSnoc(ops: seq<Op>, op: Op, tag: Tag)
    ensures Exists(ops + [op], tag) <==>
              op == Create(tag) || (Exists(ops, tag) && op != MarkDead(tag) && op != ClearExisting)
  {
    var after := ops + [op];
    if op == Create(tag) {
      assert after[|ops|] == Create(tag) && Undisturbed(after, |ops|, tag);
    } else if Exists(after, tag) {
      var i :| 0 <= i < |after| && after[i] == Create(tag) && Undisturbed(after, i, tag);
      assert ops[i] == Create(tag);
      assert after[|ops|] == op;
      assert Undisturbed(ops, i, tag) by {
        assert forall j | i < j < |ops| :: ops[j] == after[j];
      }
    } else if Exists(ops, tag) {
      var i :| 0 <= i < |ops| && ops[i] == Create(tag) && Undisturbed(ops, i, tag);
      assert after[i] == Create(tag);
      if op != MarkDead(tag) && op != ClearExisting {
        assert Undisturbed(after, i, tag);
      }
    }
  }

  lemma KilledSnoc(ops: seq<Op>, op: Op, tag: Tag)
    ensures Killed(ops + [op], tag) <==> Killed(ops, tag) || (op == MarkDead(tag) && tag in Created(ops))
  {
    var after := ops + [op];
    assert after[..|ops|] == ops;
    if Killed(ops, tag) {
      var j :| 0 <= j < |ops| && ops[j] == MarkDead(tag) && tag in Created(ops[..j]);
      assert after[j] == MarkDead(tag) && after[..j] == ops[..j];
    }
    if op == MarkDead(tag) && tag in Created(ops) {
      assert after[|ops|] == MarkDead(tag);
    }
    if Killed(after, tag) {
      var j :| 0 <= j < |after| && after[j] == MarkDead(tag) && tag in Created(after[..j]);
      assert j < |ops| ==> ops[j] == MarkDead(tag) && after[..j] == ops[..j];
    }
  }

  lemma {:induction false} CreatedPrefix(ops: seq<Op>, more: seq<Op>)
    ensures Created(ops) <= Created(ops + more)
    decreases |more|
  {
    if more == [] {
      assert ops + more == ops;
    } else {
      var front, last := more[..|more| - 1], more[|more| - 1];
      assert ops + more == (ops + front) + [last];
      CreatedSnoc(ops + front, last);
      CreatedPrefix(ops, front);
    }
  }

  lemma {:induction false} CreatedIsDistinct(ops: seq<Op>)
    ensures forall j, k | 0 <= j < k < |Created(ops)| :: Created(ops)[j] != Created(ops)[k]
    decreases |ops|
  {
    if ops != [] {
      CreatedIsDistinct(ops[..|ops| - 1]);
    }
  }

  lemma SlotAtIsInjective(j: nat, k: nat)
    requires SlotAt(j) == SlotAt(k)
    ensures j == k
  {
  }

  // ----- the invariant of a run -----

  ghost predicate Allocated(s: Pool, created: seq<Tag>)
  {
    && s.second < ENTRY_SIZE
    && s.first * ENTRY_SIZE + s.second == |created|
    && |s.blocks| == s.first + (if s.second > 0 then 1 else 0)
    && (forall b | 0 <= b < |s.blocks| :: |s.blocks[b]| == ENTRY_SIZE)
    && (forall t :: t in s.all <==> t in created)
    && (forall k | 0 <= k < |created| :: created[k] in s.all && s.all[created[k]] == SlotAt(k))
  }

  ghost predicate Indexed(s: Pool, ops: seq<Op>)
  {
    && (forall t :: t in s.existing <==> Exists(ops, t))
    && (forall t | t in s.existing :: t in s.all && s.existing[t] == s.all[t])
  }

  /** The slots from one count of tags up to another, in order. */
  ghost predicate SlotsBetween(slots: seq<Slot>, start: nat, end: nat)
  {
    start + |slots| == end && forall k | 0 <= k < |slots| :: slots[k] == SlotAt(start + k)
  }

  ghost predicate Announced(s: Pool, ops: seq<Op>)
  {
    SlotsBetween(s.newly, |Created(ops[..FrameStart(ops)])|, |Created(ops)|)
  }

  /** The life of the k-th slot. */
  ghost function LifeAt(ops: seq<Op>, k: nat): Life
  {
    if k < |Created(ops)| && Killed(ops, Created(ops)[k]) then Dead else Unset
  }

  ghost predicate LivesAre(blocks: seq<seq<Unit>>, life: nat -> Life)
  {
    forall b, i | 0 <= b < |blocks| && 0 <= i < |blocks[b]| :: blocks[b][i].life == life(b * ENTRY_SIZE + i)
  }

  ghost predicate Lives(s: Pool, ops: seq<Op>)
  {
    LivesAre(s.blocks, (k: nat) => LifeAt(ops, k))
  }
}
