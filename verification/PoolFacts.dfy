/** Every run of the unit pool is described exactly by its sequence of operations. */
module PoolFacts {
  import opened Options
  import opened PoolSpec

  ghost predicate Faithful(s: Pool, ops: seq<Op>)
  {
    Allocated(s, Created(ops)) && Indexed(s, ops) && Announced(s, ops) && Lives(s, ops)
  }

  lemma SlotArithmetic(first: nat, second: nat, k: nat)
    requires second < ENTRY_SIZE && first * ENTRY_SIZE + second == k
    ensures SlotAt(k) == Slot(first, second)
  {
  }

  lemma SlotsInBounds(s: Pool, created: seq<Tag>, k: nat)
    requires Allocated(s, created) && k < |created|
    ensures InBounds(s.blocks, SlotAt(k))
  {
  }

  lemma CreateNew(s: Pool, ops: seq<Op>, tag: Tag)
    requires Faithful(s, ops) && tag !in s.all
    ensures var t := Apply(s, Create(tag));
      && Allocated(t, Created(ops) + [tag])
      && t.all == s.all[tag := SlotAt(|Created(ops)|)]
      && t.existing == s.existing[tag := SlotAt(|Created(ops)|)]
      && t.newly == s.newly + [SlotAt(|Created(ops)|)]
      && InBounds(t.blocks, SlotAt(|Created(ops)|))
      && s.blocks <= t.blocks
      && (forall b | |s.blocks| <= b < |t.blocks| :: t.blocks[b] == NewBlock())
  {
    SlotArithmetic(s.first, s.second, |Created(ops)|);
    var created := Created(ops) + [tag];
    var t := Apply(s, Create(tag));
    forall k | 0 <= k < |created|
      ensures created[k] in t.all && t.all[created[k]] == SlotAt(k)
    {
      if k < |Created(ops)| { assert created[k] == Created(ops)[k]; }
    }
  }

  lemma {:induction false} CreatedGrows(ops: seq<Op>, j: nat)
    requires j <= |ops|
    ensures Created(ops[..j]) <= Created(ops)
  {
    assert ops == ops[..j] + ops[j..];
    CreatedPrefix(ops[..j], ops[j..]);
  }

  lemma KilledWasCreated(ops: seq<Op>, tag: Tag)
    requires Killed(ops, tag)
    ensures tag in Created(ops)
  {
    var j :| 0 <= j < |ops| && ops[j] == MarkDead(tag) && tag in Created(ops[..j]);
    CreatedGrows(ops, j);
  }

  lemma SameLives(ops: seq<Op>, op: Op)
    requires !op.MarkDead?
    ensures forall k: nat :: LifeAt(ops + [op], k) == LifeAt(ops, k)
  {
    CreatedSnoc(ops, op);
    forall k: nat
      ensures LifeAt(ops + [op], k) == LifeAt(ops, k)
    {
      var after := Created(ops + [op]);
      if k < |after| {
        KilledSnoc(ops, op, after[k]);
        if k >= |Created(ops)| && Killed(ops, after[k]) {
          KilledWasCreated(ops, after[k]);
        }
      }
    }
  }

  lemma CreateAgainKeeps(s: Pool, ops: seq<Op>, tag: Tag)
    requires Faithful(s, ops) && tag in s.all
    ensures Faithful(Apply(s, Create(tag)), ops + [Create(tag)])
  {
    var op := Create(tag);
    CreatedSnoc(ops, op);
    SameLives(ops, op);
    FramePrefix(ops, op);
    ExistsAfterCreate(ops, tag);
  }

  lemma CreateNewIndexed(s: Pool, ops: seq<Op>, tag: Tag)
    requires Faithful(s, ops) && tag !in s.all
    ensures Indexed(Apply(s, Create(tag)), ops + [Create(tag)])
  {
    ExistsAfterCreate(ops, tag);
  }

  lemma CreateNewAnnounced(s: Pool, ops: seq<Op>, tag: Tag, t: Pool)
    requires Announced(s, ops) && tag !in Created(ops)
    requires t.newly == s.newly + [SlotAt(|Created(ops)|)]
    ensures Announced(t, ops + [Create(tag)])
  {
    CreateKeepsFrame(ops, tag);
    OneMoreSlot(s.newly, |Created(ops[..FrameStart(ops)])|, |Created(ops)|);
  }

  lemma CreateKeepsFrame(ops: seq<Op>, tag: Tag)
    requires tag !in Created(ops)
    ensures var longer := ops + [Create(tag)];
      && |Created(longer)| == |Created(ops)| + 1
      && Created(longer[..FrameStart(longer)]) == Created(ops[..FrameStart(ops)])
  {
    CreatedSnoc(ops, Create(tag));
    FramePrefix(ops, Create(tag));
  }

  lemma OneMoreSlot(slots: seq<Slot>, start: nat, end: nat)
    requires SlotsBetween(slots, start, end)
    ensures SlotsBetween(slots + [SlotAt(end)], start, end + 1)
  {
  }

  lemma CreateNewKeeps(s: Pool, ops: seq<Op>, tag: Tag)
    requires Faithful(s, ops) && tag !in s.all
    ensures Faithful(Apply(s, Create(tag)), ops + [Create(tag)])
  {
    var t := Apply(s, Create(tag));
    assert Allocated(t, Created(ops + [Create(tag)])) && t.newly == s.newly + [SlotAt(|Created(ops)|)] by {
      CreatedSnoc(ops, Create(tag));
      CreateNew(s, ops, tag);
    }
    CreateNewIndexed(s, ops, tag);
    CreateNewAnnounced(s, ops, tag, t);
    assert Lives(t, ops + [Create(tag)]) by {
      NewBlocksKeepLives(s, ops, tag);
      SameLives(ops, Create(tag));
    }
  }

  lemma ExistsAfterCreate(ops: seq<Op>, tag: Tag)
    ensures forall t :: Exists(ops + [Create(tag)], t) <==> t == tag || Exists(ops, t)
  {
    forall t
      ensures Exists(ops + [Create(tag)], t) <==> t == tag || Exists(ops, t)
    {
      ExistsSnoc(ops, Create(tag), t);
    }
  }

  lemma FramePrefix(ops: seq<Op>, op: Op)
    ensures op != ClearExisting ==>
              (ops + [op])[..FrameStart(ops + [op])] == ops[..FrameStart(ops)]
    ensures op == ClearExisting ==> (ops + [op])[..FrameStart(ops + [op])] == ops + [op]
  {
    CreatedSnoc(ops, op);
  }

  lemma NewBlocksKeepLives(s: Pool, ops: seq<Op>, tag: Tag)
    requires Faithful(s, ops) && tag !in s.all
    ensures Lives(Apply(s, Create(tag)), ops)
  {
    CreateNew(s, ops, tag);
    forall k | k >= |Created(ops)|
      ensures LifeAt(ops, k) == Unset
    {
    }
    MoreBlocks(s.blocks, Apply(s, Create(tag)).blocks, |Created(ops)|, (k: nat) => LifeAt(ops, k));
  }

  /** Blocks added beyond the last allocated slot have nothing but unset units. */
  lemma MoreBlocks(blocks: seq<seq<Unit>>, more: seq<seq<Unit>>, n: nat, life: nat -> Life)
    requires LivesAre(blocks, life) && blocks <= more
    requires forall b | |blocks| <= b < |more| :: more[b] == NewBlock()
    requires |more| > |blocks| ==> n <= |blocks| * ENTRY_SIZE
    requires forall k: nat | k >= n :: life(k) == Unset
    ensures LivesAre(more, life)
  {
    forall b: nat, i: nat | b < |more| && i < |more[b]|
      ensures more[b][i].life == life(b * ENTRY_SIZE + i)
    {
      if b < |blocks| {
        assert more[b] == blocks[b];
      } else {
        assert more[b] == NewBlock();
      }
    }
  }

  lemma MarkDeadKeeps(s: Pool, ops: seq<Op>, tag: Tag)
    requires Faithful(s, ops)
    ensures Faithful(Apply(s, MarkDead(tag)), ops + [MarkDead(tag)])
  {
    var op := MarkDead(tag);
    CreatedSnoc(ops, op);
    FramePrefix(ops, op);
    forall t
      ensures Exists(ops + [op], t) <==> Exists(ops, t) && t != tag
    {
      ExistsSnoc(ops, op, t);
    }
    if tag in s.all {
      MarkKnown(s, ops, tag);
    } else {
      MarkUnknown(s, ops, tag);
    }
  }

  lemma MarkKnown(s: Pool, ops: seq<Op>, tag: Tag)
    requires Faithful(s, ops) && tag in s.all
    ensures InBounds(s.blocks, s.all[tag])
    ensures var t := Apply(s, MarkDead(tag));
      Lives(t, ops + [MarkDead(tag)]) && Allocated(t, Created(ops))
  {
    var n :| 0 <= n < |Created(ops)| && Created(ops)[n] == tag;
    SlotsInBounds(s, Created(ops), n);
    assert SlotAt(n).block * ENTRY_SIZE + SlotAt(n).index == n;
    MarkDeadLives(s, ops, n, SlotAt(n));
  }

  lemma MarkUnknown(s: Pool, ops: seq<Op>, tag: Tag)
    requires Faithful(s, ops) && tag !in s.all
    ensures Lives(s, ops + [MarkDead(tag)])
  {
    CreatedSnoc(ops, MarkDead(tag));
    forall k: nat
      ensures LifeAt(ops + [MarkDead(tag)], k) == LifeAt(ops, k)
    {
      if k < |Created(ops)| {
        KilledSnoc(ops, MarkDead(tag), Created(ops)[k]);
      }
    }
  }

  lemma LifeAfterMark(ops: seq<Op>, n: nat, k: nat)
    requires n < |Created(ops)|
    ensures LifeAt(ops + [MarkDead(Created(ops)[n])], k) == if k == n then Dead else LifeAt(ops, k)
  {
    var op := MarkDead(Created(ops)[n]);
    CreatedSnoc(ops, op);
    CreatedIsDistinct(ops);
    if k < |Created(ops)| {
      KilledSnoc(ops, op, Created(ops)[k]);
      assert k < n ==> Created(ops)[k] != Created(ops)[n];
      assert n < k ==> Created(ops)[n] != Created(ops)[k];
    }
  }

  lemma OneSlotChanges(blocks: seq<seq<Unit>>, slot: Slot, n: nat, life: nat -> Life, life': nat -> Life)
    requires forall b | 0 <= b < |blocks| :: |blocks[b]| == ENTRY_SIZE
    requires LivesAre(blocks, life)
    requires InBounds(blocks, slot) && slot.block * ENTRY_SIZE + slot.index == n
    requires forall k: nat :: life'(k) == if k == n then Dead else life(k)
    ensures LivesAre(SetLife(blocks, slot, Dead), life')
  {
  }

  lemma MarkDeadLives(s: Pool, ops: seq<Op>, n: nat, slot: Slot)
    requires Lives(s, ops) && (forall b | 0 <= b < |s.blocks| :: |s.blocks[b]| == ENTRY_SIZE)
    requires n < |Created(ops)| && InBounds(s.blocks, slot) && slot.block * ENTRY_SIZE + slot.index == n
    ensures Lives(s.(blocks := SetLife(s.blocks, slot, Dead)), ops + [MarkDead(Created(ops)[n])])
  {
    var after := ops + [MarkDead(Created(ops)[n])];
    forall k: nat
      ensures LifeAt(after, k) == if k == n then Dead else LifeAt(ops, k)
    {
      LifeAfterMark(ops, n, k);
    }
    OneSlotChanges(s.blocks, slot, n, (k: nat) => LifeAt(ops, k), (k: nat) => LifeAt(after, k));
  }

  lemma ClearKeeps(s: Pool, ops: seq<Op>)
    requires Faithful(s, ops)
    ensures Faithful(Apply(s, ClearExisting), ops + [ClearExisting])
  {
    var op := ClearExisting;
    CreatedSnoc(ops, op);
    SameLives(ops, op);
    FramePrefix(ops, op);
    forall t
      ensures !Exists(ops + [op], t)
    {
      ExistsSnoc(ops, op, t);
    }
  }

  lemma AddKeeps(s: Pool, ops: seq<Op>, notice: Notice)
    requires Faithful(s, ops)
    ensures Faithful(Apply(s, Add(notice)), ops + [Add(notice)])
  {
    CreatedSnoc(ops, Add(notice));
    FramePrefix(ops, Add(notice));
    AddKeepsIndex(s, ops, notice);
    assert Lives(Apply(s, Add(notice)), ops + [Add(notice)]) by {
      SameLives(ops, Add(notice));
    }
  }

  lemma AddKeepsIndex(s: Pool, ops: seq<Op>, notice: Notice)
    requires Indexed(s, ops)
    ensures Indexed(Apply(s, Add(notice)), ops + [Add(notice)])
  {
    forall t
      ensures Exists(ops + [Add(notice)], t) <==> Exists(ops, t)
    {
      ExistsSnoc(ops, Add(notice), t);
    }
  }

  /** After every sequence of operations. */
  lemma {:induction false} RunIsFaithful(ops: seq<Op>)
    ensures Faithful(Run(ops), ops)
    decreases |ops|
  {
    if ops != [] {
      var front, op := ops[..|ops| - 1], ops[|ops| - 1];
      assert ops == front + [op];
      RunIsFaithful(front);
      match op
      case Create(tag) =>
        if tag in Run(front).all {
          CreateAgainKeeps(Run(front), front, tag);
        } else {
          CreateNewKeeps(Run(front), front, tag);
        }
      case MarkDead(tag) => MarkDeadKeeps(Run(front), front, tag);
      case ClearExisting => ClearKeeps(Run(front), front);
      case Add(notice) => AddKeeps(Run(front), front, notice);
    }
  }

  // ----- the main results -----

  /** Tags and slots are in bijection: the k-th tag to be created has the k-th slot, different tags
      have different slots, the next free index counts the tags, and the blocks are just enough. */
  lemma AllocationIsABijection(ops: seq<Op>)
    ensures var s, created := Run(ops), Created(ops);
      && (forall t :: t in s.all <==> t in created)
      && (forall k | 0 <= k < |created| ::
            created[k] in s.all && s.all[created[k]] == Slot(k / 1000, k % 1000) && InBounds(s.blocks, SlotAt(k)))
      && (forall b | 0 <= b < |s.blocks| :: |s.blocks[b]| == 1000)
      && (forall t, u | t in s.all && u in s.all && s.all[t] == s.all[u] :: t == u)
      && s.first * 1000 + s.second == |created| && s.second < 1000
      && |s.blocks| == s.first + (if s.second > 0 then 1 else 0)
  {
    RunIsFaithful(ops);
    var s, created := Run(ops), Created(ops);
    forall k | 0 <= k < |created|
      ensures created[k] in s.all && s.all[created[k]] == SlotAt(k) && InBounds(s.blocks, SlotAt(k))
    {
      SlotsInBounds(s, created, k);
    }
    forall t, u | t in s.all && u in s.all && s.all[t] == s.all[u]
      ensures t == u
    {
      var j :| 0 <= j < |created| && created[j] == t;
      var k :| 0 <= k < |created| && created[k] == u;
      SlotAtIsInjective(j, k);
    }
  }

  /** A tag's slot never changes, whatever is done afterwards. */
  lemma SlotsAreStable(ops: seq<Op>, more: seq<Op>, tag: Tag)
    requires tag in Run(ops).all
    ensures tag in Run(ops + more).all && Run(ops + more).all[tag] == Run(ops).all[tag]
  {
    RunIsFaithful(ops);
    RunIsFaithful(ops + more);
    CreatedPrefix(ops, more);
    var k :| 0 <= k < |Created(ops)| && Created(ops)[k] == tag;
    assert Created(ops + more)[k] == tag;
  }

  /** The existing index holds exactly the tags created and neither marked dead nor cleared since,
      each with its slot; a slot is dead exactly when its tag was marked dead after its creation,
      also if it has been created again. */
  lemma ExistingAndDead(ops: seq<Op>)
    ensures var s := Run(ops);
      && (forall t :: t in s.existing <==> Exists(ops, t))
      && (forall t | t in s.existing :: t in s.all && s.existing[t] == s.all[t])
      && (forall t | t in s.all :: InBounds(s.blocks, s.all[t]))
      && (forall t | t in s.all ::
            s.blocks[s.all[t].block][s.all[t].index].life == if Killed(ops, t) then Dead else Unset)
  {
    RunIsFaithful(ops);
    var s := Run(ops);
    forall t | t in s.all
      ensures InBounds(s.blocks, s.all[t])
      ensures s.blocks[s.all[t].block][s.all[t].index].life == if Killed(ops, t) then Dead else Unset
    {
      LifeOfTag(s, ops, t);
    }
  }

  lemma LifeOfTag(s: Pool, ops: seq<Op>, tag: Tag)
    requires Allocated(s, Created(ops)) && Lives(s, ops) && tag in s.all
    ensures InBounds(s.blocks, s.all[tag])
    ensures s.blocks[s.all[tag].block][s.all[tag].index].life == if Killed(ops, tag) then Dead else Unset
  {
    var k :| 0 <= k < |Created(ops)| && Created(ops)[k] == tag;
    SlotsInBounds(s, Created(ops), k);
    var slot := SlotAt(k);
    assert slot.block * ENTRY_SIZE + slot.index == k;
    assert s.blocks[slot.block][slot.index].life == LifeAt(ops, k);
  }

  /** The newly-created list holds the slots of the tags first created in this frame, in order. */
  lemma NewlyCreatedList(ops: seq<Op>)
    ensures SlotsBetween(Run(ops).newly, |Created(ops[..FrameStart(ops)])|, |Created(ops)|)
  {
    RunIsFaithful(ops);
  }

  /** A tag is announced once in a whole run, exactly when its slot is allocated, even if it dies or
      vanishes and is created again. */
  lemma AnnouncedOncePerRun(ops: seq<Op>, op: Op)
    requires op != ClearExisting
    ensures Run(ops + [op]).newly ==
      Run(ops).newly + if op.Create? && op.tag !in Created(ops) then [SlotAt(|Created(ops)|)] else []
  {
    RunIsFaithful(ops);
    CreatedSnoc(ops, op);
    var s := Run(ops);
    assert op.Create? ==> (op.tag in s.all <==> op.tag in Created(ops));
    if op.Create? && op.tag !in s.all {
      CreateNew(s, ops, op.tag);
    }
  }

  ghost predicate EventsOf(e: Events, frame: seq<Op>)
  {
    && e.entering == Picked(frame, Entering)
    && e.completed == Picked(frame, Completing)
    && e.damaged == Picked(frame, Damaging)
    && (forall u :: u in e.idled <==> Add(Idled(u, true)) in frame)
  }

  lemma PickedSnoc<T>(frame: seq<Op>, op: Op, f: Op -> Option<T>)
    ensures Picked(frame + [op], f) == Picked(frame, f) + if f(op).Some? then [f(op).value] else []
  {
    assert (frame + [op])[..|frame|] == frame;
  }

  lemma ReportPicks(e: Events, op: Op)
    ensures var e' := if op.Add? then Report(e, op.notice) else e;
      && e'.entering == e.entering + (if Entering(op).Some? then [Entering(op).value] else [])
      && e'.completed == e.completed + (if Completing(op).Some? then [Completing(op).value] else [])
      && e'.damaged == e.damaged + (if Damaging(op).Some? then [Damaging(op).value] else [])
      && (forall u :: u in e'.idled <==> u in e.idled || op == Add(Idled(u, true)))
  {
  }

  lemma EventsSnoc(e: Events, frame: seq<Op>, op: Op)
    requires EventsOf(e, frame)
    ensures EventsOf(if op.Add? then Report(e, op.notice) else e, frame + [op])
  {
    ReportPicks(e, op);
    PickedSnoc(frame, op, Entering);
    PickedSnoc(frame, op, Completing);
    PickedSnoc(frame, op, Damaging);
  }

  lemma ApplyEvents(s: Pool, op: Op)
    requires op != ClearExisting
    ensures Apply(s, op).events == if op.Add? then Report(s.events, op.notice) else s.events
  {
  }

  /** The other event lists hold exactly what was reported in this frame, in order; the idled set
      holds the player's own units among those reported as idle. */
  lemma {:induction false} EventsOfTheFrame(ops: seq<Op>)
    ensures EventsOf(Run(ops).events, ops[FrameStart(ops)..])
    decreases |ops|
  {
    if ops != [] {
      var before, op := ops[..|ops| - 1], ops[|ops| - 1];
      assert ops == before + [op];
      EventsOfTheFrame(before);
      if op != ClearExisting {
        ApplyEvents(Run(before), op);
        EventsSnoc(Run(before).events, before[FrameStart(before)..], op);
        assert ops[FrameStart(before)..] == before[FrameStart(before)..] + [op];
      }
    }
  }
}
