/** The unit pool as the program has it: an object that hands out slots of fixed-size blocks and
    keeps two tag indexes and the list of units created in the current frame. */
module UnitPool {
  import opened Options
  import opened PoolSpec
  import opened PoolFacts

  class Pool {
    var unitPool: seq<seq<Unit>>
    var available: (nat, nat)
    var tagToUnit: map<Tag, Slot>
    var tagToExistingUnit: map<Tag, Slot>
    var unitsNewlyCreated: seq<Slot>
    var unitsEnteringVision: seq<Slot>
    var buildingsConstructed: seq<Slot>
    var unitsIdled: set<Slot>
    var unitsDamaged: seq<Damage>
    ghost var ops: seq<Op>  // the calls made so far

    ghost function Notices(): Events
      reads this
    {
      Events(unitsEnteringVision, buildingsConstructed, unitsIdled, unitsDamaged)
    }

    ghost function Abs(): PoolSpec.Pool
      reads this
    {
      PoolSpec.Pool(unitPool, available.0, available.1, tagToUnit, tagToExistingUnit, unitsNewlyCreated, Notices())
    }

    /** The fields are what the calls made so far lead to. */
    ghost predicate Valid()
      reads this
    {
      Abs() == Run(ops)
    }

    constructor ()
      ensures Valid() && ops == []
    {
      unitPool, available, tagToUnit, tagToExistingUnit, unitsNewlyCreated := [], (0, 0), map[], map[], [];
      unitsEnteringVision, buildingsConstructed, unitsIdled, unitsDamaged := [], [], {}, [];
      ops := [];
    }

    /** Nothing stands for nullptr. */
    method GetUnit(tag: Tag) returns (unit: Option<Slot>)
      requires Valid()
      ensures unit.Some? <==> tag in Created(ops)
      ensures unit.Some? ==> exists k: nat :: k < |Created(ops)| && Created(ops)[k] == tag && unit.value == SlotAt(k)
    {
      RunIsFaithful(ops);
      unit := if tag in tagToUnit then Some(tagToUnit[tag]) else None;
      if unit.Some? {
        ghost var k :| 0 <= k < |Created(ops)| && Created(ops)[k] == tag;
        assert unit.value == SlotAt(k);
      }
    }

    method GetExistingUnit(tag: Tag) returns (unit: Option<Slot>)
      requires Valid()
      ensures unit.Some? <==> Exists(ops, tag)
      ensures unit.Some? ==> tag in tagToUnit && unit.value == tagToUnit[tag]
    {
      RunIsFaithful(ops);
      unit := if tag in tagToExistingUnit then Some(tagToExistingUnit[tag]) else None;
    }

    method IncrementIndex()
      modifies `available
      ensures old(available).1 < ENTRY_SIZE ==>
        && available.0 * ENTRY_SIZE + available.1 == old(available).0 * ENTRY_SIZE + old(available).1 + 1
        && available.1 < ENTRY_SIZE
    {
      available := (available.0, available.1 + 1);
      if available.1 == ENTRY_SIZE {
        available := (available.0 + 1, 0);
      }
    }

    /** The branch of CreateUnit for a tag that has no unit yet. */
    method Allocate(tag: Tag) returns (unit: Slot)
      requires Valid() && tag !in tagToUnit
      modifies this
      ensures Abs() == Apply(old(Abs()), Create(tag)) && ops == old(ops)
      ensures unit == Slot(old(available).0, old(available).1)
    {
      IndexIsSmall(ops);
      if |unitPool| == 0 || |unitPool| == available.0 {
        unitPool := unitPool + [NewBlock()];
      }
      unit := Slot(available.0, available.1);
      tagToUnit := tagToUnit[tag := unit];
      tagToExistingUnit := tagToExistingUnit[tag := unit];
      unitsNewlyCreated := unitsNewlyCreated + [unit];
      IncrementIndex();
    }

    method CreateUnit(tag: Tag) returns (unit: Slot)
      requires Valid()
      modifies this
      ensures Valid() && ops == old(ops) + [Create(tag)]
      ensures tag in tagToUnit && unit == tagToUnit[tag] && InBounds(unitPool, unit)
      ensures tag in old(tagToUnit) ==> unit == old(tagToUnit)[tag] && unitsNewlyCreated == old(unitsNewlyCreated)
      ensures tag !in old(tagToUnit) ==> unit == SlotAt(|Created(old(ops))|) && unit !in old(tagToUnit).Values
                                         && unitsNewlyCreated == old(unitsNewlyCreated) + [unit]
    {
      HandedOut(ops, tag);
      if tag in tagToUnit {
        unit := tagToUnit[tag];
        tagToExistingUnit := tagToExistingUnit[tag := unit];
      } else {
        FreshSlot(ops);
        NextSlot(ops);
        unit := Allocate(tag);
      }
      ops := ops + [Create(tag)];
    }

    method MarkDead(tag: Tag)
      requires Valid()
      modifies this
      ensures Valid() && ops == old(ops) + [PoolSpec.MarkDead(tag)]
      ensures tagToUnit == old(tagToUnit) && tagToExistingUnit == old(tagToExistingUnit) - {tag}
    {
      Marked(ops, tag);
      if tag in tagToUnit {
        unitPool := SetLife(unitPool, tagToUnit[tag], Dead);
        tagToExistingUnit := tagToExistingUnit - {tag};
      }
      ops := ops + [PoolSpec.MarkDead(tag)];
    }

    method ClearExisting()
      requires Valid()
      modifies this
      ensures Valid() && ops == old(ops) + [PoolSpec.ClearExisting]
      ensures tagToExistingUnit == map[] && unitsNewlyCreated == [] && Notices() == NO_EVENTS
      ensures tagToUnit == old(tagToUnit) && unitPool == old(unitPool)
    {
      CreatedSnoc(ops, PoolSpec.ClearExisting);
      tagToExistingUnit := map[];
      unitsNewlyCreated := [];
      unitsEnteringVision := [];
      buildingsConstructed := [];
      unitsIdled := {};
      unitsDamaged := [];
      ops := ops + [PoolSpec.ClearExisting];
    }

    method AddUnitEnteredVision(u: Slot)
      requires Valid()
      modifies this
      ensures Valid() && ops == old(ops) + [Add(EnteredVision(u))]
    {
      unitsEnteringVision := unitsEnteringVision + [u];
      Reported(EnteredVision(u));
    }

    method AddCompletedBuilding(u: Slot)
      requires Valid()
      modifies this
      ensures Valid() && ops == old(ops) + [Add(Completed(u))]
    {
      buildingsConstructed := buildingsConstructed + [u];
      Reported(Completed(u));
    }

    /** Only the player's own units are kept. */
    method AddUnitIdled(u: Slot, own: bool)
      requires Valid()
      modifies this
      ensures Valid() && ops == old(ops) + [Add(Idled(u, own))]
    {
      if own {
        unitsIdled := unitsIdled + {u};
      }
      Reported(Idled(u, own));
    }

    method AddUnitDamaged(u: Slot, health: real, shield: real)
      requires Valid()
      modifies this
      ensures Valid() && ops == old(ops) + [Add(Damaged(Damage(u, health, shield)))]
    {
      unitsDamaged := unitsDamaged + [Damage(u, health, shield)];
      Reported(Damaged(Damage(u, health, shield)));
    }

    ghost method Reported(notice: Notice)
      requires Abs() == Apply(Run(ops), Add(notice))
      modifies `ops
      ensures Valid() && ops == old(ops) + [Add(notice)]
    {
      CreatedSnoc(ops, Add(notice));
      ops := ops + [Add(notice)];
    }

    /** The lists that are handed out hold what was reported in this frame. */
    method GetUnitsEnteringVision() returns (units: seq<Slot>)
      requires Valid()
      ensures units == Picked(ops[FrameStart(ops)..], Entering)
    {
      EventsOfTheFrame(ops);
      units := unitsEnteringVision;
    }

    method GetIdledUnits() returns (units: set<Slot>)
      requires Valid()
      ensures forall u :: u in units <==> Add(Idled(u, true)) in ops[FrameStart(ops)..]
    {
      EventsOfTheFrame(ops);
      units := unitsIdled;
    }

    method UnitExists(tag: Tag) returns (r: bool)
      requires Valid()
      ensures r <==> Exists(ops, tag)
    {
      RunIsFaithful(ops);
      r := tag in tagToExistingUnit;
    }
  }

  /** The next slot has not been handed out. */
  lemma FreshSlot(ops: seq<Op>)
    ensures SlotAt(|Created(ops)|) !in Run(ops).all.Values
  {
    AllocationIsABijection(ops);
    var n := |Created(ops)|;
    forall t | t in Run(ops).all
      ensures Run(ops).all[t] != SlotAt(n)
    {
      var k :| 0 <= k < n && Created(ops)[k] == t;
      if SlotAt(k) == SlotAt(n) { SlotAtIsInjective(k, n); }
    }
  }

  lemma NextSlot(ops: seq<Op>)
    ensures SlotAt(|Created(ops)|) == Slot(Run(ops).first, Run(ops).second)
  {
    RunIsFaithful(ops);
    SlotArithmetic(Run(ops).first, Run(ops).second, |Created(ops)|);
  }

  lemma IndexIsSmall(ops: seq<Op>)
    ensures Run(ops).second < ENTRY_SIZE
  {
    RunIsFaithful(ops);
  }

  lemma Marked(ops: seq<Op>, tag: Tag)
    ensures var s := Run(ops);
      && Run(ops + [PoolSpec.MarkDead(tag)]) == Apply(s, PoolSpec.MarkDead(tag))
      && (if tag in s.all then InBounds(s.blocks, s.all[tag]) else tag !in s.existing)
  {
    CreatedSnoc(ops, PoolSpec.MarkDead(tag));
    ExistingAndDead(ops);
  }

  lemma HandedOut(ops: seq<Op>, tag: Tag)
    ensures var t := Run(ops + [Create(tag)]);
      && t == Apply(Run(ops), Create(tag))
      && tag in t.all && InBounds(t.blocks, t.all[tag])
  {
    CreatedSnoc(ops, Create(tag));
    ExistingAndDead(ops + [Create(tag)]);
    RunIsFaithful(ops);
  }
}
