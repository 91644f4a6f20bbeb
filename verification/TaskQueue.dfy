/** Tasks, their priority order, and the priority queue that holds them as a binary heap. */
module TaskQueue {

  datatype Action =
    | Harvest | Build | Train | BasicScout | OrbitScout | Defend | Attack | Repair | Move | Upgrade | Transfer

  datatype Agent = ResourceAgent | DefenceAgent | ScoutAgent | AttackAgent

  /** position and payload stand for the remaining fields; the order does not look at them, and only
      position takes part in operator==. */
  datatype Task = Task(action: Action, source: Agent, priority: int, position: int, payload: int)

  /** The enumeration value of a source agent. */
  function Ordinal(a: Agent): nat
  {
    match a
    case ResourceAgent => 0
    case DefenceAgent => 1
    case ScoutAgent => 2
    case AttackAgent => 3
  }

  /** Task::operator<: by priority, then by source in reverse. */
  predicate Less(l: Task, r: Task)
  {
    if l.priority == r.priority then Ordinal(l.source) > Ordinal(r.source) else l.priority < r.priority
  }

  /** Task::operator== */
  predicate Same(l: Task, r: Task)
  {
    l.action == r.action && l.priority == r.priority && l.position == r.position
  }

  /** The order a heap needs: no task is below itself, being below is transitive, and so is not being
      below. */
  lemma LessIsStrictWeakOrder(a: Task, b: Task, c: Task)
    ensures !Less(a, a)
    ensures Less(a, b) ==> !Less(b, a)
    ensures Less(a, b) && Less(b, c) ==> Less(a, c)
    ensures !Less(a, b) && !Less(b, c) ==> !Less(a, c)
    ensures !Less(a, b) && !Less(b, a) <==> a.priority == b.priority && a.source == b.source
  {
  }

  /** The agents in the order in which their tasks are preferred. */
  predicate StandsBefore(a: Agent, b: Agent)
  {
    || (a == ResourceAgent && (b == DefenceAgent || b == ScoutAgent || b == AttackAgent))
    || (a == DefenceAgent && (b == ScoutAgent || b == AttackAgent))
    || (a == ScoutAgent && b == AttackAgent)
  }

  /** l is to be done before r, or neither before the other: a higher priority comes first, and at
      equal priority the agent that stands before. */
  predicate Precedes(l: Task, r: Task)
  {
    l.priority >= r.priority && (l.priority == r.priority ==> !StandsBefore(r.source, l.source))
  }

  lemma PrecedesExactly(l: Task, r: Task)
    ensures Precedes(l, r) <==> !Less(l, r)
  {
  }

  // ----- heaps -----

  function Parent(i: int): int
    requires i > 0
  {
    (i - 1) / 2
  }

  ghost predicate IsHeap(c: seq<Task>)
  {
    forall i | 0 < i < |c| :: !Less(c[Parent(i)], c[i])
  }

  /** The front of a heap is a maximum. */
  lemma {:induction false} FrontIsMaximum(c: seq<Task>, i: nat)
    requires IsHeap(c) && i < |c|
    ensures !Less(c[0], c[i])
    decreases i
  {
    if i > 0 {
      FrontIsMaximum(c, Parent(i));
    }
  }

  lemma SwapKeepsContents(c: seq<Task>, i: nat, j: nat)
    requires i < |c| && j < |c|
    ensures multiset(Swapped(c, i, j)) == multiset(c)
  {
  }

  /** A heap but for the pair of i and its parent; i's children are fine below i's parent. */
  ghost predicate HeapExceptAbove(c: seq<Task>, i: nat)
  {
    && (forall j | 0 < j < |c| && j != i :: !Less(c[Parent(j)], c[j]))
    && (forall j | 0 < j < |c| && Parent(j) == i && i > 0 :: !Less(c[Parent(i)], c[j]))
  }

  /** A heap from index lo on but for the pairs of i and its children; those are fine below i's
      parent. */
  ghost predicate HeapExceptBelow(c: seq<Task>, lo: nat, i: nat)
  {
    && (forall j | 0 < j < |c| && lo <= Parent(j) && Parent(j) != i :: !Less(c[Parent(j)], c[j]))
    && (forall j | 0 < j < |c| && Parent(j) == i && i > 0 && lo <= Parent(i) :: !Less(c[Parent(i)], c[j]))
  }

  ghost predicate HeapFrom(c: seq<Task>, lo: nat)
  {
    forall j | 0 < j < |c| && lo <= Parent(j) :: !Less(c[Parent(j)], c[j])
  }

  lemma ChildrenOf(i: nat, j: nat)
    requires j > 0
    ensures Parent(j) == i <==> j == 2 * i + 1 || j == 2 * i + 2
    ensures Parent(j) < j
  {
  }

  function Swapped(c: seq<Task>, i: int, j: int): seq<Task>
    requires 0 <= i < |c| && 0 <= j < |c|
  {
    c[i := c[j]][j := c[i]]
  }

  /** Swapping a task with its smaller parent moves the gap up. */
  lemma SiftUpStep(c: seq<Task>, i: int)
    requires 0 < i < |c| && HeapExceptAbove(c, i) && Less(c[Parent(i)], c[i])
    ensures HeapExceptAbove(Swapped(c, Parent(i), i), Parent(i))
  {
    var p := Parent(i);
    var d := Swapped(c, p, i);
    forall j | 0 < j < |d| && j != p
      ensures !Less(d[Parent(j)], d[j])
    {
      ChildrenOf(p, j);
      ChildrenOf(i, j);
    }
    forall j | 0 < j < |d| && Parent(j) == p && p > 0
      ensures !Less(d[Parent(p)], d[j])
    {
      ChildrenOf(p, j);
      ChildrenOf(Parent(p), p);
    }
  }

  /** The larger of the children of i. */
  ghost predicate IsLargerChild(c: seq<Task>, i: nat, child: nat)
  {
    && child < |c| && (child == 2 * i + 1 || child == 2 * i + 2)
    && (forall j | i < j < |c| && (j == 2 * i + 1 || j == 2 * i + 2) :: !Less(c[child], c[j]))
  }

  lemma NotBelowChildren(c: seq<Task>, i: nat, child: nat)
    requires i < |c| && IsLargerChild(c, i, child) && !Less(c[i], c[child])
    ensures forall j | i < j < |c| && (j == 2 * i + 1 || j == 2 * i + 2) :: !Less(c[i], c[j])
  {
  }

  /** Swapping a task with its larger child moves the gap down. */
  lemma SiftDownStep(c: seq<Task>, lo: nat, i: nat, child: nat)
    requires lo <= i < |c| && HeapExceptBelow(c, lo, i)
    requires IsLargerChild(c, i, child) && Less(c[i], c[child])
    ensures HeapExceptBelow(Swapped(c, i, child), lo, child)
  {
    var d := Swapped(c, i, child);
    ChildrenOf(i, child);
    forall j | 0 < j < |d| && lo <= Parent(j) && Parent(j) != child
      ensures !Less(d[Parent(j)], d[j])
    {
      ChildrenOf(i, j);
      ChildrenOf(child, j);
    }
    forall j | 0 < j < |d| && Parent(j) == child
      ensures !Less(d[Parent(child)], d[j])
    {
      ChildrenOf(child, j);
    }
  }

  /** A task that is not below any of its children closes the gap. */
  lemma SiftDownEnds(c: seq<Task>, lo: nat, i: nat)
    requires lo <= i < |c| && HeapExceptBelow(c, lo, i)
    requires forall j | i < j < |c| && (j == 2 * i + 1 || j == 2 * i + 2) :: !Less(c[i], c[j])
    ensures HeapFrom(c, lo)
  {
    forall j | 0 < j < |c| && lo <= Parent(j)
      ensures !Less(c[Parent(j)], c[j])
    {
      ChildrenOf(i, j);
    }
  }

  class PriorityQueue {
    var c: seq<Task>

    constructor ()
      ensures c == []
    {
      c := [];
    }

    method Empty() returns (r: bool)
      ensures r <==> c == []
    {
      r := |c| == 0;
    }

    method SiftUp(start: nat)
      requires start < |c| && HeapExceptAbove(c, start)
      modifies this
      ensures IsHeap(c) && multiset(c) == multiset(old(c)) && |c| == |old(c)|
    {
      var i: int := start;
      while i > 0 && Less(c[Parent(i)], c[i])
        invariant 0 <= i < |c| == |old(c)|
        invariant HeapExceptAbove(c, i)
        invariant multiset(c) == multiset(old(c))
        decreases i
      {
        var p := Parent(i);
        SwapKeepsContents(c, p, i);
        SiftUpStep(c, i);
        c := Swapped(c, p, i);
        i := p;
      }
    }

    /** The larger of the children of i, the left one if they are equal. */
    method LargerChild(i: nat) returns (child: nat)
      requires 2 * i + 1 < |c|
      ensures IsLargerChild(c, i, child)
    {
      child := 2 * i + 1;
      if child + 1 < |c| && Less(c[child], c[child + 1]) {
        child := child + 1;
      }
    }

    method SiftDown(start: nat, lo: nat)
      requires lo <= start < |c| && HeapExceptBelow(c, lo, start)
      modifies this
      ensures HeapFrom(c, lo) && multiset(c) == multiset(old(c)) && |c| == |old(c)|
    {
      var i := start;
      while 2 * i + 1 < |c|
        invariant lo <= i < |c| == |old(c)|
        invariant HeapExceptBelow(c, lo, i)
        invariant multiset(c) == multiset(old(c))
        decreases |c| - i
      {
        var child := LargerChild(i);
        if !Less(c[i], c[child]) {
          NotBelowChildren(c, i, child);
          SiftDownEnds(c, lo, i);
          return;
        }
        SwapKeepsContents(c, i, child);
        SiftDownStep(c, lo, i, child);
        c := Swapped(c, i, child);
        i := child;
      }
      SiftDownEnds(c, lo, i);
    }

    method Push(x: Task)
      requires IsHeap(c)
      modifies this
      ensures IsHeap(c) && multiset(c) == multiset(old(c)) + multiset{x}
    {
      c := c + [x];
      SiftUp(|c| - 1);
    }

    method Pop() returns (t: Task)
      requires IsHeap(c) && c != []
      modifies this
      ensures IsHeap(c) && multiset(c) == multiset(old(c)) - multiset{t} && |c| == |old(c)| - 1
      ensures t in old(c) && forall i | 0 <= i < |old(c)| :: !Less(t, old(c)[i])
      ensures forall i | 0 <= i < |old(c)| :: Precedes(t, old(c)[i])
    {
      t := c[0];
      forall i | 0 <= i < |c|
        ensures !Less(t, c[i]) && Precedes(t, c[i])
      {
        FrontIsMaximum(c, i);
        PrecedesExactly(t, c[i]);
      }
      var last := c[|c| - 1];
      assert c == [c[0]] + c[1..];
      if |c| == 1 {
        c := [];
      } else {
        ghost var before := c;
        c := c[0 := last][..|c| - 1];
        RemoveFront(before);
        SiftDown(0, 0);
      }
    }

    /** The first task that is the same as x, if any, is taken out, and the heap is rebuilt. */
    method Remove(x: Task) returns (removed: bool)
      requires IsHeap(c)
      modifies this
      ensures IsHeap(c)
      ensures removed <==> exists i | 0 <= i < |old(c)| :: Same(old(c)[i], x)
      ensures !removed ==> c == old(c)
      ensures removed ==> exists i | 0 <= i < |old(c)| ::
                && Same(old(c)[i], x)
                && (forall j | 0 <= j < i :: !Same(old(c)[j], x))
                && multiset(c) == multiset(old(c)) - multiset{old(c)[i]}
      ensures !removed ==> forall y | y in old(c) ::
                y.action != x.action || y.priority != x.priority || y.position != x.position
      ensures removed ==> exists y | y in old(c) ::
                && y.action == x.action && y.priority == x.priority && y.position == x.position
                && multiset(c) == multiset(old(c)) - multiset{y}
    {
      var it := 0;
      while it < |c| && !Same(c[it], x)
        invariant 0 <= it <= |c|
        invariant forall j | 0 <= j < it :: !Same(c[j], x)
      {
        it := it + 1;
      }
      if it == |c| {
        return false;
      }
      assert c == c[..it] + [c[it]] + c[it + 1..];
      assert c[it] in old(c);
      c := c[..it] + c[it + 1..];
      assert multiset(c) == multiset(old(c)) - multiset{old(c)[it]};
      MakeHeap();
      removed := true;
    }

    /** std::make_heap */
    method MakeHeap()
      modifies this
      ensures IsHeap(c) && multiset(c) == multiset(old(c))
    {
      var lo := |c|;
      while lo > 0
        invariant 0 <= lo <= |c| == |old(c)|
        invariant HeapFrom(c, lo) && multiset(c) == multiset(old(c))
      {
        lo := lo - 1;
        SiftDown(lo, lo);
      }
    }
  }

  lemma RemoveFront(c: seq<Task>)
    requires IsHeap(c) && |c| > 1
    ensures var d := c[0 := c[|c| - 1]][..|c| - 1];
      HeapExceptBelow(d, 0, 0) && multiset(d) == multiset(c) - multiset{c[0]}
  {
    var n := |c| - 1;
    var d := c[0 := c[n]][..n];
    assert c == [c[0]] + c[1..n] + [c[n]];
    assert d == [c[n]] + c[1..n];
  }
}
