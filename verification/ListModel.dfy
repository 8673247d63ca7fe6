/** The list as its callers see it: a sequence of pointers, bounded by `maxSize`, together
    with the number of recycled nodes waiting on the prealloc chain.

    `Step` says what one call does to that state and what it answers. It is the reference the
    linked structure of `SkyList` is proved against; the lemmas below it are about whole runs
    of calls, with any outcome of every allocation. */
module ListModel {
  import opened Prelude

  /** A `void *` payload, compared by address only. */
  type Ptr = nat

  const NULL: Ptr := 0

  newtype uint32 = x: int | 0 <= x < 0x1_0000_0000

  /** `spare` counts the nodes on the prealloc chain. */
  datatype State = State(items: seq<Ptr>, spare: nat, maxSize: nat)
  {
    predicate Bounded() {
      |items| <= maxSize
    }

    /** Nodes obtained from the allocator and not yet given back. */
    function Allocated(): nat {
      |items| + spare
    }

    predicate CanLink(memory: bool) {
      |items| < maxSize && (spare > 0 || memory)
    }
  }

  function Empty(maxSize: nat): State {
    State([], 0, maxSize)
  }

  /** One call. `memory` is what `sky_mem_alloc` would do if it were asked. */
  datatype Op =
    | PushFront(data: Ptr, memory: bool)
    | PushBack(data: Ptr, memory: bool)
    | Insert(index: uint32, data: Ptr, memory: bool)
    | PopFront
    | PopBack
    | RemoveIf(cmp: Ptr -> bool)
    | Remove(target: Ptr)
    | Clear
    | Front
    | Back
    | GetAt(index: uint32)
    | FindIf(cmp: Ptr -> bool)
    | Contain(target: Ptr)

  datatype Answer = Nothing | Flag(ok: bool) | Data(data: Ptr)

  predicate IsPush(op: Op) {
    op.PushFront? || op.PushBack? || op.Insert?
  }

  /** The position of the first element accepted by `cmp`, or the length if there is none. */
  function FirstMatch(items: seq<Ptr>, cmp: Ptr -> bool): (k: nat)
    ensures k <= |items|
    ensures forall i :: 0 <= i < k ==> !cmp(items[i])
    ensures k < |items| ==> cmp(items[k])
  {
    if items == [] then 0
    else if cmp(items[0]) then 0
    else FirstMatch(items[1..], cmp) + 1
  }

  /** Any index with the property of the first match is the first match. */
  lemma FirstMatchIsUnique(items: seq<Ptr>, cmp: Ptr -> bool, k: nat)
    requires k <= |items|
    requires forall i :: 0 <= i < k ==> !cmp(items[i])
    requires k < |items| ==> cmp(items[k])
    ensures FirstMatch(items, cmp) == k
  {
  }

  function SamePtr(p: Ptr): Ptr -> bool {
    (q: Ptr) => q == p
  }

  function Link(s: State, k: nat, data: Ptr, memory: bool): State
    requires k <= |s.items|
  {
    if s.CanLink(memory) then
      State(s.items[..k] + [data] + s.items[k..], if s.spare > 0 then s.spare - 1 else 0, s.maxSize)
    else s
  }

  function Unlink(s: State, k: nat): State
    requires k < |s.items|
  {
    State(s.items[..k] + s.items[k + 1..], s.spare + 1, s.maxSize)
  }

  function UnlinkFirst(s: State, cmp: Ptr -> bool): State {
    var k := FirstMatch(s.items, cmp);
    if k < |s.items| then Unlink(s, k) else s
  }

  function At(items: seq<Ptr>, k: nat): Ptr {
    if k < |items| then items[k] else NULL
  }

  function Step(s: State, op: Op): (t: State)
    ensures t.maxSize == s.maxSize
  {
    match op
    case PushFront(data, memory) => Link(s, 0, data, memory)
    case PushBack(data, memory) => Link(s, |s.items|, data, memory)
    case Insert(index, data, memory) => Link(s, Min(index as nat, |s.items|), data, memory)
    case PopFront => if s.items == [] then s else Unlink(s, 0)
    case PopBack => if s.items == [] then s else Unlink(s, |s.items| - 1)
    case RemoveIf(cmp) => UnlinkFirst(s, cmp)
    case Remove(target) => UnlinkFirst(s, SamePtr(target))
    case Clear => State([], s.spare + |s.items|, s.maxSize)
    case _ => s
  }

  function Reply(s: State, op: Op): Answer {
    match op
    case PushFront(_, memory) => Flag(s.CanLink(memory))
    case PushBack(_, memory) => Flag(s.CanLink(memory))
    case Insert(_, _, memory) => Flag(s.CanLink(memory))
    case PopFront => Data(At(s.items, 0))
    case PopBack => Data(if s.items == [] then NULL else s.items[|s.items| - 1])
    case RemoveIf(cmp) => Data(At(s.items, FirstMatch(s.items, cmp)))
    case Remove(target) => Data(At(s.items, FirstMatch(s.items, SamePtr(target))))
    case Clear => Nothing
    case Front => Data(At(s.items, 0))
    case Back => Data(if s.items == [] then NULL else s.items[|s.items| - 1])
    case GetAt(index) => Data(At(s.items, index as nat))
    case FindIf(cmp) => Data(At(s.items, FirstMatch(s.items, cmp)))
    case Contain(target) => Flag(target != NULL && target in s.items)
  }

  // ----- runs ----------------------------------------------------------------------------

  function Run(s: State, ops: seq<Op>): (t: State)
    ensures t.maxSize == s.maxSize
    decreases ops
  {
    if ops == [] then s else Run(Step(s, ops[0]), ops[1..])
  }

  function Replies(s: State, ops: seq<Op>): (r: seq<Answer>)
    ensures |r| == |ops|
    decreases ops
  {
    if ops == [] then [] else [Reply(s, ops[0])] + Replies(Step(s, ops[0]), ops[1..])
  }

  /** The largest number of elements held at any moment of the run, its start included. */
  function Peak(s: State, ops: seq<Op>): nat
    decreases ops
  {
    if ops == [] then |s.items| else Max(|s.items|, Peak(Step(s, ops[0]), ops[1..]))
  }

  lemma {:induction false} RunAppend(s: State, a: seq<Op>, b: seq<Op>)
    ensures Run(s, a + b) == Run(Run(s, a), b)
    ensures Replies(s, a + b) == Replies(s, a) + Replies(Run(s, a), b)
    decreases a
  {
    if a == [] {
      assert a + b == b;
    } else {
      assert (a + b)[0] == a[0] && (a + b)[1..] == a[1..] + b;
      RunAppend(Step(s, a[0]), a[1..], b);
    }
  }

  /** No run overfills the list. */
  lemma {:induction false} RunStaysBounded(s: State, ops: seq<Op>)
    requires s.Bounded()
    ensures Run(s, ops).Bounded() && Peak(s, ops) <= s.maxSize
    decreases ops
  {
    if ops != [] {
      RunStaysBounded(Step(s, ops[0]), ops[1..]);
    }
  }

  lemma StepAllocation(s: State, op: Op)
    ensures Step(s, op).Allocated() == Max(s.Allocated(), |Step(s, op).items|)
  {
  }

  /** A node is requested from the allocator only when the list outgrows every earlier size. */
  lemma {:induction false} AllocationFollowsPeak(s: State, ops: seq<Op>)
    ensures Run(s, ops).Allocated() == Max(s.Allocated(), Peak(s, ops))
    decreases ops
  {
    if ops != [] {
      var t := Step(s, ops[0]);
      StepAllocation(s, ops[0]);
      AllocationFollowsPeak(t, ops[1..]);
      PeakIncludesStart(t, ops[1..]);
    }
  }

  lemma PeakIncludesStart(s: State, ops: seq<Op>)
    ensures |s.items| <= Peak(s, ops)
  {
  }

  lemma RunPrefix(s: State, ops: seq<Op>, i: nat)
    requires 0 < i <= |ops|
    ensures Run(s, ops[..i]) == Run(Step(s, ops[0]), ops[1..][..i - 1])
  {
    assert ops[..i][1..] == ops[1..][..i - 1];
  }

  /** The peak is a size the list has at some moment of the run, and none is larger. */
  lemma {:induction false} PeakIsLargest(s: State, ops: seq<Op>)
    ensures forall i :: 0 <= i <= |ops| ==> |Run(s, ops[..i]).items| <= Peak(s, ops)
    ensures exists i :: 0 <= i <= |ops| && |Run(s, ops[..i]).items| == Peak(s, ops)
    decreases ops
  {
    hide Step;
    assert Run(s, ops[..0]) == s;
    if ops != [] {
      var t := Step(s, ops[0]);
      PeakIsLargest(t, ops[1..]);
      forall i | 0 < i <= |ops| ensures |Run(s, ops[..i]).items| <= Peak(t, ops[1..]) {
        RunPrefix(s, ops, i);
      }
      var k :| 0 <= k < |ops| && |Run(t, ops[1..][..k]).items| == Peak(t, ops[1..]);
      RunPrefix(s, ops, k + 1);
      assert |Run(s, ops[..k + 1]).items| == Peak(t, ops[1..]);
    }
  }

  /** From creation on, the nodes allocated number exactly the peak size, so never more than
      `maxSize`, whatever is popped, removed, cleared and pushed in between. */
  lemma AllocatedIsPeak(maxSize: nat, ops: seq<Op>)
    ensures Run(Empty(maxSize), ops).Allocated() == Peak(Empty(maxSize), ops) <= maxSize
  {
    AllocationFollowsPeak(Empty(maxSize), ops);
    RunStaysBounded(Empty(maxSize), ops);
  }

  // ----- conservation of the payload -----------------------------------------------------

  /** What one call adds to the list: the pointer of a push or insert that answers true. */
  function Entering(s: State, op: Op): multiset<Ptr> {
    if IsPush(op) && Reply(s, op) == Flag(true) then multiset{op.data} else multiset{}
  }

  /** What one call takes out: the pointer it answers, if the list gets shorter, or everything
      for `Clear`. */
  function Leaving(s: State, op: Op): multiset<Ptr> {
    if op.Clear? then multiset(s.items)
    else if |Step(s, op).items| < |s.items| && Reply(s, op).Data? then multiset{Reply(s, op).data}
    else multiset{}
  }

  function Single(items: seq<Ptr>, k: nat): multiset<Ptr> {
    if k < |items| then multiset{items[k]} else multiset{}
  }

  function AllEntering(s: State, ops: seq<Op>): multiset<Ptr>
    decreases ops
  {
    if ops == [] then multiset{} else Entering(s, ops[0]) + AllEntering(Step(s, ops[0]), ops[1..])
  }

  function AllLeaving(s: State, ops: seq<Op>): multiset<Ptr>
    decreases ops
  {
    if ops == [] then multiset{} else Leaving(s, ops[0]) + AllLeaving(Step(s, ops[0]), ops[1..])
  }

  lemma UnlinkConserves(s: State, k: nat)
    requires k < |s.items|
    ensures multiset(s.items) == multiset(Unlink(s, k).items) + Single(s.items, k)
  {
    assert s.items == s.items[..k] + [s.items[k]] + s.items[k + 1..];
  }

  lemma LinkConserves(s: State, k: nat, data: Ptr, memory: bool)
    requires k <= |s.items|
    ensures multiset(Link(s, k, data, memory).items) ==
            multiset(s.items) + (if s.CanLink(memory) then multiset{data} else multiset{})
  {
    assert s.items == s.items[..k] + s.items[k..];
  }

  lemma PushConserves(s: State, op: Op)
    requires IsPush(op)
    ensures multiset(Step(s, op).items) == multiset(s.items) + Entering(s, op)
  {
    LinkConserves(s, 0, op.data, op.memory);
    LinkConserves(s, |s.items|, op.data, op.memory);
    if op.Insert? {
      LinkConserves(s, Min(op.index as nat, |s.items|), op.data, op.memory);
    }
  }

  /** A call that unlinks one element and answers it. */
  lemma UnlinkingConserves(s: State, op: Op, k: nat)
    requires !op.Clear? && k < |s.items| && Step(s, op) == Unlink(s, k) && Reply(s, op) == Data(s.items[k])
    ensures multiset(s.items) == multiset(Step(s, op).items) + Leaving(s, op)
  {
    hide Step, Reply;
    UnlinkConserves(s, k);
  }

  lemma StayingConserves(s: State, op: Op)
    requires !op.Clear? && Step(s, op).items == s.items
    ensures multiset(s.items) == multiset(Step(s, op).items) + Leaving(s, op)
  {
    hide Step, Reply;
  }

  lemma RemovalConserves(s: State, op: Op, cmp: Ptr -> bool)
    requires op == RemoveIf(cmp) || (op.Remove? && cmp == SamePtr(op.target))
    ensures multiset(s.items) == multiset(Step(s, op).items) + Leaving(s, op)
  {
    hide FirstMatch, Unlink, Leaving;
    var k := FirstMatch(s.items, cmp);
    if k < |s.items| {
      UnlinkingConserves(s, op, k);
    } else {
      StayingConserves(s, op);
    }
  }

  lemma PopConserves(s: State, op: Op)
    requires op.PopFront? || op.PopBack?
    ensures multiset(s.items) == multiset(Step(s, op).items) + Leaving(s, op)
  {
    hide Unlink, Leaving;
    if s.items == [] {
      StayingConserves(s, op);
    } else {
      UnlinkingConserves(s, op, if op.PopFront? then 0 else |s.items| - 1);
    }
  }

  lemma OtherConserves(s: State, op: Op)
    requires !IsPush(op)
    ensures multiset(s.items) == multiset(Step(s, op).items) + Leaving(s, op)
  {
    match op
    case PopFront => PopConserves(s, op);
    case PopBack => PopConserves(s, op);
    case RemoveIf(cmp) => RemovalConserves(s, op, cmp);
    case Remove(target) => RemovalConserves(s, op, SamePtr(target));
    case Clear =>
    case _ => StayingConserves(s, op);
  }

  lemma StepConserves(s: State, op: Op)
    ensures multiset(s.items) + Entering(s, op) == multiset(Step(s, op).items) + Leaving(s, op)
  {
    hide Step;
    if IsPush(op) {
      PushConserves(s, op);
    } else {
      OtherConserves(s, op);
    }
  }

  /** Over any run nothing is lost and nothing appears: what was there plus what was accepted
      is what is still there plus what was handed back (or cleared). */
  lemma {:induction false} RunConserves(s: State, ops: seq<Op>)
    ensures multiset(s.items) + AllEntering(s, ops) == multiset(Run(s, ops).items) + AllLeaving(s, ops)
    decreases ops
  {
    if ops != [] {
      var t := Step(s, ops[0]);
      StepConserves(s, ops[0]);
      RunConserves(t, ops[1..]);
      calc {
        multiset(s.items) + AllEntering(s, ops);
        (multiset(s.items) + Entering(s, ops[0])) + AllEntering(t, ops[1..]);
        (multiset(t.items) + AllEntering(t, ops[1..])) + Leaving(s, ops[0]);
        multiset(Run(s, ops).items) + AllLeaving(s, ops);
      }
    }
  }

  // ----- recycling -----------------------------------------------------------------------

  /** While recycled nodes last, pushes and inserts are all accepted and the allocator is
      never needed: the answers and the node count are the same with no memory at all. */
  lemma {:induction false} SpareNodesServePushes(s: State, ops: seq<Op>)
    requires forall i :: 0 <= i < |ops| ==> IsPush(ops[i])
    requires |ops| <= s.spare && |s.items| + |ops| <= s.maxSize
    ensures Replies(s, ops) == seq(|ops|, _ => Flag(true))
    ensures Run(s, ops).Allocated() == s.Allocated()
    ensures |Run(s, ops).items| == |s.items| + |ops|
    decreases ops
  {
    if ops != [] {
      assert IsPush(ops[0]);
      SpareNodesServePushes(Step(s, ops[0]), ops[1..]);
    }
  }

  /** After `Clear`, as many pushes as there were nodes need no allocation. */
  lemma ClearThenPush(s: State, ops: seq<Op>)
    requires s.Bounded()
    requires forall i :: 0 <= i < |ops| ==> IsPush(ops[i])
    requires |ops| <= Min(s.Allocated(), s.maxSize)
    ensures Replies(s, [Clear] + ops) == [Nothing] + seq(|ops|, _ => Flag(true))
    ensures Run(s, [Clear] + ops).Allocated() == s.Allocated()
  {
    RunAppend(s, [Clear], ops);
    assert Run(s, [Clear]) == Step(s, Clear);
    assert Replies(s, [Clear]) == [Nothing];
    SpareNodesServePushes(Step(s, Clear), ops);
  }

  /** A push or insert is rejected exactly when the list is full, or a node is needed and the
      allocator has none; a rejected call changes nothing. */
  lemma RejectedPushChangesNothing(s: State, op: Op)
    requires s.Bounded() && IsPush(op)
    ensures Reply(s, op) == Flag(false) <==> |s.items| == s.maxSize || (s.spare == 0 && !op.memory)
    ensures Reply(s, op) == Flag(false) <==> Step(s, op) == s
  {
    if s.CanLink(op.memory) {
      assert |Step(s, op).items| == |s.items| + 1;
    }
  }

  // ----- queries and updates agree -------------------------------------------------------

  /** `remove_if` answers what `find_if` would have answered, and deletes that element, the
      first accepted one, keeping the order of the others. A NULL answer is ambiguous: it is
      given when nothing matches and also when the first match is itself NULL. */
  lemma RemoveIfDeletesWhatFindIfFinds(s: State, cmp: Ptr -> bool)
    ensures Reply(s, RemoveIf(cmp)) == Reply(s, FindIf(cmp))
    ensures var t := Step(s, RemoveIf(cmp));
            if forall p :: p in s.items ==> !cmp(p)
            then t == s && Reply(s, RemoveIf(cmp)) == Data(NULL)
            else exists k ::
              && 0 <= k < |s.items| && cmp(s.items[k]) && (forall i :: 0 <= i < k ==> !cmp(s.items[i]))
              && t.items == s.items[..k] + s.items[k + 1..] && t.Allocated() == s.Allocated()
              && Reply(s, RemoveIf(cmp)) == Data(s.items[k])
  {
    hide FirstMatch;
    var k := FirstMatch(s.items, cmp);
    if k < |s.items| {
      assert s.items[k] in s.items;
    } else {
      assert forall p :: p in s.items ==> !cmp(p);
    }
  }

  /** A NULL answer of `remove_if` tells that nothing was removed, and only that, exactly when
      the first element accepted, if any, is not NULL. */
  lemma NullAnswerTellsExactlyWhen(s: State, cmp: Ptr -> bool)
    ensures (Reply(s, RemoveIf(cmp)) == Data(NULL) <==> Step(s, RemoveIf(cmp)) == s) <==>
            (FirstMatch(s.items, cmp) < |s.items| ==> s.items[FirstMatch(s.items, cmp)] != NULL)
  {
    if FirstMatch(s.items, cmp) < |s.items| {
      assert Step(s, RemoveIf(cmp)).spare == s.spare + 1;
    }
  }

  /** For `remove`, which has its target at hand: exactly when the target is not NULL or the
      list does not hold it. */
  lemma NullRemovalTellsExactlyWhen(s: State, target: Ptr)
    ensures (Reply(s, Remove(target)) == Data(NULL) <==> Step(s, Remove(target)) == s) <==>
            target != NULL || NULL !in s.items
  {
    var k := FirstMatch(s.items, SamePtr(target));
    if k < |s.items| {
      assert s.items[k] == target;
      assert Step(s, Remove(target)).spare == s.spare + 1;
    }
  }

  /** Removing NULL from a list that holds it and from one that does not: the same answer, but
      only one of them changes. */
  lemma RemovedNullIsAmbiguous()
    ensures var with, without := State([NULL], 0, 1), State([], 0, 1);
            && Reply(with, Remove(NULL)) == Reply(without, Remove(NULL)) == Data(NULL)
            && Step(with, Remove(NULL)).items == [] && Step(without, Remove(NULL)) == without
  {
    assert [NULL][0] == NULL && SamePtr(NULL)(NULL);
  }

  lemma InsertedAt(items: seq<Ptr>, k: nat, data: Ptr)
    requires k <= |items|
    ensures var x := items[..k] + [data] + items[k..];
            && |x| == |items| + 1 && At(x, k) == data
            && (forall j: nat :: j < k ==> At(x, j) == At(items, j))
            && (forall j: nat :: k < j ==> At(x, j) == At(items, j - 1))
            && x[..k] + x[k + 1..] == items
  {
  }

  /** An inserted pointer is found by `get_at` at the clamped index, later elements move up by
      one, and unlinking it restores the old sequence with the node kept for reuse. */
  lemma InsertIsUndoneByUnlink(s: State, index: uint32, data: Ptr, memory: bool)
    requires s.Bounded() && s.CanLink(memory)
    ensures var k := Min(index as nat, |s.items|);
            var t := Step(s, Insert(index, data, memory));
            && |t.items| == |s.items| + 1
            && At(t.items, k) == data
            && (forall j: nat :: j < k ==> At(t.items, j) == At(s.items, j))
            && (forall j: nat :: k < j ==> At(t.items, j) == At(s.items, j - 1))
            && Unlink(t, k) == s.(spare := Max(s.spare, 1))
  {
    var k := Min(index as nat, |s.items|);
    InsertedAt(s.items, k, data);
    assert Step(s, Insert(index, data, memory)).items == s.items[..k] + [data] + s.items[k..];
    hide At;
  }

  /** `remove` deletes the first occurrence of its target and no other, and answers it. */
  lemma RemoveDeletesFirstOccurrence(s: State, target: Ptr)
    ensures var t := Step(s, Remove(target));
            if target !in s.items
            then t == s && Reply(s, Remove(target)) == Data(NULL)
            else exists k ::
              && 0 <= k < |s.items| && s.items[k] == target && target !in s.items[..k]
              && t.items == s.items[..k] + s.items[k + 1..] && t.Allocated() == s.Allocated()
              && Reply(s, Remove(target)) == Data(target)
  {
    hide FirstMatch;
    var k := FirstMatch(s.items, SamePtr(target));
    if k < |s.items| {
      assert s.items[k] == target && target !in s.items[..k];
    }
  }

  // ----- what the queries show -----------------------------------------------------------

  /** After `push_front`: the new pointer is at the front and at index 0, everything else is one
      index further, and the back is what it was. */
  lemma PushFrontShows(s: State, data: Ptr, memory: bool, i: uint32)
    requires s.CanLink(memory)
    ensures var t := Step(s, PushFront(data, memory));
            && Reply(t, Front) == Reply(t, GetAt(0)) == Reply(t, PopFront) == Data(data)
            && (i < 0xFFFF_FFFF ==> Reply(t, GetAt(i + 1)) == Reply(s, GetAt(i)))
            && (if s.items == [] then Reply(t, Back) == Reply(t, PopBack) == Data(data)
                else Reply(t, Back) == Reply(s, Back) && Reply(t, PopBack) == Reply(s, PopBack))
            && Step(t, PopFront).items == s.items
  {
  }

  /** After `push_back`: the new pointer is at the back and at the index that was the count,
      everything else and the front are what they were. */
  lemma PushBackShows(s: State, data: Ptr, memory: bool, i: uint32)
    requires s.CanLink(memory)
    ensures var t := Step(s, PushBack(data, memory));
            && Reply(t, Back) == Reply(t, PopBack) == Data(data)
            && Reply(t, GetAt(i)) == (if i as nat == |s.items| then Data(data) else Reply(s, GetAt(i)))
            && (if s.items == [] then Reply(t, Front) == Reply(t, PopFront) == Data(data)
                else Reply(t, Front) == Reply(s, Front) && Reply(t, PopFront) == Reply(s, PopFront))
            && Step(t, PopBack).items == s.items
  {
  }

  function PushBacks(xs: seq<Ptr>): seq<Op> {
    seq(|xs|, i requires 0 <= i < |xs| => PushBack(xs[i], true))
  }

  lemma {:induction false} PushBacksFill(s: State, xs: seq<Ptr>)
    requires |s.items| + |xs| <= s.maxSize
    ensures Run(s, PushBacks(xs)).items == s.items + xs
    decreases xs
  {
    if xs == [] {
      assert PushBacks(xs) == [];
    } else {
      assert PushBacks(xs)[0] == PushBack(xs[0], true) && PushBacks(xs)[1..] == PushBacks(xs[1..]);
      PushBacksFill(Step(s, PushBack(xs[0], true)), xs[1..]);
    }
  }

  /** A list filled from the back shows what was pushed, in order, whichever way it is read. */
  lemma FilledListShows(maxSize: nat, xs: seq<Ptr>, i: uint32, p: Ptr)
    requires |xs| <= maxSize
    ensures var t := Run(Empty(maxSize), PushBacks(xs));
            && Reply(t, GetAt(i)) == Data(if i as nat < |xs| then xs[i] else NULL)
            && Reply(t, Front) == Reply(t, PopFront) == Data(if xs == [] then NULL else xs[0])
            && Reply(t, Back) == Reply(t, PopBack) == Data(if xs == [] then NULL else xs[|xs| - 1])
            && Reply(t, Contain(p)) == Flag(p != NULL && exists k :: 0 <= k < |xs| && xs[k] == p)
  {
    PushBacksFill(Empty(maxSize), xs);
  }

  /** After `clear` nothing can be seen any more. */
  lemma ClearHidesAll(s: State, i: uint32, p: Ptr, cmp: Ptr -> bool)
    ensures var t := Step(s, Clear);
            && Reply(t, GetAt(i)) == Reply(t, Front) == Reply(t, Back) == Reply(t, FindIf(cmp)) == Data(NULL)
            && Reply(t, Contain(p)) == Flag(false)
  {
  }

  // ----- the two ends --------------------------------------------------------------------

  function Reversed(s: seq<Ptr>): (r: seq<Ptr>)
    ensures |r| == |s|
  {
    seq(|s|, i requires 0 <= i < |s| => s[|s| - 1 - i])
  }

  function Mirrored(s: State): State {
    s.(items := Reversed(s.items))
  }

  /** The calls at one of the two ends. */
  predicate AtEnd(op: Op) {
    op.PushFront? || op.PushBack? || op.PopFront? || op.PopBack? || op.Front? || op.Back?
  }

  /** The same call at the other end. */
  function Turned(op: Op): Op {
    match op
    case PushFront(data, memory) => PushBack(data, memory)
    case PushBack(data, memory) => PushFront(data, memory)
    case PopFront => PopBack
    case PopBack => PopFront
    case Front => Back
    case Back => Front
    case _ => op
  }

  function AllTurned(ops: seq<Op>): (r: seq<Op>)
    ensures |r| == |ops|
  {
    seq(|ops|, i requires 0 <= i < |ops| => Turned(ops[i]))
  }

  lemma TurnedFirst(ops: seq<Op>)
    requires ops != []
    ensures AllTurned(ops)[0] == Turned(ops[0]) && AllTurned(ops)[1..] == AllTurned(ops[1..])
  {
  }

  lemma ReversedEnds(s: seq<Ptr>, data: Ptr)
    ensures Reversed([data] + s) == Reversed(s) + [data] && Reversed(s + [data]) == [data] + Reversed(s)
    ensures s != [] ==>
      && Reversed(s)[0] == s[|s| - 1] && Reversed(s)[|s| - 1] == s[0]
      && Reversed(s[1..]) == Reversed(s)[..|s| - 1] && Reversed(s[..|s| - 1]) == Reversed(s)[1..]
  {
  }

  lemma EndStep(s: State, op: Op)
    requires AtEnd(op)
    ensures var t := Step(s, op);
            match op
            case PushFront(data, memory) =>
              s.CanLink(memory) ==> t == State([data] + s.items, if s.spare > 0 then s.spare - 1 else 0, s.maxSize)
            case PushBack(data, memory) =>
              s.CanLink(memory) ==> t == State(s.items + [data], if s.spare > 0 then s.spare - 1 else 0, s.maxSize)
            case PopFront => s.items != [] ==> t == State(s.items[1..], s.spare + 1, s.maxSize)
            case PopBack => s.items != [] ==> t == State(s.items[..|s.items| - 1], s.spare + 1, s.maxSize)
            case _ => t == s
  {
  }

  lemma StepMirrored(s: State, op: Op)
    requires AtEnd(op)
    ensures Step(Mirrored(s), Turned(op)) == Mirrored(Step(s, op))
    ensures Reply(Mirrored(s), Turned(op)) == Reply(s, op)
  {
    ReversedEnds(s.items, if op.PushFront? || op.PushBack? then op.data else NULL);
    EndStep(s, op);
    EndStep(Mirrored(s), Turned(op));
    hide Reversed, Link, Unlink;
  }

  /** The list has no preferred end: any run of calls at its ends, made at the other end on the
      reversed list, gives the same answers and the reversed list. */
  lemma {:induction false} RunMirrored(s: State, ops: seq<Op>)
    requires forall i :: 0 <= i < |ops| ==> AtEnd(ops[i])
    ensures Run(Mirrored(s), AllTurned(ops)) == Mirrored(Run(s, ops))
    ensures Replies(Mirrored(s), AllTurned(ops)) == Replies(s, ops)
    decreases ops
  {
    hide Step, Reply, Mirrored, Turned, AllTurned;
    if ops == [] {
      NothingTurned();
    } else {
      assert AtEnd(ops[0]);
      TurnedFirst(ops);
      StepMirrored(s, ops[0]);
      RunMirrored(Step(s, ops[0]), ops[1..]);
    }
  }

  lemma NothingTurned()
    ensures AllTurned([]) == []
  {
  }

  // ----- the list as a queue -------------------------------------------------------------

  /** The pointers accepted by pushes at either end, in order. */
  function Enqueued(s: State, ops: seq<Op>): seq<Ptr>
    decreases ops
  {
    if ops == [] then []
    else
      var rest := Enqueued(Step(s, ops[0]), ops[1..]);
      if (ops[0].PushBack? || ops[0].PushFront?) && Reply(s, ops[0]) == Flag(true) then [ops[0].data] + rest
      else rest
  }

  /** The pointers answered by pops at either end of a list that is not empty, in order. */
  function Dequeued(s: State, ops: seq<Op>): seq<Ptr>
    decreases ops
  {
    if ops == [] then []
    else
      var rest := Dequeued(Step(s, ops[0]), ops[1..]);
      var reply := Reply(s, ops[0]);
      if (ops[0].PopFront? || ops[0].PopBack?) && s.items != [] && reply.Data? then [reply.data] + rest
      else rest
  }

  lemma PushBackAppends(s: State, data: Ptr, memory: bool)
    ensures Reply(s, PushBack(data, memory)) == Flag(s.CanLink(memory))
    ensures Step(s, PushBack(data, memory)).items == if s.CanLink(memory) then s.items + [data] else s.items
  {
  }

  lemma PopFrontDrops(s: State)
    ensures s.items == [] ==> Step(s, PopFront).items == []
    ensures s.items != [] ==>
      Reply(s, PopFront) == Data(s.items[0]) && s.items == [s.items[0]] + Step(s, PopFront).items
  {
  }

  lemma Regroup(a: seq<Ptr>, b: seq<Ptr>, c: seq<Ptr>)
    ensures a + b + c == a + (b + c)
  {
  }

  /** Any interleaving of `push_back` and `pop_front` is first in, first out: what was there and
      what was accepted is answered in that order, up to what is left. */
  lemma {:induction false} QueueOrder(s: State, ops: seq<Op>)
    requires forall i :: 0 <= i < |ops| ==> ops[i].PushBack? || ops[i].PopFront?
    ensures s.items + Enqueued(s, ops) == Dequeued(s, ops) + Run(s, ops).items
    decreases ops
  {
    hide Step, Reply;
    if ops != [] {
      var t := Step(s, ops[0]);
      QueueOrder(t, ops[1..]);
      var came, left := Enqueued(t, ops[1..]), Dequeued(t, ops[1..]);
      if ops[0].PushBack? {
        PushBackAppends(s, ops[0].data, ops[0].memory);
        if s.CanLink(ops[0].memory) {
          Regroup(s.items, [ops[0].data], came);
        }
      } else {
        assert ops[0].PopFront?;
        PopFrontDrops(s);
        if s.items != [] {
          Regroup([s.items[0]], t.items, came);
          Regroup([s.items[0]], left, Run(s, ops).items);
        }
      }
    }
  }

  lemma {:induction false} TrafficMirrored(s: State, ops: seq<Op>)
    requires forall i :: 0 <= i < |ops| ==> AtEnd(ops[i])
    ensures Enqueued(Mirrored(s), AllTurned(ops)) == Enqueued(s, ops)
    ensures Dequeued(Mirrored(s), AllTurned(ops)) == Dequeued(s, ops)
    decreases ops
  {
    hide Step, Reply, AllTurned;
    if ops == [] {
      NothingTurned();
    } else {
      assert AtEnd(ops[0]);
      TurnedFirst(ops);
      StepMirrored(s, ops[0]);
      TrafficMirrored(Step(s, ops[0]), ops[1..]);
    }
  }

  /** So is any interleaving of `push_front` and `pop_back`, from the other end. */
  lemma QueueOrderFromBack(s: State, ops: seq<Op>)
    requires forall i :: 0 <= i < |ops| ==> ops[i].PushFront? || ops[i].PopBack?
    ensures Reversed(s.items) + Enqueued(s, ops) == Dequeued(s, ops) + Reversed(Run(s, ops).items)
  {
    forall i | 0 <= i < |ops| ensures AtEnd(ops[i]) {
      assert ops[i].PushFront? || ops[i].PopBack?;
    }
    hide Step, Reply, Enqueued, Dequeued, Run, Reversed;
    RunMirrored(s, ops);
    TrafficMirrored(s, ops);
    forall i | 0 <= i < |ops| ensures AllTurned(ops)[i].PushBack? || AllTurned(ops)[i].PopFront? {
      assert ops[i].PushFront? || ops[i].PopBack?;
    }
    QueueOrder(Mirrored(s), AllTurned(ops));
  }

  // ----- the list as a stack -------------------------------------------------------------

  /** At no moment of the run does the list hold fewer than `n` elements. */
  ghost predicate NeverBelow(s: State, ops: seq<Op>, n: nat)
    decreases ops
  {
    |s.items| >= n && (ops == [] || NeverBelow(Step(s, ops[0]), ops[1..], n))
  }

  lemma StackStep(s: State, op: Op, n: nat)
    requires op.PushBack? || op.PopBack?
    requires n <= |s.items| && n <= |Step(s, op).items|
    ensures Step(s, op).items[..n] == s.items[..n]
  {
  }

  /** What lies at the bottom of the stack is not touched. */
  lemma {:induction false} BottomStays(s: State, ops: seq<Op>, n: nat)
    requires forall i :: 0 <= i < |ops| ==> ops[i].PushBack? || ops[i].PopBack?
    requires NeverBelow(s, ops, n)
    ensures n <= |Run(s, ops).items| && Run(s, ops).items[..n] == s.items[..n]
    decreases ops
  {
    hide Step;
    if ops != [] {
      assert ops[0].PushBack? || ops[0].PopBack?;
      BottomStays(Step(s, ops[0]), ops[1..], n);
      StackStep(s, ops[0], n);
    }
  }

  /** Last in, first out: whatever is pushed and popped at the back in between, once the list is
      back at the same size, `pop_back` answers the pointer pushed before and restores the list. */
  lemma StackOrder(s: State, data: Ptr, memory: bool, ops: seq<Op>)
    requires s.CanLink(memory)
    requires forall i :: 0 <= i < |ops| ==> ops[i].PushBack? || ops[i].PopBack?
    requires var t := Step(s, PushBack(data, memory));
             NeverBelow(t, ops, |t.items|) && |Run(t, ops).items| == |t.items|
    ensures var u := Run(Step(s, PushBack(data, memory)), ops);
            Reply(u, PopBack) == Data(data) && Step(u, PopBack).items == s.items
  {
    var t := Step(s, PushBack(data, memory));
    PushBackShows(s, data, memory, 0);
    BottomStays(t, ops, |t.items|);
    assert Run(t, ops).items == t.items;
  }

  lemma {:induction false} NeverBelowMirrored(s: State, ops: seq<Op>, n: nat)
    requires forall i :: 0 <= i < |ops| ==> AtEnd(ops[i])
    requires NeverBelow(s, ops, n)
    ensures NeverBelow(Mirrored(s), AllTurned(ops), n)
    decreases ops
  {
    hide Step, Reply, AllTurned, Turned;
    if ops == [] {
      NothingTurned();
    } else {
      assert AtEnd(ops[0]);
      TurnedFirst(ops);
      StepMirrored(s, ops[0]);
      NeverBelowMirrored(Step(s, ops[0]), ops[1..], n);
    }
  }

  lemma MirroredTwice(s: State)
    ensures Mirrored(Mirrored(s)) == s
  {
    assert Reversed(Reversed(s.items)) == s.items;
  }

  /** The same at the front. */
  lemma StackOrderAtFront(s: State, data: Ptr, memory: bool, ops: seq<Op>)
    requires s.CanLink(memory)
    requires forall i :: 0 <= i < |ops| ==> ops[i].PushFront? || ops[i].PopFront?
    requires var t := Step(s, PushFront(data, memory));
             NeverBelow(t, ops, |t.items|) && |Run(t, ops).items| == |t.items|
    ensures var u := Run(Step(s, PushFront(data, memory)), ops);
            Reply(u, PopFront) == Data(data) && Step(u, PopFront).items == s.items
  {
    var t := Step(s, PushFront(data, memory));
    var u := Run(t, ops);
    forall i | 0 <= i < |ops| ensures AtEnd(ops[i]) {
      assert ops[i].PushFront? || ops[i].PopFront?;
    }
    forall i | 0 <= i < |ops| ensures AllTurned(ops)[i].PushBack? || AllTurned(ops)[i].PopBack? {
      assert ops[i].PushFront? || ops[i].PopFront?;
    }
    StepMirrored(s, PushFront(data, memory));
    NeverBelowMirrored(t, ops, |t.items|);
    RunMirrored(t, ops);
    StepMirrored(u, PopFront);
    hide Step, Reply, Run, NeverBelow, AllTurned, Reversed;
    StackOrder(Mirrored(s), data, memory, AllTurned(ops));
    MirroredTwice(s);
    MirroredTwice(Step(u, PopFront));
    assert Mirrored(Step(u, PopFront)).items == Mirrored(s).items;
  }
}
