/** The doubly linked list with its chain of recycled nodes, in place on the heap. */
module SkyList {
  import opened ListModel

  class Node {
    var data: Ptr
    var next: Node?
    var prev: Node?

    /** `sky_mem_alloc` hands out zeroed memory. */
    constructor ()
      ensures data == NULL && next == null && prev == null
    {
      data, next, prev := NULL, null, null;
    }
  }

  ghost predicate Distinct(s: seq<Node>) {
    forall i, j :: 0 <= i < j < |s| ==> s[i] != s[j]
  }

  /** Neighbours point at each other, in both directions. */
  ghost predicate Linked(c: seq<Node>)
    reads c
  {
    && Forward(c)
    && (forall i {:trigger c[i].prev} :: 0 < i < |c| ==> c[i].prev == c[i - 1])
  }

  /** The chain in use runs from one sentinel to the other, the recycled nodes are apart from
      it, and together with `loose` they are as many as the owned nodes: so each owned node is
      in exactly one place, exactly once. */
  ghost predicate Separated(c: seq<Node>, f: seq<Node>, owned: set<Node>, loose: set<Node>, head: Node, tail: Node) {
    && |c| >= 2 && c[0] == head && c[|c| - 1] == tail
    && Distinct(c) && Distinct(f)
    && (forall i :: 0 < i < |c| - 1 ==> c[i] in owned)
    && (forall i :: 0 <= i < |f| ==> f[i] in owned)
    && (forall i, j :: 0 <= i < |c| && 0 <= j < |f| ==> c[i] != f[j])
    && (forall n :: n in loose ==> n in owned && n !in c && n !in f)
    && head !in owned && tail !in owned
    && |owned| == |c| - 2 + |f| + |loose|
  }

  lemma SeparatedSpliced(c: seq<Node>, f: seq<Node>, owned: set<Node>, head: Node, tail: Node, k: nat, item: Node)
    requires Separated(c, f, owned, {item}, head, tail) && k + 1 < |c|
    ensures Separated(c[..k + 1] + [item] + c[k + 1..], f, owned, {}, head, tail)
  {
    var d := c[..k + 1] + [item] + c[k + 1..];
    assert forall i :: 0 <= i < |d| ==> d[i] == if i <= k then c[i] else if i == k + 1 then item else c[i - 1];
    assert item in {item};
  }

  lemma SeparatedCut(c: seq<Node>, f: seq<Node>, owned: set<Node>, head: Node, tail: Node, k: nat)
    requires Separated(c, f, owned, {}, head, tail) && k + 2 < |c|
    ensures Separated(c[..k + 1] + c[k + 2..], [c[k + 1]] + f, owned, {}, head, tail)
  {
    var d := c[..k + 1] + c[k + 2..];
    assert forall i :: 0 <= i < |d| ==> d[i] == if i <= k then c[i] else c[i + 1];
  }

  /** `next` alone threads the recycled nodes; their `prev` and `data` are leftovers. */
  ghost predicate Threaded(top: Node?, f: seq<Node>)
    reads f
  {
    && top == (if f == [] then null else f[0])
    && (forall i {:trigger f[i].next} :: 0 <= i < |f| ==> f[i].next == if i + 1 < |f| then f[i + 1] else null)
  }

  /** Half of `Linked`: following `next` from any node leads to its successor. */
  ghost predicate Forward(c: seq<Node>)
    reads c
  {
    forall i {:trigger c[i].next} :: 0 <= i < |c| - 1 ==> c[i].next == c[i + 1]
  }

  /** The nodes strictly inside the chain hold the payload in order. */
  ghost predicate Carries(c: seq<Node>, items: seq<Ptr>)
    reads c
  {
    && |c| == |items| + 2
    && (forall i {:trigger c[i].data} :: 0 < i < |c| - 1 ==> c[i].data == items[i - 1])
  }

  /** As `Linked`, but saying nothing of the link between positions `k` and `k + 1`. */
  ghost predicate LinkedExcept(c: seq<Node>, k: nat)
    reads c
  {
    && (forall i {:trigger c[i].next} :: 0 <= i < |c| - 1 && i != k ==> c[i].next == c[i + 1])
    && (forall i {:trigger c[i].prev} :: 0 < i < |c| && i != k + 1 ==> c[i].prev == c[i - 1])
  }

  /** A node linked between its two neighbours extends the chain by one. */
  lemma Spliced(c: seq<Node>, items: seq<Ptr>, k: nat, item: Node)
    requires k + 1 < |c| && LinkedExcept(c, k) && Carries(c, items)
    requires Distinct(c) && item !in c
    requires item.prev == c[k] && item.next == c[k + 1] && c[k].next == item && c[k + 1].prev == item
    ensures var d := c[..k + 1] + [item] + c[k + 1..];
            Linked(d) && Carries(d, items[..k] + [item.data] + items[k..])
  {
    var d := c[..k + 1] + [item] + c[k + 1..];
    assert forall i :: 0 <= i <= k ==> d[i] == c[i];
    assert forall i :: k + 1 < i < |d| ==> d[i] == c[i - 1];
  }

  /** A node bypassed by its two neighbours shortens the chain by one. */
  lemma Cut(c: seq<Node>, items: seq<Ptr>, k: nat, item: Node)
    requires k + 2 < |c| && Distinct(c) && Carries(c, items) && item == c[k + 1]
    requires forall i {:trigger c[i].next} :: 0 <= i < |c| - 1 && i != k && i != k + 1 ==> c[i].next == c[i + 1]
    requires forall i {:trigger c[i].prev} :: 0 < i < |c| && i != k + 2 ==> c[i].prev == c[i - 1]
    requires c[k].next == c[k + 2] && c[k + 2].prev == c[k]
    ensures var d := c[..k + 1] + c[k + 2..];
            Linked(d) && Carries(d, items[..k] + items[k + 1..])
  {
    var d := c[..k + 1] + c[k + 2..];
    assert forall i :: 0 <= i <= k ==> d[i] == c[i];
    assert forall i :: k < i < |d| ==> d[i] == c[i + 1];
  }

  ghost function Reverse(s: seq<Node>): seq<Node> {
    if s == [] then [] else [s[|s| - 1]] + Reverse(s[..|s| - 1])
  }

  /** The recycled nodes once positions 1 to `k` of the chain have been put on top, in turn. */
  ghost function Drained(c: seq<Node>, k: nat, f: seq<Node>): seq<Node>
    requires k < |c|
  {
    if k == 0 then f else [c[k]] + Drained(c, k - 1, f)
  }

  lemma {:induction false} DrainedIsReversed(c: seq<Node>, k: nat, f: seq<Node>)
    requires k < |c|
    ensures Drained(c, k, f) == Reverse(c[1..k + 1]) + f
  {
    if k > 0 {
      DrainedIsReversed(c, k - 1, f);
      assert c[1..k + 1][..k - 1] == c[1..k];
    }
  }

  class List {
    const head: Node
    const tail: Node
    var prealloc: Node?
    var count: nat
    const maxSize: nat

    /** The head sentinel, the nodes in use, the tail sentinel. */
    ghost var chain: seq<Node>
    /** The payload of the nodes in use. */
    ghost var items: seq<Ptr>
    /** The recycled nodes, from the top of the prealloc chain down. */
    ghost var free: seq<Node>
    /** Every node obtained from the allocator and not given back to it. */
    ghost var owned: set<Node>
    /** Whether the handle, and the sentinels embedded in it, are still allocated. */
    ghost var handle: bool

    ghost predicate Valid()
      reads this, head, tail, owned
    {
      ValidExcept({})
    }

    /** The invariant while the nodes in `loose` are owned but on neither chain. */
    ghost predicate ValidExcept(loose: set<Node>)
      reads this, head, tail, owned
    {
      && handle && Separated(chain, free, owned, loose, head, tail)
      && head.prev == null && tail.next == null
      && Linked(chain) && Threaded(prealloc, free) && Carries(chain, items)
      && count == |items| <= maxSize
    }

    ghost function View(): State
      reads this
    {
      State(items, |free|, maxSize)
    }

    constructor (maxSize: nat)
      requires maxSize > 0
      ensures Valid() && fresh(head) && fresh(tail) && owned == {}
      ensures View() == Empty(maxSize)
    {
      this.maxSize := maxSize;
      head := new Node();
      tail := new Node();
      prealloc := null;
      count := 0;
      items, free, owned, handle := [], [], {}, true;
      new;
      head.next := tail;
      tail.prev := head;
      chain := [head, tail];
    }

    /** A recycled node if there is one, otherwise a new one if there is memory. */
    method TakeNode(memory: bool) returns (item: Node?)
      requires Valid()
      modifies this`prealloc, this`free, this`owned
      ensures item == null <==> old(free) == [] && !memory
      ensures item == null ==> Valid() && unchanged(this)
      ensures item != null ==>
        && ValidExcept({item}) && owned == old(owned) + {item} && fresh(owned - old(owned))
        && |free| == (if old(free) == [] then 0 else |old(free)| - 1)
    {
      if prealloc == null {
        if !memory {
          return null;
        }
        item := new Node();
        owned := owned + {item};
      } else {
        item := prealloc;
        prealloc := item.next;
        free := free[1..];
        assert owned + {item} == owned;
      }
    }

    /** The statements `push_front`, `push_back` and `insert` share: the taken node is filled
        and linked between two neighbours. */
    method LinkBetween(item: Node, data: Ptr, pred: Node, succ: Node, ghost k: nat)
      requires ValidExcept({item}) && count < maxSize
      requires k < |chain| - 1 && pred == chain[k] && succ == chain[k + 1]
      modifies this`count, this`items, this`chain, item, pred, succ
      ensures Valid()
      ensures items == old(items)[..k] + [data] + old(items)[k..]
    {
      SeparatedSpliced(chain, free, owned, head, tail, k, item);
      item.data := data;
      item.prev := pred;
      item.next := succ;
      item.prev.next := item;
      item.next.prev := item;
      count := count + 1;
      Spliced(chain, items, k, item);
      items := items[..k] + [data] + items[k..];
      chain := chain[..k + 1] + [item] + chain[k + 1..];
    }

    method PushFront(data: Ptr, memory: bool) returns (ok: bool)
      requires Valid()
      modifies this, head, tail, owned
      ensures Valid() && fresh(owned - old(owned))
      ensures View() == Step(old(View()), Op.PushFront(data, memory))
      ensures Flag(ok) == Reply(old(View()), Op.PushFront(data, memory))
    {
      if !(count < maxSize) {
        return false;
      }
      var item := TakeNode(memory);
      if item == null {
        return false;
      }
      LinkBetween(item, data, head, head.next, 0);
      return true;
    }

    method PushBack(data: Ptr, memory: bool) returns (ok: bool)
      requires Valid()
      modifies this, head, tail, owned
      ensures Valid() && fresh(owned - old(owned))
      ensures View() == Step(old(View()), Op.PushBack(data, memory))
      ensures Flag(ok) == Reply(old(View()), Op.PushBack(data, memory))
    {
      if !(count < maxSize) {
        return false;
      }
      var item := TakeNode(memory);
      if item == null {
        return false;
      }
      LinkBetween(item, data, tail.prev, tail, count);
      return true;
    }

    /** `index` is decremented in every test of the loop, so past the end the walk steps from
        the tail sentinel to NULL and is put back on the tail. */
    method Insert(index: uint32, data: Ptr, memory: bool) returns (ok: bool)
      requires Valid()
      modifies this, head, tail, owned
      ensures Valid() && fresh(owned - old(owned))
      ensures View() == Step(old(View()), Op.Insert(index, data, memory))
      ensures Flag(ok) == Reply(old(View()), Op.Insert(index, data, memory))
    {
      if !(count < maxSize) {
        return false;
      }
      var item := TakeNode(memory);
      if item == null {
        return false;
      }
      var itor: Node? := head.next;
      var left := index;
      ghost var k := 1;
      while left != 0 && itor != null
        invariant 1 <= k <= |chain| && k - 1 + left as int == index as int
        invariant itor == if k < |chain| then chain[k] else null
        decreases left
      {
        itor := itor.next;
        left := left - 1;
        k := k + 1;
      }
      if itor == null {
        itor := tail;
        k := k - 1;
      }
      LinkBetween(item, data, itor.prev, itor, k - 1);
      return true;
    }

    /** The statements `pop_front`, `pop_back` and `remove_if` share: the node leaves the chain
        and goes on top of the recycled ones, keeping its `prev` and `data`. */
    method Recycle(item: Node, ghost k: nat)
      requires Valid() && k < |items| && item == chain[k + 1]
      modifies this, chain
      ensures Valid() && owned == old(owned) && item.data == old(items)[k]
      ensures View() == Unlink(old(View()), k)
      ensures free == [item] + old(free)
    {
      SeparatedCut(chain, free, owned, head, tail, k);
      item.prev.next := item.next;
      item.next.prev := item.prev;
      count := count - 1;
      item.next := prealloc;
      prealloc := item;
      assert chain[k].next == chain[k + 2] && chain[k + 2].prev == chain[k];
      Cut(chain, items, k, item);
      chain := chain[..k + 1] + chain[k + 2..];
      items := items[..k] + items[k + 1..];
      free := [item] + free;
    }

    method PopFront() returns (data: Ptr)
      requires Valid()
      modifies this, head, tail, owned
      ensures Valid() && owned == old(owned)
      ensures View() == Step(old(View()), Op.PopFront)
      ensures Data(data) == Reply(old(View()), Op.PopFront)
    {
      if !(count > 0) {
        return NULL;
      }
      if !(head.next != tail) {
        return NULL;
      }
      var item := head.next;
      Recycle(item, 0);
      return item.data;
    }

    method PopBack() returns (data: Ptr)
      requires Valid()
      modifies this, head, tail, owned
      ensures Valid() && owned == old(owned)
      ensures View() == Step(old(View()), Op.PopBack)
      ensures Data(data) == Reply(old(View()), Op.PopBack)
    {
      if !(count > 0) {
        return NULL;
      }
      if !(head.next != tail) {
        return NULL;
      }
      var item := tail.prev;
      Recycle(item, count - 1);
      return item.data;
    }

    /** The comparison function with its two parameters already fixed is `cmp`. */
    method RemoveIf(cmp: Ptr -> bool) returns (data: Ptr)
      requires Valid()
      modifies this, head, tail, owned
      ensures Valid() && owned == old(owned)
      ensures View() == Step(old(View()), Op.RemoveIf(cmp))
      ensures Data(data) == Reply(old(View()), Op.RemoveIf(cmp))
    {
      var itor := head.next;
      ghost var k := 0;
      while itor != tail
        invariant k <= |items| && itor == chain[k + 1]
        invariant forall i :: 0 <= i < k ==> !cmp(items[i])
        decreases |items| - k
      {
        if cmp(itor.data) {
          FirstMatchIsUnique(items, cmp, k);
          Recycle(itor, k);
          return itor.data;
        }
        itor := itor.next;
        k := k + 1;
      }
      FirstMatchIsUnique(items, cmp, k);
      return NULL;
    }

    method Remove(target: Ptr) returns (data: Ptr)
      requires Valid()
      modifies this, head, tail, owned
      ensures Valid() && owned == old(owned)
      ensures View() == Step(old(View()), Op.Remove(target))
      ensures Data(data) == Reply(old(View()), Op.Remove(target))
    {
      data := RemoveIf(SamePtr(target));
    }

    method FindIf(cmp: Ptr -> bool) returns (data: Ptr)
      requires Valid()
      ensures Data(data) == Reply(View(), Op.FindIf(cmp))
    {
      var itor := head.next;
      ghost var k := 0;
      while itor != tail
        invariant k <= |items| && itor == chain[k + 1]
        invariant forall i :: 0 <= i < k ==> !cmp(items[i])
        decreases |items| - k
      {
        if cmp(itor.data) {
          break;
        }
        itor := itor.next;
        k := k + 1;
      }
      FirstMatchIsUnique(items, cmp, k);
      return if itor != tail then itor.data else NULL;
    }

    method Contain(target: Ptr) returns (found: bool)
      requires Valid()
      ensures found <==> target != NULL && target in items
    {
      var ret := FindIf(SamePtr(target));
      return ret != NULL && ret == target;
    }

    method GetAt(index: uint32) returns (data: Ptr)
      requires Valid()
      ensures Data(data) == Reply(View(), Op.GetAt(index))
    {
      if !(count > 0) {
        return NULL;
      }
      if !(index as nat < count) {
        return NULL;
      }
      var item := head.next;
      var left := index;
      while item != null && left > 0
        invariant left <= index && item == chain[(index - left) as nat + 1]
        decreases left
      {
        item := item.next;
        left := left - 1;
      }
      data := NULL;
      if item != null {
        data := item.data;
      }
    }

    method Front() returns (data: Ptr)
      requires Valid()
      ensures Data(data) == Reply(View(), Op.Front)
    {
      return if head.next != tail then head.next.data else NULL;
    }

    method Back() returns (data: Ptr)
      requires Valid()
      ensures Data(data) == Reply(View(), Op.Back)
    {
      return if tail.prev != head then tail.prev.data else NULL;
    }

    /** The invariant of the loop of `Clear`: the backward chain is out of order, since the
        first remaining node still points back at the node that was in front of it. */
    ghost predicate Draining()
      reads this, head, tail, owned
    {
      && handle && Separated(chain, free, owned, {}, head, tail)
      && head.prev == null && tail.next == null
      && Forward(chain) && Threaded(prealloc, free)
      && count == |chain| - 2
    }

    /** One turn of the loop of `Clear`. */
    method DrainFirst()
      requires Draining() && head.next != tail
      modifies this`prealloc, this`count, this`chain, this`free, head, owned
      ensures Draining()
      ensures chain == [head] + old(chain)[2..] && free == [old(chain)[1]] + old(free)
    {
      SeparatedCut(chain, free, owned, head, tail, 0);
      var temp := head.next.next;
      head.next.next := prealloc;
      prealloc := head.next;
      head.next := temp;
      count := count - 1;
      free := [chain[1]] + free;
      chain := chain[..1] + chain[2..];
    }

    /** The last statement of `Clear`, which mends the backward chain. */
    method Mend()
      requires Draining() && head.next == tail
      modifies this`items, tail
      ensures Valid() && items == [] && |chain| == 2
    {
      assert |chain| == 2;
      tail.prev := head;
      items := [];
    }

    method Clear()
      requires Valid()
      modifies this, head, tail, owned
      ensures Valid() && owned == old(owned)
      ensures View() == Step(old(View()), Op.Clear)
      ensures free == Reverse(old(chain)[1..|old(chain)| - 1]) + old(free)
    {
      hide Threaded, Forward;
      ghost var c, f, k := chain, free, 0;
      while head.next != tail
        invariant Draining() && owned == old(owned)
        invariant |chain| == |c| - k && chain[1..] == c[k + 1..]
        invariant free == Drained(c, k, f)
        decreases count
      {
        ghost var before := chain;
        DrainFirst();
        assert chain[1..] == before[1..][1..] && before[1] == before[1..][0] == c[k + 1];
        k := k + 1;
      }
      DrainedIsReversed(c, k, f);
      Mend();
    }

    /** `sky_mem_free` on a node that is still allocated. */
    ghost method Free(n: Node)
      requires n in owned
      modifies this`owned
      ensures owned == old(owned) - {n}
    {
      owned := owned - {n};
    }

    /** A read of a node's link, which the node must be allocated for: a sentinel goes with the
        handle. */
    method ReadNext(n: Node) returns (next: Node?)
      requires if n == head || n == tail then handle else n in owned
      ensures next == n.next
    {
      next := n.next;
    }

    /** Every node is given back exactly once, then the handle, and nothing is read after it is
        given back. */
    method Destroy()
      requires Valid()
      modifies this, head
      ensures owned == {} && !handle
    {
      ghost var k := 0;
      var first := ReadNext(head);
      while first != tail
        invariant chain == old(chain) && free == old(free) && prealloc == old(prealloc) && handle
        invariant first == head.next
        invariant k + count == |chain| - 2 && head.next == chain[k + 1]
        invariant owned <= old(owned) && |owned| == |chain| - 2 - k + |free|
        invariant forall i :: k < i < |chain| - 1 ==> chain[i] in owned
        invariant forall i :: 0 <= i < |free| ==> free[i] in owned
        decreases count
      {
        var temp := first;
        head.next := ReadNext(temp);
        Free(temp);
        count := count - 1;
        k := k + 1;
        first := ReadNext(head);
      }
      ghost var j := 0;
      while prealloc != null
        invariant chain == old(chain) && free == old(free) && handle
        invariant j <= |free| && prealloc == if j < |free| then free[j] else null
        invariant owned <= old(owned) && |owned| == |free| - j
        invariant forall i :: j <= i < |free| ==> free[i] in owned
        decreases |free| - j
      {
        var temp := ReadNext(prealloc);
        Free(prealloc);
        prealloc := temp;
        j := j + 1;
      }
      handle := false;
    }
  }

  /** `max_size` 0 is refused, and the handle itself may not be obtained. */
  method Create(maxSize: uint32, memory: bool) returns (list: List?)
    ensures list == null <==> maxSize == 0 || !memory
    ensures list != null ==> fresh(list) && fresh(list.head) && fresh(list.tail)
    ensures list != null ==> list.Valid() && list.owned == {} && list.View() == Empty(maxSize as nat)
  {
    if !(maxSize > 0) {
      return null;
    }
    if !memory {
      return null;
    }
    list := new List(maxSize as nat);
  }

  /** One call of the interface, dispatched. */
  method Call(list: List, op: Op) returns (answer: Answer)
    requires list.Valid()
    modifies list, list.head, list.tail, list.owned
    ensures list.Valid() && fresh(list.owned - old(list.owned))
    ensures list.View() == Step(old(list.View()), op)
    ensures answer == Reply(old(list.View()), op)
  {
    match op
    case PushFront(data, memory) =>
      var ok := list.PushFront(data, memory);
      answer := Flag(ok);
    case PushBack(data, memory) =>
      var ok := list.PushBack(data, memory);
      answer := Flag(ok);
    case Insert(index, data, memory) =>
      var ok := list.Insert(index, data, memory);
      answer := Flag(ok);
    case PopFront =>
      var data := list.PopFront();
      answer := Data(data);
    case PopBack =>
      var data := list.PopBack();
      answer := Data(data);
    case RemoveIf(cmp) =>
      var data := list.RemoveIf(cmp);
      answer := Data(data);
    case Remove(target) =>
      var data := list.Remove(target);
      answer := Data(data);
    case Clear =>
      list.Clear();
      answer := Nothing;
    case Front =>
      var data := list.Front();
      answer := Data(data);
    case Back =>
      var data := list.Back();
      answer := Data(data);
    case GetAt(index) =>
      var data := list.GetAt(index);
      answer := Data(data);
    case FindIf(cmp) =>
      var data := list.FindIf(cmp);
      answer := Data(data);
    case Contain(target) =>
      var found := list.Contain(target);
      answer := Flag(found);
  }

  /** Every run of calls on the linked structure is the run of the sequence model: the same
      answers, the same contents, the same number of nodes; and the structure stays intact. */
  method Replay(list: List, ops: seq<Op>) returns (answers: seq<Answer>)
    requires list.Valid()
    modifies list, list.head, list.tail, list.owned
    ensures list.Valid() && fresh(list.owned - old(list.owned))
    ensures list.View() == Run(old(list.View()), ops)
    ensures answers == Replies(old(list.View()), ops)
  {
    answers := [];
    for i := 0 to |ops|
      invariant list.Valid() && fresh(list.owned - old(list.owned))
      invariant list.View() == Run(old(list.View()), ops[..i])
      invariant answers == Replies(old(list.View()), ops[..i])
    {
      assert ops[..i + 1] == ops[..i] + [ops[i]];
      RunAppend(old(list.View()), ops[..i], [ops[i]]);
      assert Replies(list.View(), [ops[i]]) == [Reply(list.View(), ops[i])];
      assert Run(list.View(), [ops[i]]) == Step(list.View(), ops[i]);
      var answer := Call(list, ops[i]);
      answers := answers + [answer];
    }
    assert ops[..|ops|] == ops;
  }

  /** From creation on, whatever is called, the nodes on the heap number exactly the peak size
      of the run, at most `max_size`. */
  method CreateAndReplay(maxSize: uint32, ops: seq<Op>) returns (list: List, answers: seq<Answer>)
    requires maxSize > 0
    ensures list.Valid() && answers == Replies(Empty(maxSize as nat), ops)
    ensures list.View() == Run(Empty(maxSize as nat), ops)
    ensures |list.owned| == Peak(Empty(maxSize as nat), ops) <= maxSize as nat
  {
    list := new List(maxSize as nat);
    answers := Replay(list, ops);
    NodesArePartitioned(list);
    AllocatedIsPeak(maxSize as nat, ops);
  }

  // ----- what the invariant means --------------------------------------------------------

  /** The nodes met from `n` by following `next` until `stop` or NULL, at most `limit` of them. */
  ghost function WalkNext(n: Node?, stop: Node, limit: nat, frame: set<Node>): seq<Node>
    reads frame
  {
    if limit == 0 || n == null || n == stop || n !in frame then []
    else [n] + WalkNext(n.next, stop, limit - 1, frame)
  }

  ghost function WalkPrev(n: Node?, stop: Node, limit: nat, frame: set<Node>): seq<Node>
    reads frame
  {
    if limit == 0 || n == null || n == stop || n !in frame then []
    else [n] + WalkPrev(n.prev, stop, limit - 1, frame)
  }

  lemma {:induction false} WalkNextFollows(list: List, k: nat, limit: nat)
    requires list.Valid() && 0 < k < |list.chain| && limit >= |list.chain| - 1 - k
    ensures WalkNext(list.chain[k], list.tail, limit, list.owned) == list.chain[k..|list.chain| - 1]
    decreases |list.chain| - k
  {
    if k < |list.chain| - 1 {
      WalkNextFollows(list, k + 1, limit - 1);
    }
  }

  lemma {:induction false} WalkPrevFollows(list: List, k: nat, limit: nat)
    requires list.Valid() && k < |list.chain| - 1 && limit >= k
    ensures WalkPrev(list.chain[k], list.head, limit, list.owned) == Reverse(list.chain[1..k + 1])
  {
    if k > 0 {
      WalkPrevFollows(list, k - 1, limit - 1);
      assert list.chain[1..k + 1][..k - 1] == list.chain[1..k];
    }
  }

  /** The forward walk meets exactly `count` nodes and ends at the tail sentinel; the backward
      walk meets the same nodes in exactly the opposite order. No bound on the walks above
      `count` changes that, so neither chain has a cycle. */
  lemma ChainsMirror(list: List, limit: nat)
    requires list.Valid() && limit >= list.count
    ensures var forward := WalkNext(list.head.next, list.tail, limit, list.owned);
            && |forward| == list.count
            && (forall i :: 0 <= i < |forward| ==> forward[i].data == list.items[i])
            && WalkPrev(list.tail.prev, list.head, limit, list.owned) == Reverse(forward)
  {
    WalkNextFollows(list, 1, limit);
    WalkPrevFollows(list, |list.chain| - 2, limit);
  }

  lemma {:induction false} CountDistinct(s: seq<Node>, t: set<Node>)
    requires Distinct(s) && (forall i :: 0 <= i < |s| ==> s[i] in t)
    ensures |s| <= |t| && (|s| == |t| ==> forall n :: n in t ==> n in s)
  {
    if s != [] {
      var last := s[|s| - 1];
      var rest := s[..|s| - 1];
      CountDistinct(rest, t - {last});
      assert forall n :: n in s <==> n in rest || n == last;
    }
  }

  /** Every node ever allocated and not freed is in use or waiting for reuse, never both. */
  lemma NodesArePartitioned(list: List)
    requires list.Valid()
    ensures forall n :: n in list.owned <==> n in list.chain[1..|list.chain| - 1] || n in list.free
    ensures forall n :: n in list.chain[1..|list.chain| - 1] ==> n !in list.free
    ensures |list.owned| == list.View().Allocated()
  {
    var used := list.chain[1..|list.chain| - 1];
    CountDistinct(used + list.free, list.owned);
    assert forall n :: n in used + list.free <==> n in used || n in list.free;
  }
}
