/** The string map as its callers see it: an ordered association list and the optional filter.

    Every call carries a `luck`: `luck(i)` says whether the i-th request it makes of the
    allocator is granted. The lemmas hold for every luck of every call, so for every schedule
    of allocation failures. */
module MapModel {
  import opened Prelude

  type Entry = (string, string)

  /** A callback: 0 accepts the pair, anything else rejects it. */
  type Filter = (string, string) -> int

  datatype Result = MAP_OK | MAP_ERROR | MAP_KEYEXISTS | MAP_KEYNOTFOUND | MAP_FILTER_REJECT

  datatype State = State(entries: seq<Entry>, filter: Option<Filter>)
  {
    predicate Rejects(key: string, value: string) {
      filter.Some? && (filter.value)(key, value) != 0
    }

    /** Whatever is stored passes the filter in force, if any. */
    ghost predicate Filtered() {
      forall i :: 0 <= i < |entries| ==> !Rejects(entries[i].0, entries[i].1)
    }

    ghost predicate KeysDistinct() {
      forall i, j :: 0 <= i < j < |entries| ==> entries[i].0 != entries[j].0
    }
  }

  datatype Op =
    | Add(key: string, value: string, luck: Luck)
    | AddOrUpdate(key: string, value: string, luck: Luck)
    | Delete(key: string, luck: Luck)
    | ContainsKey(key: string)
    | ContainsValue(value: string)
    | GetValueFromKey(key: string)

  datatype Answer = Code(code: Result) | Exists(found: bool) | Value(text: Option<string>)

  /** The position of the first entry with this key, or the length if there is none. */
  function FindKey(entries: seq<Entry>, key: string): (k: nat)
    ensures k <= |entries|
    ensures forall i :: 0 <= i < k ==> entries[i].0 != key
    ensures k < |entries| ==> entries[k].0 == key
  {
    if entries == [] then 0
    else if entries[0].0 == key then 0
    else FindKey(entries[1..], key) + 1
  }

  lemma FindKeyIsUnique(entries: seq<Entry>, key: string, k: nat)
    requires k <= |entries|
    requires forall i :: 0 <= i < k ==> entries[i].0 != key
    requires k < |entries| ==> entries[k].0 == key
    ensures FindKey(entries, key) == k
  {
  }

  predicate HasKey(entries: seq<Entry>, key: string) {
    FindKey(entries, key) < |entries|
  }

  predicate HasValue(entries: seq<Entry>, value: string) {
    exists i :: 0 <= i < |entries| && entries[i].1 == value
  }

  /** Two array extensions, then two string copies. Once the arrays have grown, a failure
      shrinks them again, and shrinking to nothing also forgets the filter. */
  function Insert(s: State, key: string, value: string, luck: Luck): State {
    if luck(0) && luck(1) then
      if luck(2) && luck(3) then s.(entries := s.entries + [(key, value)])
      else if s.entries == [] then State([], None)
      else s
    else s
  }

  function InsertCode(luck: Luck): Result {
    if luck(0) && luck(1) && luck(2) && luck(3) then MAP_OK else MAP_ERROR
  }

  function Without<T>(s: seq<T>, k: nat): seq<T>
    requires k < |s|
  {
    s[..k] + s[k + 1..]
  }

  function Step(s: State, op: Op): State {
    match op
    case Add(key, value, luck) =>
      if HasKey(s.entries, key) || s.Rejects(key, value) then s else Insert(s, key, value, luck)
    case AddOrUpdate(key, value, luck) =>
      if s.Rejects(key, value) then s
      else if !HasKey(s.entries, key) then Insert(s, key, value, luck)
      else if luck(0) then s.(entries := s.entries[FindKey(s.entries, key) := (key, value)])
      else s
    case Delete(key, _) =>
      if !HasKey(s.entries, key) then s
      else
        var left := Without(s.entries, FindKey(s.entries, key));
        State(left, if left == [] then None else s.filter)
    case _ => s
  }

  function Reply(s: State, op: Op): Answer {
    match op
    case Add(key, value, luck) =>
      Code(if HasKey(s.entries, key) then MAP_KEYEXISTS
           else if s.Rejects(key, value) then MAP_FILTER_REJECT
           else InsertCode(luck))
    case AddOrUpdate(key, value, luck) =>
      Code(if s.Rejects(key, value) then MAP_FILTER_REJECT
           else if !HasKey(s.entries, key) then InsertCode(luck)
           else if luck(0) then MAP_OK else MAP_ERROR)
    case Delete(key, _) => Code(if HasKey(s.entries, key) then MAP_OK else MAP_KEYNOTFOUND)
    case ContainsKey(key) => Exists(HasKey(s.entries, key))
    case ContainsValue(value) => Exists(HasValue(s.entries, value))
    case GetValueFromKey(key) =>
      Value(if HasKey(s.entries, key) then Some(s.entries[FindKey(s.entries, key)].1) else None)
  }

  /** A clone keeps the filter only when there is something to clone. */
  function CloneOf(s: State): State {
    if s.entries == [] then State([], None) else s
  }

  // ----- runs ----------------------------------------------------------------------------

  function Run(s: State, ops: seq<Op>): State
    decreases ops
  {
    if ops == [] then s else Run(Step(s, ops[0]), ops[1..])
  }

  function Replies(s: State, ops: seq<Op>): (r: seq<Answer>)
    ensures |r| == |ops|
    decreases ops
  {
    if ops == [] then [] else [Reply(s, ops[0])] + Replies(Step(s, ops[0]), ops[1..])
  }

  lemma {:induction false} RunAppend(s: State, a: seq<Op>, b: seq<Op>)
    ensures Run(s, a + b) == Run(Run(s, a), b)
    ensures Replies(s, a + b) == Replies(s, a) + Replies(Run(s, a), b)
    decreases a
  {
    if a == [] {
      assert a + b == b;
    } else {
      assert (a + b)[0] == a[0] && (a + b)[1..] == a[1..] + b;
      RunAppend(Step(s, a[0]), a[1..], b);
    }
  }

  lemma RunSnoc(s: State, ops: seq<Op>, op: Op)
    ensures Run(s, ops + [op]) == Step(Run(s, ops), op)
    ensures Replies(s, ops + [op]) == Replies(s, ops) + [Reply(Run(s, ops), op)]
  {
    RunAppend(s, ops, [op]);
    var t := Run(s, ops);
    assert [op][1..] == [];
    assert Run(t, [op]) == Step(t, op) && Replies(t, [op]) == [Reply(t, op)];
  }

  // ----- keys stay distinct, stored pairs stay filtered ----------------------------------

  lemma StepKeepsKeysDistinct(s: State, op: Op)
    requires s.KeysDistinct()
    ensures Step(s, op).KeysDistinct()
  {
    if op.Delete? && HasKey(s.entries, op.key) {
      var k := FindKey(s.entries, op.key);
      var t := Without(s.entries, k);
      assert forall i :: 0 <= i < |t| ==> t[i] == s.entries[if i < k then i else i + 1];
    }
  }

  lemma StepKeepsFiltered(s: State, op: Op)
    requires s.Filtered()
    ensures Step(s, op).Filtered()
  {
    if op.Delete? && HasKey(s.entries, op.key) {
      var k := FindKey(s.entries, op.key);
      var t := Without(s.entries, k);
      assert forall i :: 0 <= i < |t| ==> t[i] == s.entries[if i < k then i else i + 1];
    }
  }

  /** The calls that forget the filter: deleting the last entry, and an insertion into the
      empty map that gets room for the arrays but not for both strings. */
  predicate DropsFilter(s: State, op: Op) {
    match op
    case Add(key, value, luck) =>
      s.entries == [] && !s.Rejects(key, value) && luck(0) && luck(1) && !(luck(2) && luck(3))
    case AddOrUpdate(key, value, luck) =>
      s.entries == [] && !s.Rejects(key, value) && luck(0) && luck(1) && !(luck(2) && luck(3))
    case Delete(key, _) => |s.entries| == 1 && s.entries[0].0 == key
    case _ => false
  }

  /** The filter is never replaced; it is dropped by exactly those calls, each of which leaves
      the map empty. */
  lemma FilterDroppedExactlyWhen(s: State, op: Op)
    requires s.filter.Some?
    ensures Step(s, op) == State([], None) <==> DropsFilter(s, op)
    ensures Step(s, op).filter == if DropsFilter(s, op) then None else s.filter
  {
    hide FindKey;
  }

  predicate RunDropsFilter(s: State, ops: seq<Op>)
    decreases ops
  {
    ops != [] && (DropsFilter(s, ops[0]) || RunDropsFilter(Step(s, ops[0]), ops[1..]))
  }

  lemma {:induction false} NoFilterStays(s: State, ops: seq<Op>)
    requires s.filter == None
    ensures Run(s, ops).filter == None
    decreases ops
  {
    if ops != [] {
      NoFilterStays(Step(s, ops[0]), ops[1..]);
    }
  }

  /** A filter given at creation is still in force after a run exactly when no call of the run
      dropped it. */
  lemma {:induction false} FilterInForceExactlyWhen(s: State, ops: seq<Op>)
    requires s.filter.Some?
    ensures Run(s, ops).filter == s.filter <==> !RunDropsFilter(s, ops)
    decreases ops
  {
    if ops != [] {
      FilterDroppedExactlyWhen(s, ops[0]);
      if DropsFilter(s, ops[0]) {
        NoFilterStays(Step(s, ops[0]), ops[1..]);
      } else {
        FilterInForceExactlyWhen(Step(s, ops[0]), ops[1..]);
      }
    }
  }

  /** So the promise that a filtered map refuses every rejected pair does not survive one
      failed insertion: here the filter admits only the key "a", its copy finds no memory, and
      then "b" is stored. */
  lemma FilterCanBeLost()
    ensures exists filter: Filter, ops ::
      && filter("b", "") != 0
      && Reply(State([], Some(filter)), Add("b", "", (i: nat) => true)) == Code(MAP_FILTER_REJECT)
      && Replies(State([], Some(filter)), ops) == [Code(MAP_ERROR), Code(MAP_OK)]
      && Run(State([], Some(filter)), ops).entries == [("b", "")]
  {
    var filter: Filter := (key: string, value: string) => if key == "a" then 0 else 1;
    var first := Add("a", "", (i: nat) => i < 2);
    var second := Add("b", "", (i: nat) => true);
    var s := State([], Some(filter));
    assert "a" != "b" by {
      assert "a"[0] != "b"[0];
    }
    assert Step(s, first) == State([], None);
    assert [first, second][1..] == [second];
    assert FindKey([], "b") == 0;
    assert Step(State([], None), second) == State([("b", "")], None);
    assert Run(State([], None), [second]) == State([("b", "")], None);
    assert Run(s, [first, second]) == State([("b", "")], None);
    assert Replies(State([], None), [second]) == [Code(MAP_OK)];
    assert Replies(s, [first, second]) == [Code(MAP_ERROR), Code(MAP_OK)];
  }

  /** Over any run: keys stay distinct, every stored pair is accepted by the filter in force,
      and the filter in force is the one given at creation or none at all. */
  lemma {:induction false} RunSafety(s: State, ops: seq<Op>)
    requires s.KeysDistinct() && s.Filtered()
    ensures Run(s, ops).KeysDistinct() && Run(s, ops).Filtered()
    ensures Run(s, ops).filter == s.filter || Run(s, ops).filter == None
    decreases ops
  {
    if ops != [] {
      StepKeepsKeysDistinct(s, ops[0]);
      StepKeepsFiltered(s, ops[0]);
      RunSafety(Step(s, ops[0]), ops[1..]);
    }
  }

  lemma CloneKeepsSafety(s: State)
    requires s.KeysDistinct() && s.Filtered()
    ensures CloneOf(s).KeysDistinct() && CloneOf(s).Filtered()
    ensures CloneOf(s).entries == s.entries
    ensures CloneOf(s).filter == s.filter <==> s.entries != [] || s.filter == None
  {
  }

  // ----- what a filter means to the caller -----------------------------------------------

  /** A new pair is rejected exactly when there is a callback and it answers something other
      than 0; a key that is there already is not even shown to it. */
  lemma AddRejectsExactlyWhen(s: State, key: string, value: string, luck: Luck)
    ensures Reply(s, Add(key, value, luck)) == Code(MAP_FILTER_REJECT) <==>
            && (forall i :: 0 <= i < |s.entries| ==> s.entries[i].0 != key)
            && s.filter.Some? && (s.filter.value)(key, value) != 0
    ensures Reply(s, Add(key, value, luck)) == Code(MAP_FILTER_REJECT) ==> Step(s, Add(key, value, luck)) == s
  {
    var k := FindKey(s.entries, key);
    if k < |s.entries| {
      assert s.entries[k].0 == key;
    }
  }

  /** `addorupdate` shows the callback every pair, whether or not the key is there. */
  lemma AddOrUpdateRejectsExactlyWhen(s: State, key: string, value: string, luck: Luck)
    ensures Reply(s, AddOrUpdate(key, value, luck)) == Code(MAP_FILTER_REJECT) <==>
            s.filter.Some? && (s.filter.value)(key, value) != 0
    ensures Reply(s, AddOrUpdate(key, value, luck)) == Code(MAP_FILTER_REJECT) ==>
              Step(s, AddOrUpdate(key, value, luck)) == s
  {
  }

  /** From creation on, as long as a filter is in force it is the one given, and the callback
      answers 0 for every pair stored. */
  lemma StoredPairsPass(filter: Option<Filter>, ops: seq<Op>)
    ensures var t := Run(State([], filter), ops);
            t.filter.Some? ==>
              && t.filter == filter
              && forall i :: 0 <= i < |t.entries| ==> (t.filter.value)(t.entries[i].0, t.entries[i].1) == 0
  {
    var t := Run(State([], filter), ops);
    RunSafety(State([], filter), ops);
    forall i | t.filter.Some? && 0 <= i < |t.entries|
      ensures (t.filter.value)(t.entries[i].0, t.entries[i].1) == 0
    {
      assert !t.Rejects(t.entries[i].0, t.entries[i].1);
    }
  }

  // ----- how long a binding is left alone --------------------------------------------------

  /** A call that takes the binding of the key away or gives it a new value. */
  predicate Rebinds(s: State, op: Op, key: string) {
    (op.Delete? || op.AddOrUpdate?) && op.key == key && Reply(s, op) == Code(MAP_OK)
  }

  lemma SlotsStay(s: State, op: Op)
    requires !op.Delete?
    ensures var e := Step(s, op).entries;
            |s.entries| <= |e| && forall i :: 0 <= i < |s.entries| ==> e[i].0 == s.entries[i].0
  {
    hide FindKey;
  }

  /** The slot of a key that the call does not rebind. */
  lemma FindKeptKey(s: State, op: Op, key: string)
    requires HasKey(s.entries, key) && !Rebinds(s, op, key)
    ensures var e, k := Step(s, op).entries, FindKey(s.entries, key);
            && HasKey(e, key)
            && FindKey(e, key) ==
               if op.Delete? && HasKey(s.entries, op.key) && FindKey(s.entries, op.key) < k then k - 1 else k
  {
    if op.Delete? {
      if HasKey(s.entries, op.key) {
        FindOtherAfterDelete(s.entries, FindKey(s.entries, op.key), key);
      }
    } else {
      SlotsStay(s, op);
      hide Step, Rebinds, FindKey;
      FindKeyIsUnique(Step(s, op).entries, key, FindKey(s.entries, key));
    }
  }

  predicate RunRebinds(s: State, ops: seq<Op>, key: string)
    decreases ops
  {
    ops != [] && (Rebinds(s, ops[0], key) || RunRebinds(Step(s, ops[0]), ops[1..], key))
  }

  lemma {:induction false} RunRebindsSnoc(s: State, ops: seq<Op>, op: Op, key: string)
    ensures RunRebinds(s, ops + [op], key) <==> RunRebinds(s, ops, key) || Rebinds(Run(s, ops), op, key)
    decreases ops
  {
    hide Step, Rebinds;
    if ops == [] {
      assert [op][1..] == [] && [] + [op] == [op];
    } else {
      assert (ops + [op])[0] == ops[0] && (ops + [op])[1..] == ops[1..] + [op];
      RunRebindsSnoc(Step(s, ops[0]), ops[1..], op, key);
    }
  }

  // ----- the list of entries as a dictionary ---------------------------------------------

  ghost function Keys(entries: seq<Entry>): set<string> {
    set i | 0 <= i < |entries| :: entries[i].0
  }

  lemma HasKeyMeansMember(entries: seq<Entry>, key: string)
    ensures HasKey(entries, key) <==> key in Keys(entries)
  {
    var k := FindKey(entries, key);
    if k < |entries| {
      assert entries[k].0 in Keys(entries);
    }
  }

  /** What each key is bound to, order forgotten. */
  ghost function Dict(entries: seq<Entry>): (d: map<string, string>)
    ensures forall key :: key in d <==> HasKey(entries, key)
    ensures forall key :: key in d ==> HasKey(entries, key) && d[key] == entries[FindKey(entries, key)].1
  {
    HasKeyMeansMemberAll(entries);
    map key | key in Keys(entries) :: entries[FindKey(entries, key)].1
  }

  lemma HasKeyMeansMemberAll(entries: seq<Entry>)
    ensures forall key :: HasKey(entries, key) <==> key in Keys(entries)
  {
    forall key ensures HasKey(entries, key) <==> key in Keys(entries) {
      HasKeyMeansMember(entries, key);
    }
  }

  lemma BoundTo(s: State, k: nat)
    requires s.KeysDistinct() && k < |s.entries|
    ensures FindKey(s.entries, s.entries[k].0) == k
  {
    FindKeyIsUnique(s.entries, s.entries[k].0, k);
  }

  lemma FindKeyAfterAppend(entries: seq<Entry>, e: Entry, key: string)
    requires !HasKey(entries, e.0)
    ensures FindKey(entries + [e], key) ==
            if HasKey(entries, key) then FindKey(entries, key)
            else if key == e.0 then |entries| else |entries| + 1
  {
    FindKeyIsUnique(entries + [e], key,
      if HasKey(entries, key) then FindKey(entries, key)
      else if key == e.0 then |entries| else |entries| + 1);
  }

  lemma FindKeyAfterUpdate(entries: seq<Entry>, e: Entry, key: string)
    requires HasKey(entries, e.0)
    ensures FindKey(entries[FindKey(entries, e.0) := e], key) == FindKey(entries, key)
  {
    FindKeyIsUnique(entries[FindKey(entries, e.0) := e], key, FindKey(entries, key));
  }

  lemma FindKeyAfterDelete(s: State, k: nat, key: string)
    requires s.KeysDistinct() && k < |s.entries|
    ensures var f := FindKey(s.entries, key);
            FindKey(Without(s.entries, k), key) ==
            if key == s.entries[k].0 then |s.entries| - 1 else if f < k then f else f - 1
  {
    var t := Without(s.entries, k);
    assert forall i :: 0 <= i < |t| ==> t[i] == s.entries[if i < k then i else i + 1];
    BoundTo(s, k);
    var f := FindKey(s.entries, key);
    FindKeyIsUnique(t, key, if key == s.entries[k].0 then |s.entries| - 1 else if f < k then f else f - 1);
  }

  lemma FindOtherAfterDelete(entries: seq<Entry>, k: nat, key: string)
    requires k < |entries| && key != entries[k].0
    ensures var f := FindKey(entries, key);
            FindKey(Without(entries, k), key) == if f < k then f else f - 1
  {
    var t := Without(entries, k);
    assert forall i :: 0 <= i < |t| ==> t[i] == entries[if i < k then i else i + 1];
    var f := FindKey(entries, key);
    FindKeyIsUnique(t, key, if f < k then f else f - 1);
  }

  lemma DictAfterAppend(entries: seq<Entry>, e: Entry)
    requires !HasKey(entries, e.0)
    ensures Dict(entries + [e]) == Dict(entries)[e.0 := e.1]
  {
    forall key ensures key in Dict(entries + [e]) <==> key in Dict(entries)[e.0 := e.1] {
      FindKeyAfterAppend(entries, e, key);
    }
    forall key | key in Dict(entries + [e])
      ensures Dict(entries + [e])[key] == Dict(entries)[e.0 := e.1][key]
    {
      FindKeyAfterAppend(entries, e, key);
    }
  }

  lemma DictAfterUpdate(entries: seq<Entry>, e: Entry)
    requires HasKey(entries, e.0)
    ensures Dict(entries[FindKey(entries, e.0) := e]) == Dict(entries)[e.0 := e.1]
  {
    var after := entries[FindKey(entries, e.0) := e];
    forall key ensures key in Dict(after) <==> key in Dict(entries)[e.0 := e.1] {
      FindKeyAfterUpdate(entries, e, key);
    }
    forall key | key in Dict(after) ensures Dict(after)[key] == Dict(entries)[e.0 := e.1][key] {
      FindKeyAfterUpdate(entries, e, key);
    }
  }

  lemma BindingAfterDelete(s: State, k: nat, key: string)
    requires s.KeysDistinct() && k < |s.entries|
    ensures var t := Without(s.entries, k);
            && (HasKey(t, key) <==> HasKey(s.entries, key) && key != s.entries[k].0)
            && (HasKey(t, key) ==> t[FindKey(t, key)].1 == s.entries[FindKey(s.entries, key)].1)
  {
    FindKeyAfterDelete(s, k, key);
    BoundTo(s, k);
  }

  lemma DictAfterDelete(s: State, k: nat)
    requires s.KeysDistinct() && k < |s.entries|
    ensures Dict(Without(s.entries, k)) == Dict(s.entries) - {s.entries[k].0}
  {
    var t := Without(s.entries, k);
    var d, e := Dict(s.entries), Dict(t);
    forall key ensures key in e <==> key in d - {s.entries[k].0} {
      BindingAfterDelete(s, k, key);
    }
    forall key | key in e ensures e[key] == d[key] {
      BindingAfterDelete(s, k, key);
    }
  }

  lemma ValueInDict(s: State, value: string)
    requires s.KeysDistinct()
    ensures HasValue(s.entries, value) <==> value in Dict(s.entries).Values
  {
    var d := Dict(s.entries);
    if HasValue(s.entries, value) {
      var i :| 0 <= i < |s.entries| && s.entries[i].1 == value;
      BoundTo(s, i);
      assert s.entries[i].0 in d && d[s.entries[i].0] == value;
    }
  }

  /** `add` binds a new key, or leaves the dictionary alone whatever was refused on the way. */
  lemma AddOnDictionary(s: State, key: string, value: string, luck: Luck)
    ensures var op := Add(key, value, luck);
            var d, e := Dict(s.entries), Dict(Step(s, op).entries);
            && (Reply(s, op) == Code(MAP_KEYEXISTS) <==> key in d)
            && (Reply(s, op) == Code(MAP_FILTER_REJECT) <==> key !in d && s.Rejects(key, value))
            && (Reply(s, op) == Code(MAP_ERROR) <==>
                  key !in d && !s.Rejects(key, value) && exists i: nat :: i < 4 && !luck(i))
            && (Reply(s, op) == Code(MAP_OK) ==> key !in d && e == d[key := value])
            && (Reply(s, op) != Code(MAP_OK) ==> e == d)
  {
    if !HasKey(s.entries, key) {
      DictAfterAppend(s.entries, (key, value));
    }
  }

  /** `addorupdate` binds the key, new or not, or leaves the dictionary alone. */
  lemma AddOrUpdateOnDictionary(s: State, key: string, value: string, luck: Luck)
    ensures var op := AddOrUpdate(key, value, luck);
            var d, e := Dict(s.entries), Dict(Step(s, op).entries);
            && (Reply(s, op) == Code(MAP_FILTER_REJECT) <==> s.Rejects(key, value))
            && (Reply(s, op) == Code(MAP_ERROR) <==>
                  !s.Rejects(key, value) && exists i: nat :: i < (if key in d then 1 else 4) && !luck(i))
            && (Reply(s, op) == Code(MAP_OK) <==>
                  !s.Rejects(key, value) && forall i: nat :: i < (if key in d then 1 else 4) ==> luck(i))
            && (Reply(s, op) == Code(MAP_OK) ==> e == d[key := value])
            && (Reply(s, op) != Code(MAP_OK) ==> e == d)
  {
    var t := Step(s, AddOrUpdate(key, value, luck)).entries;
    if Reply(s, AddOrUpdate(key, value, luck)) != Code(MAP_OK) {
      assert t == s.entries;
    } else if HasKey(s.entries, key) {
      assert t == s.entries[FindKey(s.entries, key) := (key, value)];
      DictAfterUpdate(s.entries, (key, value));
    } else {
      assert t == s.entries + [(key, value)];
      DictAfterAppend(s.entries, (key, value));
    }
  }

  /** `delete` unbinds the key and needs no memory to do so. */
  lemma DeleteOnDictionary(s: State, key: string, luck: Luck)
    requires s.KeysDistinct()
    ensures var op := Delete(key, luck);
            var d, e := Dict(s.entries), Dict(Step(s, op).entries);
            && Reply(s, op) == Code(if key in d then MAP_OK else MAP_KEYNOTFOUND)
            && e == d - {key}
  {
    if HasKey(s.entries, key) {
      DictAfterDelete(s, FindKey(s.entries, key));
    }
  }

  lemma QueriesOnDictionary(s: State, text: string)
    requires s.KeysDistinct()
    ensures var d := Dict(s.entries);
            && Reply(s, ContainsKey(text)) == Exists(text in d)
            && Reply(s, ContainsValue(text)) == Exists(text in d.Values)
            && Reply(s, GetValueFromKey(text)) == Value(if text in d then Some(d[text]) else None)
  {
    ValueInDict(s, text);
  }

  /** A new key goes behind all others, which stay where they are. */
  lemma NewKeyComesLast(s: State, op: Op)
    requires (op.Add? || op.AddOrUpdate?) && !HasKey(s.entries, op.key) && Reply(s, op) == Code(MAP_OK)
    ensures var e := Step(s, op).entries;
            && |e| == |s.entries| + 1 && FindKey(e, op.key) == |s.entries|
            && forall i :: 0 <= i < |s.entries| ==> e[i] == s.entries[i]
  {
    hide FindKey;
    assert Step(s, op).entries == s.entries + [(op.key, op.value)];
    FindKeyIsUnique(Step(s, op).entries, op.key, |s.entries|);
  }

  /** Both keys are there before and after, and in the same order. */
  ghost predicate SameOrder(before: seq<Entry>, after: seq<Entry>, a: string, b: string) {
    HasKey(before, a) && HasKey(before, b) && HasKey(after, a) && HasKey(after, b) ==>
      (FindKey(before, a) < FindKey(before, b) <==> FindKey(after, a) < FindKey(after, b))
  }

  lemma SameOrderAfterAppend(entries: seq<Entry>, e: Entry, a: string, b: string)
    requires !HasKey(entries, e.0)
    ensures SameOrder(entries, entries + [e], a, b)
  {
    FindKeyAfterAppend(entries, e, a);
    FindKeyAfterAppend(entries, e, b);
  }

  lemma SameOrderAfterDelete(s: State, k: nat, a: string, b: string)
    requires s.KeysDistinct() && k < |s.entries|
    ensures SameOrder(s.entries, Without(s.entries, k), a, b)
  {
    FindKeyAfterDelete(s, k, a);
    FindKeyAfterDelete(s, k, b);
    BoundTo(s, k);
  }

  lemma SameOrderAfterInsert(s: State, key: string, value: string, luck: Luck, a: string, b: string)
    requires !HasKey(s.entries, key)
    ensures SameOrder(s.entries, Insert(s, key, value, luck).entries, a, b)
  {
    SameOrderAfterAppend(s.entries, (key, value), a, b);
  }

  /** Keys that stay keep their order. */
  lemma StepKeepsOrder(s: State, op: Op, a: string, b: string)
    requires s.KeysDistinct()
    ensures SameOrder(s.entries, Step(s, op).entries, a, b)
  {
    var t := Step(s, op);
    if t.entries != s.entries {
      if op.Delete? {
        SameOrderAfterDelete(s, FindKey(s.entries, op.key), a, b);
      } else if HasKey(s.entries, op.key) {
        FindKeyAfterUpdate(s.entries, (op.key, op.value), a);
        FindKeyAfterUpdate(s.entries, (op.key, op.value), b);
      } else {
        SameOrderAfterInsert(s, op.key, op.value, op.luck, a, b);
      }
    }
  }
}
