/** The string map on the heap: two parallel arrays of owned strings, grown and shrunk one slot
    at a time, with every request to the allocator free to fail. */
module SkyMap {
  import opened MapModel
  import opened Prelude

  /** The allocator's books: the blocks handed out and not yet given back. */
  class Arena {
    ghost var live: set<object>

    ghost method Take(block: object)
      modifies this
      ensures live == old(live) + {block}
    {
      live := live + {block};
    }

    /** `free`: of NULL nothing, otherwise of a block that is still live. */
    ghost method Free(block: object?)
      requires block != null ==> block in live
      modifies this
      ensures live == if block == null then old(live) else old(live) - {block}
    {
      if block != null {
        live := live - {block};
      }
    }
  }

  /** A heap string, filled as soon as it is allocated and never written again. */
  class Str {
    const text: string

    constructor (text: string)
      ensures this.text == text
    {
      this.text := text;
    }
  }

  type Slots = array<Str?>
  type Slots? = array?<Str?>

  ghost function Block(slots: Slots?): set<object> {
    if slots == null then {} else {slots}
  }

  /** The first slots of an array point at the given strings, in order. */
  ghost predicate Points(slots: Slots?, s: seq<Str>)
    reads slots
  {
    && (slots == null ==> s == [])
    && (slots != null ==> |s| <= slots.Length && forall i :: 0 <= i < |s| ==> slots[i] == s[i])
  }

  ghost predicate Distinct(s: seq<Str>) {
    forall i, j :: 0 <= i < j < |s| ==> s[i] != s[j]
  }

  /** `strings` are the key strings and the value strings, each of them once. */
  ghost predicate Inked(strings: set<Str>, ks: seq<Str>, vs: seq<Str>) {
    && Distinct(ks) && Distinct(vs)
    && (forall s :: s in ks ==> s in strings && s !in vs)
    && (forall s :: s in vs ==> s in strings)
    && (forall s :: s in strings ==> s in ks || s in vs)
  }

  lemma InkedGrowsByKey(strings: set<Str>, ks: seq<Str>, vs: seq<Str>, k: Str)
    requires Inked(strings, ks, vs) && k !in strings
    ensures Inked(strings + {k}, ks + [k], vs)
  {
  }

  lemma InkedDropsKey(strings: set<Str>, ks: seq<Str>, vs: seq<Str>, k: nat)
    requires Inked(strings, ks, vs) && k < |ks|
    ensures ks[k] in strings && Inked(strings - {ks[k]}, Without(ks, k), vs)
  {
    assert ks == ks[..k] + [ks[k]] + ks[k + 1..];
  }

  lemma InkedDropsValue(strings: set<Str>, ks: seq<Str>, vs: seq<Str>, k: nat)
    requires Inked(strings, ks, vs) && k < |vs|
    ensures vs[k] in strings && Inked(strings - {vs[k]}, ks, Without(vs, k))
  {
    assert vs == vs[..k] + [vs[k]] + vs[k + 1..];
  }

  lemma InkedJoins(keyStrings: set<Str>, valueStrings: set<Str>, ks: seq<Str>, vs: seq<Str>)
    requires Inked(keyStrings, ks, []) && Inked(valueStrings, vs, []) && keyStrings !! valueStrings
    ensures Inked(keyStrings + valueStrings, ks, vs)
  {
  }

  lemma InkedReplaces(strings: set<Str>, ks: seq<Str>, vs: seq<Str>, k: nat, v: Str)
    requires Inked(strings, ks, vs) && k < |vs| && v !in strings
    ensures vs[k] in strings && Inked(strings - {vs[k]} + {v}, ks, vs[k := v])
  {
    forall s | s in vs && s != vs[k] ensures s in vs[k := v] {
      var i :| 0 <= i < |vs| && vs[i] == s;
      assert vs[k := v][i] == s;
    }
    assert vs[k := v][k] == v;
  }

  lemma InkedGrows(strings: set<Str>, ks: seq<Str>, vs: seq<Str>, k: Str, v: Str)
    requires Inked(strings, ks, vs) && k !in strings && v !in strings && k != v
    ensures Inked(strings + {k, v}, ks + [k], vs + [v])
  {
  }

  ghost predicate Spells(ks: seq<Str>, vs: seq<Str>, entries: seq<Entry>) {
    && |ks| == |vs| == |entries|
    && forall i :: 0 <= i < |entries| ==> entries[i] == (ks[i].text, vs[i].text)
  }

  lemma SpellsWithout(ks: seq<Str>, vs: seq<Str>, entries: seq<Entry>, k: nat)
    requires Spells(ks, vs, entries) && k < |entries|
    ensures k < |ks| == |vs| && Spells(Without(ks, k), Without(vs, k), Without(entries, k))
  {
  }

  /** What a call does to the strings that hold the values, `was` before it and `now` after:
      only one that is deleted or updated is given up. */
  ghost predicate Carried(s: State, op: Op, was: seq<Str>, now: seq<Str>)
    requires |was| == |s.entries|
  {
    match op
    case AddOrUpdate(key, _, _) =>
      if HasKey(s.entries, key) && Reply(s, op) == Code(MAP_OK) then
        |now| == |was| && forall i :: 0 <= i < |was| && i != FindKey(s.entries, key) ==> now[i] == was[i]
      else was <= now
    case Delete(key, _) =>
      now == if HasKey(s.entries, key) then Without(was, FindKey(s.entries, key)) else was
    case _ => was <= now
  }

  lemma WithoutAt(s: seq<Str>, d: nat, k: nat)
    requires d < |s| && k < |s| && d != k
    ensures |Without(s, d)| == |s| - 1 && Without(s, d)[if d < k then k - 1 else k] == s[k]
  {
  }

  /** A key that the call does not rebind keeps its value string. */
  lemma HolderStays(s: State, op: Op, was: seq<Str>, now: seq<Str>, key: string)
    requires |was| == |s.entries| && |now| == |Step(s, op).entries| && Carried(s, op, was, now)
    requires HasKey(s.entries, key) && !Rebinds(s, op, key)
    ensures var e := Step(s, op).entries;
            HasKey(e, key) && now[FindKey(e, key)] == was[FindKey(s.entries, key)]
  {
    FindKeptKey(s, op, key);
    hide Step, Reply, FindKey, Without;
    if op.Delete? && HasKey(s.entries, op.key) {
      WithoutAt(was, FindKey(s.entries, op.key), FindKey(s.entries, key));
    }
  }

  /** What is left of the luck once `n` requests have been made. */
  function After(luck: Luck, n: nat): Luck {
    (i: nat) => luck(n + i)
  }

  /** `mallocandstrcpy_s`. */
  method MallocAndStrcpy(ghost arena: Arena, source: string, granted: bool) returns (copy: Str?)
    modifies arena
    ensures copy != null <==> granted
    ensures copy == null ==> arena.live == old(arena.live)
    ensures copy != null ==>
      fresh(copy) && copy.text == source && copy !in old(arena.live) && arena.live == old(arena.live) + {copy}
  {
    if !granted {
      return null;
    }
    copy := new Str(source);
    arena.Take(copy);
  }

  /** `realloc` of a pointer array to `n` slots: it moves with its contents `s`, or fails and
      leaves the old one. */
  method Realloc(ghost arena: Arena, slots: Slots?, n: nat, granted: bool, ghost s: seq<Str>) returns (moved: Slots?)
    requires slots != null ==> slots in arena.live
    requires Points(slots, s) && |s| <= n
    modifies arena
    ensures moved != null <==> granted
    ensures moved == null ==> arena.live == old(arena.live)
    ensures moved != null ==>
      && fresh(moved) && moved !in old(arena.live) && moved.Length == n && Points(moved, s)
      && arena.live == old(arena.live) - Block(slots) + {moved}
  {
    if !granted {
      return null;
    }
    moved := new Str?[n](i reads slots => if slots != null && 0 <= i < slots.Length then slots[i] else null);
    arena.Free(slots);
    arena.Take(moved);
  }

  /** `memmove` of the slots after `index` down by one. */
  method CloseGap(slots: Slots, index: nat, n: nat, ghost s: seq<Str>)
    requires Points(slots, s) && index < n == |s|
    modifies slots
    ensures Points(slots, Without(s, index))
  {
    forall i | index <= i < n - 1 {
      slots[i] := slots[i + 1];
    }
  }

  /** `realloc` of a value string and `memcpy` of the new text into it. */
  method ReallocAndCopy(ghost arena: Arena, was: Str, source: string, granted: bool) returns (copy: Str?)
    requires was in arena.live
    modifies arena
    ensures copy != null <==> granted
    ensures copy == null ==> arena.live == old(arena.live)
    ensures copy != null ==>
      && fresh(copy) && copy.text == source && copy !in old(arena.live)
      && arena.live == old(arena.live) - {was} + {copy}
  {
    if !granted {
      return null;
    }
    copy := new Str(source);
    arena.Free(was);
    arena.Take(copy);
  }

  class Map {
    ghost const arena: Arena
    var keys: Slots?
    var values: Slots?
    var count: nat
    var filter: Option<Filter>

    ghost var entries: seq<Entry>
    /** The key strings and the value strings, entry by entry, and all of them together. */
    ghost var ks: seq<Str>
    ghost var vs: seq<Str>
    ghost var strings: set<Str>

    ghost predicate Valid()
      reads this, keys, values, arena
    {
      && Stored() && count == |entries|
      && (count == 0 <==> keys == null) && (count == 0 <==> values == null)
    }

    /** The invariant without `count`, which runs ahead of the entries while a call is under
        way. An array may be longer than needed: a refused shrink leaves it so. */
    ghost predicate Stored()
      reads this, keys, values, arena
    {
      && Blocks() <= arena.live && (keys != null ==> keys != values)
      && Inked(strings, ks, vs) && Spells(ks, vs, entries)
      && Points(keys, ks) && Points(values, vs)
    }

    /** Every block this map is answerable for: its handle, its arrays, its strings. */
    ghost function Blocks(): set<object>
      reads this
    {
      {this} + Block(keys) + Block(values) + strings
    }

    /** The live blocks that are somebody else's. */
    ghost function Others(): set<object>
      reads this, arena
    {
      arena.live - Blocks()
    }

    ghost function View(): State
      reads this
    {
      State(entries, filter)
    }

    /** The string that holds the value of the key, if there is one. */
    ghost function Holder(key: string): Str?
      requires |vs| == |entries|
      reads this
    {
      if HasKey(entries, key) then vs[FindKey(entries, key)] else null
    }

    constructor (filter: Option<Filter>, ghost arena: Arena)
      modifies arena
      ensures this.arena == arena && View() == State([], filter)
      ensures Valid() && Blocks() == {this} && arena.live == old(arena.live) + {this}
    {
      this.arena := arena;
      this.filter := filter;
      keys, values, count := null, null, 0;
      entries, ks, vs, strings := [], [], [], {};
      new;
      arena.Take(this);
    }

    /** Cloned arrays put into a new, still empty map. */
    method Install(filter: Option<Filter>, count: nat, keys: Slots, values: Slots,
                   ghost ks: seq<Str>, ghost vs: seq<Str>, ghost strings: set<Str>, ghost entries: seq<Entry>)
      requires Valid() && this.entries == [] && count == |entries| > 0
      requires keys != values && Points(keys, ks) && Points(values, vs)
      requires Inked(strings, ks, vs) && Spells(ks, vs, entries)
      requires {keys} + {values} + strings <= arena.live
      modifies this
      ensures Valid() && View() == State(entries, filter)
      ensures Blocks() == {this} + {keys} + {values} + strings
    {
      this.filter, this.count, this.keys, this.values := filter, count, keys, values;
      this.ks, this.vs, this.strings, this.entries := ks, vs, strings, entries;
    }

    /** `realloc` of `keys`, kept when it succeeds. */
    method ResizeKeys(n: nat, granted: bool) returns (ok: bool)
      requires Stored() && n >= |entries|
      modifies this`keys, arena
      ensures ok <==> granted
      ensures Stored() && Others() == old(Others())
      ensures if ok then keys != null && fresh(keys) && keys.Length == n else keys == old(keys)
    {
      var moved := Realloc(arena, keys, n, granted, ks);
      if moved == null {
        return false;
      }
      keys := moved;
      return true;
    }

    /** `realloc` of `values`, kept when it succeeds. */
    method ResizeValues(n: nat, granted: bool) returns (ok: bool)
      requires Stored() && n >= |entries|
      modifies this`values, arena
      ensures ok <==> granted
      ensures Stored() && Others() == old(Others())
      ensures if ok then values != null && fresh(values) && values.Length == n else values == old(values)
    {
      var moved := Realloc(arena, values, n, granted, vs);
      if moved == null {
        return false;
      }
      values := moved;
      return true;
    }

    /** `free` of the emptied `keys`, then NULL in its place. */
    method FreeKeys()
      requires Stored() && entries == []
      modifies this`keys, arena
      ensures Stored() && Others() == old(Others()) && keys == null
    {
      arena.Free(keys);
      keys := null;
    }

    method FreeValues()
      requires Stored() && entries == []
      modifies this`values, arena
      ensures Stored() && Others() == old(Others()) && values == null
    {
      arena.Free(values);
      values := null;
    }

    /** One more slot in both arrays, both or neither: a half-done extension is undone as far
        as the allocator allows. */
    method IncreaseStorage(luck: Luck) returns (ok: bool)
      requires Valid()
      modifies this`keys, this`values, this`count, arena
      ensures ok <==> luck(0) && luck(1)
      ensures Stored() && Others() == old(Others())
      ensures keys == old(keys) || keys == null || fresh(keys)
      ensures !ok ==> Valid() && values == old(values)
      ensures ok ==>
        && count == |entries| + 1 && keys != null && values != null
        && fresh(keys) && fresh(values) && keys.Length == values.Length == count
    {
      ok := ResizeKeys(count + 1, luck(0));
      if !ok {
        return;
      }
      keys[count] := null;
      ok := ResizeValues(count + 1, luck(1));
      if !ok {
        if count == 0 {
          FreeKeys();
        } else {
          var _ := ResizeKeys(count, luck(2));
        }
        return;
      }
      values[count] := null;
      count := count + 1;
    }

    /** One slot fewer in both arrays. From one entry to none, the arrays are given back and
        the filter is forgotten. */
    method DecreaseStorage(luck: Luck)
      requires Stored() && count == |entries| + 1 && keys != null && values != null
      modifies this`keys, this`values, this`count, this`filter, arena
      ensures Valid() && Others() == old(Others())
      ensures keys == old(keys) || keys == null || fresh(keys)
      ensures values == old(values) || values == null || fresh(values)
      ensures filter == if entries == [] then None else old(filter)
    {
      if count == 1 {
        FreeKeys();
        FreeValues();
        count := 0;
        filter := None;
      } else {
        var _ := ResizeKeys(count - 1, luck(0));
        var _ := ResizeValues(count - 1, luck(1));
        count := count - 1;
      }
    }

    /** The two strings just written to the last slots become an entry. */
    ghost method Adopt(k: Str, v: Str)
      requires Stored() && count == |entries| + 1 && keys != null && values != null
      requires count <= keys.Length && count <= values.Length
      requires keys[count - 1] == k && values[count - 1] == v && k != v
      requires k in Others() && v in Others()
      modifies this`entries, this`ks, this`vs, this`strings
      ensures Valid() && entries == old(entries) + [(k.text, v.text)] && vs == old(vs) + [v]
      ensures strings == old(strings) + {k, v} && Others() == old(Others()) - {k, v}
    {
      InkedGrows(strings, ks, vs, k, v);
      entries, ks, vs, strings := entries + [(k.text, v.text)], ks + [k], vs + [v], strings + {k, v};
    }

    /** `mallocandstrcpy_s` into the last slot of `keys`, which stays as it is on failure. */
    method CopyKey(key: string, granted: bool) returns (k: Str?)
      requires Stored() && count == |entries| + 1 && keys != null && count <= keys.Length
      modifies keys, arena
      ensures Stored() && (k != null <==> granted)
      ensures k == null ==> Others() == old(Others())
      ensures k != null ==>
        && k.text == key && fresh(k) && k !in Blocks() && k !in old(Others()) && keys[count - 1] == k
        && Others() == old(Others()) + {k}
    {
      k := MallocAndStrcpy(arena, key, granted);
      if k != null {
        keys[count - 1] := k;
      }
    }

    method CopyValue(value: string, granted: bool) returns (v: Str?)
      requires Stored() && count == |entries| + 1 && values != null && count <= values.Length
      modifies values, arena
      ensures Stored() && (v != null <==> granted)
      ensures v == null ==> Others() == old(Others())
      ensures v != null ==>
        && v.text == value && fresh(v) && v !in Blocks() && v !in old(Others()) && values[count - 1] == v
        && Others() == old(Others()) + {v}
    {
      v := MallocAndStrcpy(arena, value, granted);
      if v != null {
        values[count - 1] := v;
      }
    }

    /** The second half of `insertNewKeyValue`: a failure part-way gives back whatever was
        obtained. */
    method StoreCopies(key: string, value: string, luck: Luck) returns (ok: bool)
      requires Stored() && count == |entries| + 1 && keys != null && values != null
      requires count <= keys.Length && count <= values.Length
      modifies this, keys, values, arena
      ensures Valid() && Others() == old(Others())
      ensures keys == old(keys) || keys == null || fresh(keys)
      ensures values == old(values) || values == null || fresh(values)
      ensures fresh(strings - old(strings)) && old(vs) <= vs
      ensures ok <==> luck(2) && luck(3)
      ensures entries == old(entries) + if ok then [(key, value)] else []
      ensures filter == if entries == [] then None else old(filter)
    {
      hide Inked, Spells, Points;
      ghost var others := Others();
      var k := CopyKey(key, luck(2));
      if k == null {
        DecreaseStorage(After(luck, 3));
        return false;
      }
      var v := CopyValue(value, luck(3));
      if v == null {
        arena.Free(keys[count - 1]);
        assert Others() == others;
        DecreaseStorage(After(luck, 4));
        return false;
      }
      Adopt(k, v);
      assert Others() == others;
      return true;
    }

    method InsertNewKeyValue(key: string, value: string, luck: Luck) returns (ok: bool)
      requires Valid()
      modifies this, arena
      ensures Valid() && Others() == old(Others()) && fresh(Blocks() - old(Blocks()))
      ensures View() == Insert(old(View()), key, value, luck) && old(vs) <= vs
      ensures ok <==> InsertCode(luck) == MAP_OK
    {
      ok := IncreaseStorage(luck);
      if ok {
        ok := StoreCopies(key, value, luck);
      }
    }

    /** The position of the key, or none for NULL. */
    method FindKeySlot(key: string) returns (slot: Option<nat>)
      requires Valid()
      ensures slot == if HasKey(entries, key) then Some(FindKey(entries, key)) else None
    {
      slot := None;
      if keys == null {
        return;
      }
      for i := 0 to count
        invariant slot == None
        invariant forall j :: 0 <= j < i ==> entries[j].0 != key
      {
        if keys[i].text == key {
          FindKeyIsUnique(entries, key, i);
          return Some(i);
        }
      }
      FindKeyIsUnique(entries, key, count);
    }

    method FindValueSlot(value: string) returns (slot: Option<nat>)
      requires Valid()
      ensures slot.Some? <==> HasValue(entries, value)
      ensures slot.Some? ==> slot.value < |entries| && entries[slot.value].1 == value
    {
      slot := None;
      if values == null {
        return;
      }
      for i := 0 to count
        invariant slot == None
        invariant forall j :: 0 <= j < i ==> entries[j].1 != value
      {
        if values[i].text == value {
          return Some(i);
        }
      }
    }

    /** `mapFilterCallback != NULL && mapFilterCallback(key, value) != 0`. */
    function Refuses(key: string, value: string): bool
      reads this`filter
    {
      filter.Some? && (filter.value)(key, value) != 0
    }

    method AddEntry(key: string, value: string, luck: Luck) returns (result: Result)
      requires Valid()
      modifies this, arena
      ensures Valid() && Others() == old(Others()) && fresh(Blocks() - old(Blocks()))
      ensures View() == Step(old(View()), Add(key, value, luck)) && old(vs) <= vs
      ensures Code(result) == Reply(old(View()), Add(key, value, luck))
    {
      var whereIsIt := FindKeySlot(key);
      if whereIsIt != None {
        return MAP_KEYEXISTS;
      }
      if Refuses(key, value) {
        return MAP_FILTER_REJECT;
      }
      var ok := InsertNewKeyValue(key, value, luck);
      return if ok then MAP_OK else MAP_ERROR;
    }

    /** The branch of `addorupdate` that overwrites the value at `index`. */
    method Overwrite(index: nat, value: string, granted: bool) returns (ok: bool)
      requires Valid() && index < count
      modifies this`entries, this`vs, this`strings, values, arena
      ensures Valid() && Others() == old(Others()) && fresh(Blocks() - old(Blocks()))
      ensures ok <==> granted
      ensures entries == if ok then old(entries)[index := (old(entries)[index].0, value)] else old(entries)
      ensures |vs| == |old(vs)| && forall i :: 0 <= i < |vs| && !(ok && i == index) ==> vs[i] == old(vs)[i]
    {
      assert values[index] == vs[index];
      var newValue := ReallocAndCopy(arena, values[index], value, granted);
      if newValue == null {
        return false;
      }
      values[index] := newValue;
      InkedReplaces(strings, ks, vs, index, newValue);
      strings := strings - {vs[index]} + {newValue};
      vs := vs[index := newValue];
      entries := entries[index := (entries[index].0, value)];
      return true;
    }

    method AddOrUpdateEntry(key: string, value: string, luck: Luck) returns (result: Result)
      requires Valid()
      modifies this, values, arena
      ensures Valid() && Others() == old(Others()) && fresh(Blocks() - old(Blocks()))
      ensures View() == Step(old(View()), AddOrUpdate(key, value, luck))
      ensures Code(result) == Reply(old(View()), AddOrUpdate(key, value, luck))
      ensures Carried(old(View()), AddOrUpdate(key, value, luck), old(vs), vs)
    {
      if Refuses(key, value) {
        return MAP_FILTER_REJECT;
      }
      var whereIsIt := FindKeySlot(key);
      var ok;
      if whereIsIt == None {
        ok := InsertNewKeyValue(key, value, luck);
      } else {
        ok := Overwrite(whereIsIt.value, value, luck(0));
      }
      return if ok then MAP_OK else MAP_ERROR;
    }

    /** The strings at `index` are given back and the slots after it move down by one. */
    method Evict(index: nat)
      requires Valid() && index < count
      modifies this`entries, this`ks, this`vs, this`strings, keys, values, arena
      ensures Stored() && Others() == old(Others()) && strings <= old(strings)
      ensures entries == Without(old(entries), index) && vs == Without(old(vs), index)
    {
      hide Inked, Spells;
      SpellsWithout(ks, vs, entries, index);
      InkedDropsKey(strings, ks, vs, index);
      InkedDropsValue(strings - {ks[index]}, Without(ks, index), vs, index);
      arena.Free(keys[index]);
      arena.Free(values[index]);
      CloseGap(keys, index, count, ks);
      CloseGap(values, index, count, vs);
      strings := strings - {ks[index]} - {vs[index]};
      ks, vs, entries := Without(ks, index), Without(vs, index), Without(entries, index);
    }

    method DeleteEntry(key: string, luck: Luck) returns (result: Result)
      requires Valid()
      modifies this, keys, values, arena
      ensures Valid() && Others() == old(Others()) && fresh(Blocks() - old(Blocks()))
      ensures View() == Step(old(View()), Delete(key, luck))
      ensures Code(result) == Reply(old(View()), Delete(key, luck))
      ensures Carried(old(View()), Delete(key, luck), old(vs), vs)
    {
      var whereIsIt := FindKeySlot(key);
      if whereIsIt == None {
        return MAP_KEYNOTFOUND;
      }
      Evict(whereIsIt.value);
      DecreaseStorage(luck);
      return MAP_OK;
    }

    method ContainsKey(key: string) returns (found: bool)
      requires Valid()
      ensures Exists(found) == Reply(View(), Op.ContainsKey(key))
    {
      var whereIsIt := FindKeySlot(key);
      return whereIsIt != None;
    }

    method ContainsValue(value: string) returns (found: bool)
      requires Valid()
      ensures Exists(found) == Reply(View(), Op.ContainsValue(value))
    {
      var whereIsIt := FindValueSlot(value);
      return whereIsIt != None;
    }

    /** The stored string itself is answered, not a copy. */
    method GetValueFromKey(key: string) returns (found: Str?)
      requires Valid()
      ensures found == Holder(key) && (found != null ==> found in strings)
      ensures Value(if found == null then None else Some(found.text)) == Reply(View(), Op.GetValueFromKey(key))
    {
      var whereIsIt := FindKeySlot(key);
      if whereIsIt == None {
        return null;
      }
      return values[whereIsIt.value];
    }

    /** Every block of the map is given back exactly once, and nothing else is. */
    method Destroy()
      requires Valid()
      modifies arena
      ensures arena.live == old(Others())
    {
      ghost var rest, kRest, vRest := strings, ks, vs;
      for i := 0 to count
        invariant kRest == ks[i..] && vRest == vs[i..] && Inked(rest, kRest, vRest) && rest <= strings
        invariant arena.live == old(Others()) + {this} + Block(keys) + Block(values) + rest
      {
        InkedDropsKey(rest, kRest, vRest, 0);
        InkedDropsValue(rest - {kRest[0]}, Without(kRest, 0), vRest, 0);
        arena.Free(keys[i]);
        arena.Free(values[i]);
        rest := rest - {kRest[0]} - {vRest[0]};
        kRest, vRest := Without(kRest, 0), Without(vRest, 0);
      }
      assert rest == {};
      arena.Free(keys);
      arena.Free(values);
      arena.Free(this);
    }
  }

  /** `free` of the first `n` strings of an array. */
  method FreeStrings(ghost arena: Arena, slots: Slots, n: nat, ghost s: seq<Str>, ghost ink: set<Str>)
    requires Points(slots, s) && |s| == n && Inked(ink, s, []) && ink <= arena.live
    modifies arena
    ensures arena.live == old(arena.live) - ink
  {
    ghost var rest, left := ink, s;
    for i := 0 to n
      invariant left == s[i..] && Inked(rest, left, []) && rest <= ink
      invariant arena.live == old(arena.live) - (ink - rest)
    {
      InkedDropsKey(rest, left, [], 0);
      assert slots[i] == left[0];
      arena.Free(slots[i]);
      rest, left := rest - {left[0]}, Without(left, 0);
    }
    assert rest == {};
  }

  /** The strings `s`, copied one by one into a new array; if one copy fails, all that were
      made are given back. */
  method CloneVector(ghost arena: Arena, source: Slots, count: nat, luck: Luck, ghost s: seq<Str>)
      returns (result: Slots?, ghost made: seq<Str>, ghost ink: set<Str>)
    requires Points(source, s) && |s| == count
    modifies arena
    ensures result != null <==> AllGranted(luck, count + 1)
    ensures result == null ==> arena.live == old(arena.live)
    ensures result != null ==>
      && fresh(result) && result !in old(arena.live) && Points(result, made)
      && fresh(ink) && ink !! old(arena.live) && Inked(ink, made, [])
      && |made| == count && (forall i :: 0 <= i < count ==> made[i].text == s[i].text)
      && arena.live == old(arena.live) + {result} + ink
  {
    made, ink := [], {};
    if !luck(0) {
      return null, [], {};
    }
    result := new Str?[count];
    arena.Take(result);
    var i := 0;
    while i < count
      invariant i <= count && fresh(result) && result !in old(arena.live) && result.Length == count
      invariant AllGranted(luck, i + 1)
      invariant |made| == i && Points(result, made) && Inked(ink, made, [])
      invariant fresh(ink) && ink !! old(arena.live)
      invariant forall j :: 0 <= j < i ==> made[j].text == s[j].text
      invariant arena.live == old(arena.live) + {result} + ink
    {
      var copy := MallocAndStrcpy(arena, source[i].text, luck(i + 1));
      if copy == null {
        break;
      }
      result[i] := copy;
      InkedGrowsByKey(ink, made, [], copy);
      made, ink := made + [copy], ink + {copy};
      i := i + 1;
    }
    if i < count {
      FreeStrings(arena, result, i, made, ink);
      arena.Free(result);
      result := null;
    }
  }

  ghost predicate AllGranted(luck: Luck, n: nat) {
    forall i: nat :: i < n ==> luck(i)
  }

  lemma AllGrantedSplits(luck: Luck, a: nat, b: nat)
    ensures AllGranted(luck, a + b) <==> AllGranted(luck, a) && AllGranted(After(luck, a), b)
  {
    if AllGranted(luck, a) && AllGranted(After(luck, a), b) {
      forall i: nat | i < a + b ensures luck(i) {
        if i >= a {
          assert After(luck, a)(i - a);
        }
      }
    }
  }

  /** Both vectors of a non-empty map, or neither: what the clone of the keys took is given
      back when the values cannot be cloned. */
  method CloneVectors(ghost arena: Arena, source: Map, luck: Luck)
      returns (keys: Slots?, values: Slots?, ghost ks: seq<Str>, ghost vs: seq<Str>, ghost strings: set<Str>)
    requires source.Valid() && source.count > 0
    modifies arena
    ensures keys != null <==> AllGranted(luck, 2 * (source.count + 1))
    ensures (keys == null <==> values == null) && (keys == null ==> arena.live == old(arena.live))
    ensures keys != null ==>
      && keys != values && fresh(keys) && fresh(values) && fresh(strings)
      && keys !in old(arena.live) && values !in old(arena.live) && strings !! old(arena.live)
      && arena.live == old(arena.live) + {keys} + {values} + strings
      && Points(keys, ks) && Points(values, vs) && Inked(strings, ks, vs) && Spells(ks, vs, source.entries)
  {
    ghost var ink, ink';
    AllGrantedSplits(luck, source.count + 1, source.count + 1);
    keys, ks, ink := CloneVector(arena, source.keys, source.count, luck, source.ks);
    vs, strings, values := [], {}, null;
    if keys == null {
      return;
    }
    values, vs, ink' := CloneVector(arena, source.values, source.count, After(luck, source.count + 1), source.vs);
    if values == null {
      FreeStrings(arena, keys, source.count, ks, ink);
      arena.Free(keys);
      keys := null;
      return;
    }
    InkedJoins(ink, ink', ks, vs);
    strings := ink + ink';
  }

  /** The branch of `sky_map_clone` for a map that is not empty. */
  method Fill(copy: Map, source: Map, luck: Luck) returns (ok: bool)
    requires source.Valid() && copy.Valid() && copy != source && copy.arena == source.arena
    requires copy.entries == [] && copy.Blocks() == {copy} && source.count > 0
    modifies copy, source.arena
    ensures source.Valid()
    ensures ok <==> AllGranted(luck, 2 * (source.count + 1))
    ensures !ok ==> source.arena.live == old(source.arena.live)
    ensures ok ==>
      && copy.Valid() && copy.View() == source.View()
      && fresh(copy.Blocks() - {copy}) && (copy.Blocks() - {copy}) !! old(source.arena.live)
      && source.arena.live == old(source.arena.live) + copy.Blocks()
  {
    hide Inked, Spells, AllGranted;
    var keys, values;
    ghost var ks, vs, strings;
    keys, values, ks, vs, strings := CloneVectors(source.arena, source, luck);
    ok := keys != null;
    if ok {
      copy.Install(source.filter, source.count, keys, values, ks, vs, strings, source.entries);
    }
  }

  /** A copy that shares no block with the original, or nothing at all. */
  method Clone(source: Map, luck: Luck) returns (copy: Map?)
    requires source.Valid()
    modifies source.arena
    ensures source.Valid()
    ensures copy != null <==>
      luck(0) && (source.count == 0 || AllGranted(After(luck, 1), 2 * (source.count + 1)))
    ensures copy == null ==> source.arena.live == old(source.arena.live)
    ensures copy != null ==>
      && fresh(copy.Blocks()) && copy.arena == source.arena && copy.Valid()
      && copy.View() == CloneOf(source.View())
      && copy.Blocks() !! old(source.arena.live)
      && source.arena.live == old(source.arena.live) + copy.Blocks()
  {
    hide Inked, Spells, AllGranted;
    if !luck(0) {
      return null;
    }
    copy := new Map(None, source.arena);
    if source.count > 0 {
      var ok := Fill(copy, source, After(luck, 1));
      if !ok {
        source.arena.Free(copy);
        return null;
      }
    }
  }

  lemma {:induction false} InkedCount(strings: set<Str>, ks: seq<Str>, vs: seq<Str>)
    requires Inked(strings, ks, vs)
    ensures |strings| == |ks| + |vs|
    decreases |ks| + |vs|
  {
    if ks != [] {
      InkedDropsKey(strings, ks, vs, 0);
      InkedCount(strings - {ks[0]}, Without(ks, 0), vs);
    } else if vs != [] {
      InkedDropsValue(strings, ks, vs, 0);
      InkedCount(strings - {vs[0]}, ks, Without(vs, 0));
    } else {
      assert strings == {};
    }
  }

  /** A map at rest owns its handle, two arrays if it has entries, and two strings an entry. */
  lemma BlocksCounted(m: Map)
    requires m.Valid()
    ensures |m.Blocks()| == 1 + (if m.count == 0 then 0 else 2) + 2 * m.count
  {
    InkedCount(m.strings, m.ks, m.vs);
    var handle: set<object>, strings: set<object> := {m}, m.strings;
    var arrays := Block(m.keys) + Block(m.values);
    assert |arrays| == if m.count == 0 then 0 else 2;
    assert handle !! arrays && handle + arrays !! strings;
    assert m.Blocks() == handle + arrays + strings;
  }

  method Create(filter: Option<Filter>, granted: bool, ghost arena: Arena) returns (created: Map?)
    modifies arena
    ensures created != null <==> granted
    ensures created == null ==> arena.live == old(arena.live)
    ensures created != null ==>
      && fresh(created) && created.arena == arena && created.Valid() && created.View() == State([], filter)
      && created.Blocks() == {created} && created !in old(arena.live) && arena.live == old(arena.live) + {created}
  {
    if !granted {
      return null;
    }
    created := new Map(filter, arena);
  }

  /** One call of the interface, dispatched. */
  method Call(m: Map, op: Op) returns (answer: Answer)
    requires m.Valid()
    modifies m, m.keys, m.values, m.arena
    ensures m.Valid() && m.Others() == old(m.Others()) && fresh(m.Blocks() - old(m.Blocks()))
    ensures m.View() == Step(old(m.View()), op)
    ensures answer == Reply(old(m.View()), op)
    ensures Carried(old(m.View()), op, old(m.vs), m.vs)
  {
    match op
    case Add(key, value, luck) =>
      var code := m.AddEntry(key, value, luck);
      answer := Code(code);
    case AddOrUpdate(key, value, luck) =>
      var code := m.AddOrUpdateEntry(key, value, luck);
      answer := Code(code);
    case Delete(key, luck) =>
      var code := m.DeleteEntry(key, luck);
      answer := Code(code);
    case ContainsKey(key) =>
      var found := m.ContainsKey(key);
      answer := Exists(found);
    case ContainsValue(value) =>
      var found := m.ContainsValue(value);
      answer := Exists(found);
    case GetValueFromKey(key) =>
      var found := m.GetValueFromKey(key);
      answer := Value(if found == null then None else Some(found.text));
  }

  /** Every run of calls on the heap, under every failure schedule, is the run of the model:
      same answers, same entries, same filter; nobody else's block is touched; and a key that
      the run does not rebind keeps its value string. */
  method Replay(m: Map, ops: seq<Op>) returns (answers: seq<Answer>)
    requires m.Valid()
    modifies m, m.keys, m.values, m.arena
    ensures m.Valid() && m.Others() == old(m.Others()) && fresh(m.Blocks() - old(m.Blocks()))
    ensures m.View() == Run(old(m.View()), ops)
    ensures answers == Replies(old(m.View()), ops)
    ensures forall key: string :: old(m.Holder(key)) != null && !RunRebinds(old(m.View()), ops, key) ==>
              m.Holder(key) == old(m.Holder(key))
  {
    hide Step, Reply, Rebinds, Inked, Points, FindKey, Carried;
    answers := [];
    for i := 0 to |ops|
      invariant m.Valid() && m.Others() == old(m.Others()) && fresh(m.Blocks() - old(m.Blocks()))
      invariant m.View() == Run(old(m.View()), ops[..i])
      invariant answers == Replies(old(m.View()), ops[..i])
      invariant forall key: string ::
                  old(m.Holder(key)) != null && !RunRebinds(old(m.View()), ops[..i], key) ==>
                    m.Holder(key) == old(m.Holder(key))
    {
      RunSnoc(old(m.View()), ops[..i], ops[i]);
      assert ops[..i + 1] == ops[..i] + [ops[i]];
      ghost var s, was := m.View(), m.vs;
      var answer := Call(m, ops[i]);
      answers := answers + [answer];
      forall key: string | old(m.Holder(key)) != null && !RunRebinds(old(m.View()), ops[..i + 1], key)
        ensures m.Holder(key) == old(m.Holder(key))
      {
        RunRebindsSnoc(old(m.View()), ops[..i], ops[i], key);
        HolderStays(s, ops[i], was, m.vs, key);
      }
    }
    assert ops[..|ops|] == ops;
  }

  /** A string answered by `sky_map_get_value_from_key` belongs to the map: it stays allocated,
      and is answered again, until its key is deleted or updated. */
  method LookUpTwice(m: Map, key: string, ops: seq<Op>) returns (first: Str?, second: Str?)
    requires m.Valid()
    modifies m, m.keys, m.values, m.arena
    ensures m.Valid() && m.View() == Run(old(m.View()), ops)
    ensures first != null <==> HasKey(old(m.entries), key)
    ensures first != null && !RunRebinds(old(m.View()), ops, key) ==>
              second == first && first in m.strings && first in m.arena.live
  {
    hide Inked, Points, Run, Replies, RunRebinds;
    first := m.GetValueFromKey(key);
    var _ := Replay(m, ops);
    second := m.GetValueFromKey(key);
    assert m.strings <= m.Blocks() <= m.arena.live;
  }

  /** Two maps with no block in common, such as a map and its clone, do not feel each other's
      calls. */
  method ReplayBeside(m: Map, other: Map, ops: seq<Op>) returns (answers: seq<Answer>)
    requires m.Valid() && other.Valid() && m.arena == other.arena && m.Blocks() !! other.Blocks()
    modifies m, m.keys, m.values, m.arena
    ensures m.Valid() && m.View() == Run(old(m.View()), ops) && answers == Replies(old(m.View()), ops)
    ensures m.Others() == old(m.Others()) && fresh(m.Blocks() - old(m.Blocks()))
    ensures other.Valid() && other.View() == old(other.View()) && other.Blocks() == old(other.Blocks())
    ensures m.Blocks() !! other.Blocks()
  {
    assert other.Blocks() <= m.Others();
    answers := Replay(m, ops);
  }

  /** From creation to destruction, whatever was called and whatever was refused in between,
      the allocator ends where it started. */
  method Lifetime(filter: Option<Filter>, granted: bool, ops: seq<Op>, ghost arena: Arena)
    modifies arena
    ensures arena.live == old(arena.live)
  {
    var m := Create(filter, granted, arena);
    if m != null {
      var _ := Replay(m, ops);
      m.Destroy();
    }
  }

  method DestroyBoth(m: Map, other: Map)
    requires m.Valid() && other.Valid() && m.arena == other.arena && m.Blocks() !! other.Blocks()
    modifies m.arena
    ensures m.arena.live == old(m.arena.live) - m.Blocks() - other.Blocks()
  {
    hide Inked, Spells;
    other.Destroy();
    assert m.Valid();
    m.Destroy();
  }

  method CallBeside(m: Map, other: Map, op: Op) returns (answer: Answer)
    requires m.Valid() && other.Valid() && m.arena == other.arena && m.Blocks() !! other.Blocks()
    modifies m, m.keys, m.values, m.arena
    ensures m.Valid() && m.View() == Step(old(m.View()), op) && answer == Reply(old(m.View()), op)
    ensures m.Others() == old(m.Others()) && fresh(m.Blocks() - old(m.Blocks()))
    ensures other.Valid() && other.View() == old(other.View()) && other.Blocks() == old(other.Blocks())
    ensures m.Blocks() !! other.Blocks()
  {
    hide Inked, Points, Spells, Step, Reply, Carried;
    assert other.Blocks() <= m.Others();
    answer := Call(m, op);
  }

  /** Calls on two maps: `first` tells on which. */
  datatype Tagged = Tagged(first: bool, op: Op)

  function Part(calls: seq<Tagged>, first: bool): seq<Op> {
    if calls == [] then []
    else (if calls[0].first == first then [calls[0].op] else []) + Part(calls[1..], first)
  }

  lemma {:induction false} PartSnoc(calls: seq<Tagged>, call: Tagged, first: bool)
    ensures Part(calls + [call], first) == Part(calls, first) + if call.first == first then [call.op] else []
  {
    if calls != [] {
      assert (calls + [call])[0] == calls[0] && (calls + [call])[1..] == calls[1..] + [call];
      PartSnoc(calls[1..], call, first);
    }
  }

  lemma NothingRun(s: State, calls: seq<Tagged>)
    ensures forall first :: Run(s, Part(calls[..0], first)) == s && Replies(s, Part(calls[..0], first)) == []
  {
  }

  lemma RunOfPart(s: State, calls: seq<Tagged>, call: Tagged, first: bool)
    ensures var before, after := Part(calls, first), Part(calls + [call], first);
            && Run(s, after) == (if call.first == first then Step(Run(s, before), call.op) else Run(s, before))
            && Replies(s, after) ==
               Replies(s, before) + if call.first == first then [Reply(Run(s, before), call.op)] else []
  {
    PartSnoc(calls, call, first);
    if call.first == first {
      RunSnoc(s, Part(calls, first), call.op);
    } else {
      assert Part(calls, first) + [] == Part(calls, first);
    }
  }

  /** What two owners leave to others does not change when what the first leaves does not. */
  lemma TwoOwners(live: set<object>, m: set<object>, other: set<object>, live': set<object>, m': set<object>)
    requires live' - m' == live - m
    ensures live' - m' - other == live - m - other && live' - other - m' == live - other - m
  {
    assert live' - other - m' == live' - m' - other;
    assert live - other - m == live - m - other;
  }

  /** The live blocks that belong to neither map. */
  ghost function Rest(m: Map, other: Map): set<object>
    reads m, other, m.arena
  {
    m.arena.live - m.Blocks() - other.Blocks()
  }

  /** One call on the one map or the other. */
  method CallEither(m: Map, other: Map, call: Tagged) returns (answer: Answer)
    requires m.Valid() && other.Valid() && m.arena == other.arena && m.Blocks() !! other.Blocks()
    modifies m, m.keys, m.values, other, other.keys, other.values, m.arena
    ensures m.Valid() && other.Valid() && m.Blocks() !! other.Blocks()
    ensures fresh(m.Blocks() - old(m.Blocks())) && fresh(other.Blocks() - old(other.Blocks()))
    ensures m.View() == if call.first then Step(old(m.View()), call.op) else old(m.View())
    ensures other.View() == if call.first then old(other.View()) else Step(old(other.View()), call.op)
    ensures answer == Reply(if call.first then old(m.View()) else old(other.View()), call.op)
    ensures Rest(m, other) == old(Rest(m, other))
  {
    hide Inked, Spells, Points, Step, Reply;
    ghost var live, mine, theirs := m.arena.live, m.Blocks(), other.Blocks();
    if call.first {
      answer := CallBeside(m, other, call.op);
      TwoOwners(live, mine, theirs, m.arena.live, m.Blocks());
    } else {
      answer := CallBeside(other, m, call.op);
      TwoOwners(live, theirs, mine, m.arena.live, other.Blocks());
    }
  }

  /** Calls on a map and its clone, in any order: each sees its own calls only. */
  method ReplayBoth(m: Map, other: Map, calls: seq<Tagged>) returns (answers: seq<Answer>, others: seq<Answer>)
    requires m.Valid() && other.Valid() && m.arena == other.arena && m.Blocks() !! other.Blocks()
    modifies m, m.keys, m.values, other, other.keys, other.values, m.arena
    ensures m.Valid() && other.Valid() && m.Blocks() !! other.Blocks()
    ensures m.View() == Run(old(m.View()), Part(calls, true))
    ensures other.View() == Run(old(other.View()), Part(calls, false))
    ensures answers == Replies(old(m.View()), Part(calls, true))
    ensures others == Replies(old(other.View()), Part(calls, false))
    ensures Rest(m, other) == old(Rest(m, other))
  {
    hide Inked, Spells, Points, Map.View, Run, Replies, Step, Reply, Part, Rest;
    answers, others := [], [];
    NothingRun(m.View(), calls);
    NothingRun(other.View(), calls);
    for i := 0 to |calls|
      invariant m.Valid() && other.Valid() && m.Blocks() !! other.Blocks()
      invariant fresh(m.Blocks() - old(m.Blocks())) && fresh(other.Blocks() - old(other.Blocks()))
      invariant m.View() == Run(old(m.View()), Part(calls[..i], true))
      invariant other.View() == Run(old(other.View()), Part(calls[..i], false))
      invariant answers == Replies(old(m.View()), Part(calls[..i], true))
      invariant others == Replies(old(other.View()), Part(calls[..i], false))
      invariant Rest(m, other) == old(Rest(m, other))
    {
      assert calls[..i + 1] == calls[..i] + [calls[i]];
      RunOfPart(old(m.View()), calls[..i], calls[i], true);
      RunOfPart(old(other.View()), calls[..i], calls[i], false);
      var answer := CallEither(m, other, calls[i]);
      if calls[i].first {
        answers := answers + [answer];
      } else {
        others := others + [answer];
      }
    }
    assert calls[..|calls|] == calls;
  }

  /** A map is cloned, both are used in any order, and both are destroyed, in whatever way
      requests are refused: all that is left are the blocks of others. */
  method CloneLifetime(m: Map, luck: Luck, calls: seq<Tagged>)
    requires m.Valid()
    modifies m, m.keys, m.values, m.arena
    ensures m.arena.live == old(m.Others())
  {
    hide Inked, Spells, Points, Run, Replies, Part;
    var copy := Clone(m, luck);
    if copy == null {
      var _ := Replay(m, Part(calls, true));
      m.Destroy();
    } else {
      assert m.Blocks() !! copy.Blocks();
      var _, _ := ReplayBoth(m, copy, calls);
      DestroyBoth(m, copy);
    }
  }
}
