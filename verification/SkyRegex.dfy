/** The find-all loops on the heap: a handle that owns the list of texts found by its last
    search. */
module SkyRegex {
  import opened Prelude
  import opened RegexModel

  /** The block that holds a text, filled as soon as it is allocated and never written again. */
  class Text {
    const text: string

    constructor (text: string)
      ensures this.text == text
    {
      this.text := text;
    }
  }

  class SubStr {
    var str: Text?
    var next: SubStr?

    constructor ()
      ensures str == null && next == null
    {
      str, next := null, null;
    }
  }

  /** `first` leads through `nodes`, each once, to NULL; and they point at `strs`. */
  ghost predicate Chained(first: SubStr?, nodes: seq<SubStr>, strs: seq<Text>)
    reads nodes
  {
    && first == (if nodes == [] then null else nodes[0])
    && (forall i {:trigger nodes[i].next} ::
          0 <= i < |nodes| ==> nodes[i].next == if i + 1 < |nodes| then nodes[i + 1] else null)
    && (forall i, j :: 0 <= i < j < |nodes| ==> nodes[i] != nodes[j])
    && |strs| == |nodes|
    && (forall i {:trigger nodes[i].str} :: 0 <= i < |nodes| ==> nodes[i].str == strs[i])
  }

  /** `inked` are the blocks `strs`, each of them once, and they spell `texts`. */
  ghost predicate Spelled(inked: set<Text>, strs: seq<Text>, texts: seq<string>) {
    && |strs| == |texts|
    && (forall i :: 0 <= i < |strs| ==> strs[i] in inked && strs[i].text == texts[i])
    && (forall i, j :: 0 <= i < j < |strs| ==> strs[i] != strs[j])
    && (forall t :: t in inked ==> t in strs)
  }

  lemma SpelledGrows(inked: set<Text>, strs: seq<Text>, texts: seq<string>, t: Text)
    requires Spelled(inked, strs, texts) && t !in inked
    ensures Spelled(inked + {t}, strs + [t], texts + [t.text])
  {
  }

  lemma SpelledShrinks(inked: set<Text>, strs: seq<Text>, texts: seq<string>)
    requires Spelled(inked, strs, texts) && strs != []
    ensures strs[0] in inked && Spelled(inked - {strs[0]}, strs[1..], texts[1..])
  {
    assert strs == [strs[0]] + strs[1..];
  }

  lemma CountWraps(n: nat)
    ensures (n % 0x1_0000_0000 + 1) % 0x1_0000_0000 == (n + 1) % 0x1_0000_0000
  {
    assert n == 0x1_0000_0000 * (n / 0x1_0000_0000) + n % 0x1_0000_0000;
  }

  /** The group loop of `sky_regex_match`; `total` is the count so far, unreduced. */
  method CountGroups(spans: seq<Span>, text: string, before: nat, ghost total: nat) returns (count: nat)
    requires |spans| == MAX_MATCH && AllFit(spans, text) && before == total % 0x1_0000_0000
    ensures count == (total + |Texts(spans, text, 0)|) % 0x1_0000_0000
  {
    hide AllFit;
    count := before;
    var i := 0;
    while i < MAX_MATCH
      invariant i <= MAX_MATCH && |Texts(spans, text, 0)| == i + |Texts(spans, text, i)|
      invariant count == (total + i) % 0x1_0000_0000
    {
      if spans[i].so == -1 {
        break;
      }
      CountWraps(total + i);
      count := (count + 1) % 0x1_0000_0000;
      i := i + 1;
    }
  }

  lemma NothingFound(m: Matcher, s: string, p: nat)
    requires Sound(m) && p <= |s| && m(s[p..]) == None
    ensures Found(m, s, p) == []
  {
  }

  lemma NotStuck(m: Matcher, s: string, turns: nat, p: nat)
    requires Sound(m) && Progresses(m, s) && After(m, s, turns) == At(p) && p <= |s| && m(s[p..]).Some?
    ensures m(s[p..]).value[0].eo != 0
    ensures After(m, s, turns + 1) == At(p + m(s[p..]).value[0].eo)
  {
    assert !Stuck(m, s, After(m, s, turns));
  }

  class Regex {
    const matcher: Matcher
    var subStr: SubStr?

    ghost var nodes: seq<SubStr>
    ghost var strs: seq<Text>
    ghost var texts: seq<string>
    /** Nodes obtained and not given back, and those of them that are on no list. */
    ghost var live: set<SubStr>
    ghost var lost: set<SubStr>
    /** Texts obtained and not given back. */
    ghost var inked: set<Text>
    /** Whether the handle itself is still allocated. */
    ghost var handle: bool

    ghost predicate Valid()
      reads this, live
    {
      && handle && Sound(matcher) && Owned()
      && Chained(subStr, nodes, strs) && Spelled(inked, strs, texts)
    }

    ghost predicate Owned()
      reads this
    {
      && (forall n :: n in nodes ==> n in live && n !in lost)
      && lost <= live
      && (forall n :: n in live ==> n in nodes || n in lost)
    }

    constructor (matcher: Matcher)
      requires Sound(matcher)
      ensures Valid() && this.matcher == matcher && texts == [] && live == {} && lost == {} && inked == {}
    {
      this.matcher := matcher;
      subStr := null;
      nodes, strs, texts, live, lost, inked := [], [], [], {}, {}, {};
      handle := true;
    }

    /** `match_count` is 32 bits wide. */
    method Match(s: string) returns (count: nat)
      requires Sound(matcher) && Progresses(matcher, s)
      ensures count == |Found(matcher, s, 0)| % 0x1_0000_0000
    {
      hide Texts, Found, Stuck, AllFit;
      var p := 0;
      count := 0;
      ghost var turns: nat, total: nat := 0, 0;
      while true
        invariant p <= |s| && After(matcher, s, turns) == At(p)
        invariant total + |Found(matcher, s, p)| == |Found(matcher, s, 0)|
        invariant count == total % 0x1_0000_0000
        decreases |s| - p
      {
        var r := matcher(s[p..]);
        if r == None {
          NothingFound(matcher, s, p);
          break;
        }
        NotStuck(matcher, s, turns, p);
        FoundUnfolds(matcher, s, p);
        count := CountGroups(r.value, s[p..], count, total);
        total := total + |Texts(r.value, s[p..], 0)|;
        p := p + r.value[0].eo;
        turns := turns + 1;
      }
    }

    /** `sky_mem_free` of a node, and of a text, that is still allocated. */
    ghost method FreeNode(n: SubStr)
      requires n in live
      modifies this`live
      ensures live == old(live) - {n}
    {
      live := live - {n};
    }

    ghost method FreeText(t: Text)
      requires t in inked
      modifies this`inked
      ensures inked == old(inked) - {t}
    {
      inked := inked - {t};
    }

    /** A read of a node's links, which the node must be allocated for. */
    method ReadNode(n: SubStr) returns (str: Text?, next: SubStr?)
      requires n in live
      ensures str == n.str && next == n.next
    {
      str, next := n.str, n.next;
    }

    /** `sky_regex_substr_free` of the whole list: each node and each text once, and no node is
        read after it is given back. */
    method FreeList()
      requires Valid()
      modifies this
      ensures Valid() && nodes == [] && live == lost == old(lost) && inked == {}
    {
      var sub := subStr;
      ghost var k := 0;
      while sub != null
        invariant k <= |nodes| && sub == if k < |nodes| then nodes[k] else null
        invariant nodes == old(nodes) && lost == old(lost) && texts == old(texts) && strs == old(strs) && handle
        invariant live <= old(live) && lost <= live
        invariant forall i :: k <= i < |nodes| ==> nodes[i] in live
        invariant forall n :: n in live ==> n in nodes[k..] || n in lost
        invariant Spelled(inked, strs[k..], texts[k..])
        decreases |nodes| - k
      {
        SpelledShrinks(inked, strs[k..], texts[k..]);
        var str, next := ReadNode(sub);
        if str != null {
          FreeText(str);
        }
        FreeNode(sub);
        sub := next;
        k := k + 1;
      }
      subStr := null;
      nodes, texts, strs := [], [], [];
      assert live == lost;
    }

    /** The walk to the last node, and the new node behind it. */
    method Append(node: SubStr, t: Text)
      requires Valid() && node !in live && t !in inked && node.next == null && node.str == t
      modifies this, live
      ensures Valid() && nodes == old(nodes) + [node] && texts == old(texts) + [t.text]
      ensures live == old(live) + {node} && lost == old(lost) && inked == old(inked) + {t}
    {
      SpelledGrows(inked, strs, texts, t);
      hide Spelled;
      if subStr == null {
        subStr := node;
      } else {
        var s := subStr;
        ghost var k := 0;
        while s.next != null
          invariant k < |nodes| && s == nodes[k]
          decreases |nodes| - k
        {
          s := s.next;
          k := k + 1;
        }
        s.next := node;
      }
      nodes, strs, texts := nodes + [node], strs + [t], texts + [t.text];
      live, inked := live + {node}, inked + {t};
    }

    /** One turn of the group loop of `sky_regex_parse`: a node, its text, the link. A node whose
        text finds no memory is on no list and stays allocated. */
    method KeepText(text: string, nodeGranted: bool, textGranted: bool) returns (ok: bool)
      requires Valid()
      modifies this, live
      ensures Valid() && fresh(live - old(live)) && old(lost) <= lost
      ensures ok <==> nodeGranted && textGranted
      ensures texts == old(texts) + if ok then [text] else []
      ensures |lost| == old(|lost|) + if nodeGranted && !textGranted then 1 else 0
    {
      if !nodeGranted {
        return false;
      }
      var node := new SubStr();
      if !textGranted {
        live, lost := live + {node}, lost + {node};
        return false;
      }
      var t := new Text(text);
      node.str := t;
      Append(node, t);
      return true;
    }

    /** The group loop; `q` counts the requests made of the allocator. */
    method KeepGroups(spans: seq<Span>, text: string, luck: Luck, before: nat) returns (q: nat)
      requires Valid() && |spans| == MAX_MATCH && AllFit(spans, text)
      modifies this, live
      ensures Valid() && fresh(live - old(live)) && old(lost) <= lost
      ensures var kept := KeepTexts(spans, text, 0, luck, before);
              texts == old(texts) + kept.texts && q == kept.requests && |lost| == old(|lost|) + kept.lost
    {
      hide KeepTexts, AllFit;
      q := before;
      var i := 0;
      while i < MAX_MATCH
        invariant i <= MAX_MATCH
        invariant Valid() && fresh(live - old(live)) && old(lost) <= lost
        invariant var all, rest := KeepTexts(spans, text, 0, luck, before), KeepTexts(spans, text, i, luck, q);
                  && old(texts) + all.texts == texts + rest.texts
                  && all.requests == rest.requests && old(|lost|) + all.lost == |lost| + rest.lost
      {
        if spans[i].so == -1 {
          break;
        }
        KeepTextsUnfolds(spans, text, i, luck, q);
        var ok := KeepText(text[spans[i].so..spans[i].eo], luck(q), luck(q + 1));
        q := if luck(q) then q + 2 else q + 1;
        if !ok {
          return;
        }
        i := i + 1;
      }
      KeepTextsEnds(spans, text, i, luck, q);
    }

    lemma NoneLost(before: set<SubStr>, after: set<SubStr>)
      requires before <= after && |after| == |before|
      ensures after == before
    {
      assert |after - before| == 0;
    }

    /** The outer loop, once the old list is gone. */
    method Search(s: string, luck: Luck)
      requires Valid() && texts == [] && Progresses(matcher, s)
      modifies this, live
      ensures Valid() && fresh(live - old(live)) && old(lost) <= lost
      ensures texts == Keep(matcher, s, 0, luck, 0).texts
      ensures |lost| == old(|lost|) + Keep(matcher, s, 0, luck, 0).lost
    {
      hide KeepTexts, AllFit, Stuck, Keep, Chained, Owned;
      var p, q := 0, 0;
      ghost var turns: nat := 0;
      while true
        invariant Valid() && fresh(live - old(live)) && old(lost) <= lost
        invariant p <= |s| && After(matcher, s, turns) == At(p)
        invariant var all, rest := Keep(matcher, s, 0, luck, 0), Keep(matcher, s, p, luck, q);
                  && all.texts == texts + rest.texts
                  && old(|lost|) + all.lost == |lost| + rest.lost
        decreases |s| - p
      {
        var r := matcher(s[p..]);
        if r == None {
          KeepEnds(matcher, s, p, luck, q);
          break;
        }
        NotStuck(matcher, s, turns, p);
        KeepUnfolds(matcher, s, p, luck, q);
        q := KeepGroups(r.value, s[p..], luck, q);
        p := p + r.value[0].eo;
        turns := turns + 1;
      }
    }

    /** The list of the previous search is given back; the new one holds what this search kept.
        That is everything found if and only if two requests for each text are granted, and one
        node is lost for each request for a text that is not. */
    method Parse(s: string, luck: Luck) returns (first: SubStr?)
      requires Valid() && Progresses(matcher, s)
      modifies this, live
      ensures Valid() && first == subStr && old(lost) <= lost && fresh(live - old(lost))
      ensures forall n :: n in nodes ==> fresh(n)
      ensures texts == Keep(matcher, s, 0, luck, 0).texts
      ensures texts == Found(matcher, s, 0) <==> Granted(luck, 0, 2 * |Found(matcher, s, 0)|)
      ensures |lost| == old(|lost|) + |RefusedTexts(matcher, s, 0, luck, 0)|
      ensures lost == old(lost) <==> RefusedTexts(matcher, s, 0, luck, 0) == []
    {
      hide Keep, Found, RefusedTexts;
      if subStr != null {
        FreeList();
      }
      assert live == old(lost);
      Search(s, luck);
      AllKeptExactlyWhen(matcher, s, 0, luck, 0);
      LostExactlyRefused(matcher, s, 0, luck, 0);
      if |lost| == |old(lost)| {
        NoneLost(old(lost), lost);
      }
      return subStr;
    }

    /** The list and the handle are given back; only nodes lost in earlier searches stay. */
    method Destroy()
      requires Valid()
      modifies this
      ensures live == lost == old(lost) && inked == {} && !handle
    {
      if subStr != null {
        FreeList();
      }
      handle := false;
    }
  }

  /** With the memory for it, `sky_regex_parse` lists as many texts as `sky_regex_match` counts,
      modulo the width of the count. */
  method MatchThenParse(regex: Regex, s: string, luck: Luck) returns (count: nat, first: SubStr?)
    requires regex.Valid() && Halts(regex.matcher, s)
    modifies regex, regex.live
    ensures regex.Valid() && first == regex.subStr
    ensures Granted(luck, 0, 2 * |Found(regex.matcher, s, 0)|) ==> count == |regex.nodes| % 0x1_0000_0000
  {
    HaltsExactlyWhen(regex.matcher, s);
    count := regex.Match(s);
    first := regex.Parse(s, luck);
  }
}
