/** Finding all matches with an arbitrary matcher: what is found, when the search ends, and
    where the matches lie. */
module RegexModel {
  import opened Prelude

  /** Offsets into the text given to the matcher; `so` is -1 for a group that took no part. */
  datatype Span = Span(so: int, eo: int)

  /** `regexec` on the rest of the string: no match, or the spans of the whole match and of its
      groups. */
  type Matcher = string -> Option<seq<Span>>

  const MAX_MATCH: nat := 100

  predicate Fits(g: Span, text: string) {
    g.so == -1 || 0 <= g.so <= g.eo <= |text|
  }

  predicate AllFit(spans: seq<Span>, text: string) {
    forall i :: 0 <= i < |spans| ==> Fits(spans[i], text)
  }

  /** What `regexec` promises of the spans it fills in. */
  ghost predicate Sound(m: Matcher) {
    forall text :: m(text).Some? ==>
      var spans := m(text).value;
      |spans| == MAX_MATCH && spans[0].so != -1 && AllFit(spans, text)
  }

  /** The texts of the groups from `i` on, up to the first group that took no part. */
  function Texts(spans: seq<Span>, text: string, i: nat): (r: seq<string>)
    requires i <= |spans| && AllFit(spans, text)
    decreases |spans| - i
  {
    if i == |spans| || spans[i].so == -1 then []
    else
      assert Fits(spans[i], text);
      [text[spans[i].so..spans[i].eo]] + Texts(spans, text, i + 1)
  }

  /** All texts found from position `p` on: match after match, each search starting where the
      previous whole match ended. */
  function Found(m: Matcher, s: string, p: nat): (r: seq<string>)
    requires Sound(m) && p <= |s|
    decreases |s| - p
  {
    if m(s[p..]) == None then []
    else
      var spans := m(s[p..]).value;
      Texts(spans, s[p..], 0) + if spans[0].eo == 0 then [] else Found(m, s, p + spans[0].eo)
  }

  lemma WholeFits(m: Matcher, text: string)
    requires Sound(m) && m(text).Some?
    ensures 0 <= m(text).value[0].so <= m(text).value[0].eo <= |text|
  {
    assert Fits(m(text).value[0], text);
  }

  /** One turn: the texts of this match, then those of the rest. */
  lemma FoundUnfolds(m: Matcher, s: string, p: nat)
    requires Sound(m) && p <= |s| && m(s[p..]).Some? && m(s[p..]).value[0].eo != 0
    ensures var next := p + m(s[p..]).value[0].eo;
            p < next <= |s| && Found(m, s, p) == Texts(m(s[p..]).value, s[p..], 0) + Found(m, s, next)
  {
    WholeFits(m, s[p..]);
  }

  // ----- termination ---------------------------------------------------------------------

  datatype Cursor = At(p: nat) | Done

  /** One turn of the outer loop. */
  function Advance(m: Matcher, s: string, c: Cursor): (d: Cursor)
    requires Sound(m) && (c.At? ==> c.p <= |s|)
    ensures d.At? ==> d.p <= |s|
  {
    if c == Done || m(s[c.p..]) == None then Done
    else At(c.p + m(s[c.p..]).value[0].eo)
  }

  function After(m: Matcher, s: string, turns: nat): (c: Cursor)
    requires Sound(m)
    ensures c.At? ==> c.p <= |s|
  {
    if turns == 0 then At(0) else Advance(m, s, After(m, s, turns - 1))
  }

  ghost predicate Halts(m: Matcher, s: string)
    requires Sound(m)
  {
    exists turns: nat :: After(m, s, turns) == Done
  }

  /** The match at this position ends where it starts: the search will not move on. */
  predicate Stuck(m: Matcher, s: string, c: Cursor)
    requires Sound(m) && (c.At? ==> c.p <= |s|)
  {
    c.At? && m(s[c.p..]).Some? && m(s[c.p..]).value[0].eo == 0
  }

  /** No match met on the way ends at the position its search started from. */
  ghost predicate Progresses(m: Matcher, s: string)
    requires Sound(m)
  {
    forall turns: nat :: !Stuck(m, s, After(m, s, turns))
  }

  lemma {:induction false} StuckForever(m: Matcher, s: string, k: nat, n: nat)
    requires Sound(m) && Stuck(m, s, After(m, s, k))
    ensures After(m, s, k + n) == After(m, s, k)
  {
    if n > 0 {
      StuckForever(m, s, k, n - 1);
    }
  }

  lemma {:induction false} DoneForever(m: Matcher, s: string, k: nat, n: nat)
    requires Sound(m) && After(m, s, k) == Done
    ensures After(m, s, k + n) == Done
  {
    if n > 0 {
      DoneForever(m, s, k, n - 1);
    }
  }

  lemma {:induction false} TurnsAdvance(m: Matcher, s: string, turns: nat)
    requires Sound(m) && Progresses(m, s)
    ensures After(m, s, turns).At? ==> turns <= After(m, s, turns).p
  {
    if turns > 0 {
      TurnsAdvance(m, s, turns - 1);
      assert !Stuck(m, s, After(m, s, turns - 1));
    }
  }

  lemma HaltingIsNeverStuck(m: Matcher, s: string, h: nat, k: nat)
    requires Sound(m) && After(m, s, h) == Done
    ensures !Stuck(m, s, After(m, s, k))
  {
    if Stuck(m, s, After(m, s, k)) {
      if h <= k {
        DoneForever(m, s, h, k - h);
      } else {
        StuckForever(m, s, k, h - k);
      }
    }
  }

  /** The loops end exactly when no match on the way is empty at the front of its suffix; then
      they end within one turn more than the string is long. */
  lemma HaltsExactlyWhen(m: Matcher, s: string)
    requires Sound(m)
    ensures Halts(m, s) <==> Progresses(m, s)
    ensures Halts(m, s) ==> After(m, s, |s| + 1) == Done
  {
    hide After, Stuck;
    if Halts(m, s) {
      var h: nat :| After(m, s, h) == Done;
      forall k: nat ensures !Stuck(m, s, After(m, s, k)) {
        HaltingIsNeverStuck(m, s, h, k);
      }
    }
    if Progresses(m, s) {
      TurnsAdvance(m, s, |s| + 1);
      assert After(m, s, |s| + 1) == Done;
    }
  }

  /** A matcher is safe on every string exactly when no match of any text ends at its front. */
  lemma HaltsEverywhereExactlyWhen(m: Matcher)
    requires Sound(m)
    ensures (forall s: string :: Halts(m, s)) <==>
            (forall text: string :: m(text).Some? ==> m(text).value[0].eo != 0)
  {
    if forall s: string :: Halts(m, s) {
      forall text: string | m(text).Some? ensures m(text).value[0].eo != 0 {
        assert Halts(m, text);
        HaltsExactlyWhen(m, text);
        assert !Stuck(m, text, After(m, text, 0));
        assert text[0..] == text;
      }
    }
    if forall text: string :: m(text).Some? ==> m(text).value[0].eo != 0 {
      forall s: string ensures Halts(m, s) {
        HaltsExactlyWhen(m, s);
      }
    }
  }

  /** A sound matcher that never lets the loops end: the empty match, found everywhere. */
  lemma EmptyMatchNeverHalts(s: string)
    ensures var m: Matcher := (text: string) => Some([Span(0, 0)] + seq(MAX_MATCH - 1, _ => Span(-1, -1)));
            Sound(m) && !Halts(m, s)
  {
    var m: Matcher := (text: string) => Some([Span(0, 0)] + seq(MAX_MATCH - 1, _ => Span(-1, -1)));
    assert Sound(m);
    assert Stuck(m, s, After(m, s, 0));
    HaltsExactlyWhen(m, s);
  }

  // ----- where the matches lie -----------------------------------------------------------

  /** The whole matches, in coordinates of the searched string. */
  function Wholes(m: Matcher, s: string, p: nat): (r: seq<(nat, nat)>)
    requires Sound(m) && p <= |s|
    decreases |s| - p
  {
    if m(s[p..]) == None then []
    else
      var whole := m(s[p..]).value[0];
      [(p + whole.so, p + whole.eo)] + if whole.eo == 0 then [] else Wholes(m, s, p + whole.eo)
  }

  /** Intervals between `lo` and `hi`, one after the other. */
  ghost predicate InOrder(w: seq<(nat, nat)>, lo: nat, hi: nat) {
    && (forall i :: 0 <= i < |w| ==> lo <= w[i].0 <= w[i].1 <= hi)
    && (forall i, j :: 0 <= i < j < |w| ==> w[i].1 <= w[j].0)
  }

  lemma InOrderGrows(first: (nat, nat), w: seq<(nat, nat)>, lo: nat, hi: nat)
    requires InOrder(w, first.1, hi) && lo <= first.0 <= first.1 <= hi
    ensures InOrder([first] + w, lo, hi)
  {
  }

  lemma NothingInOrder(lo: nat, hi: nat)
    ensures InOrder([], lo, hi)
  {
  }

  /** The whole matches lie in order in the string and do not overlap. */
  lemma {:induction false} WholesInOrder(m: Matcher, s: string, p: nat)
    requires Sound(m) && p <= |s|
    ensures InOrder(Wholes(m, s, p), p, |s|)
    decreases |s| - p
  {
    hide InOrder, AllFit;
    if m(s[p..]).Some? {
      var whole := m(s[p..]).value[0];
      WholeFits(m, s[p..]);
      var next := p + whole.eo;
      if whole.eo > 0 {
        WholesInOrder(m, s, next);
        InOrderGrows((p + whole.so, next), Wholes(m, s, next), p, |s|);
      } else {
        NothingInOrder(next, |s|);
        InOrderGrows((p + whole.so, next), [], p, |s|);
      }
    } else {
      NothingInOrder(p, |s|);
    }
  }

  lemma WholeIsFirstText(m: Matcher, s: string, p: nat)
    requires Sound(m) && p <= |s| && m(s[p..]).Some?
    ensures var whole := m(s[p..]).value[0];
            && 0 <= whole.so <= whole.eo <= |s| - p
            && Texts(m(s[p..]).value, s[p..], 0) != []
            && Texts(m(s[p..]).value, s[p..], 0)[0] == s[p + whole.so..p + whole.eo]
  {
    WholeFits(m, s[p..]);
  }

  ghost predicate Reported(s: string, w: seq<(nat, nat)>, found: seq<string>) {
    forall i :: 0 <= i < |w| ==> w[i].0 <= w[i].1 <= |s| && s[w[i].0..w[i].1] in found
  }

  lemma ReportedGrows(s: string, first: (nat, nat), w: seq<(nat, nat)>, texts: seq<string>, found: seq<string>)
    requires Reported(s, w, found) && first.0 <= first.1 <= |s| && s[first.0..first.1] in texts
    ensures Reported(s, [first] + w, texts + found)
  {
  }

  /** Each whole match is among the texts found, as it stands in the string. */
  lemma {:induction false} WholesAreFound(m: Matcher, s: string, p: nat)
    requires Sound(m) && p <= |s|
    ensures Reported(s, Wholes(m, s, p), Found(m, s, p))
    decreases |s| - p
  {
    if m(s[p..]).Some? {
      var spans := m(s[p..]).value;
      var next := p + spans[0].eo;
      WholeIsFirstText(m, s, p);
      hide Texts, Sound, AllFit;
      if spans[0].eo > 0 {
        WholesAreFound(m, s, next);
        ReportedGrows(s, (p + spans[0].so, next), Wholes(m, s, next), Texts(spans, s[p..], 0), Found(m, s, next));
      } else {
        ReportedGrows(s, (p + spans[0].so, next), [], Texts(spans, s[p..], 0), []);
      }
    }
  }

  /** The texts of the match found from position `p` on, if any. */
  function TextsAt(m: Matcher, s: string, p: nat): seq<string>
    requires Sound(m)
  {
    if p <= |s| && m(s[p..]).Some? then Texts(m(s[p..]).value, s[p..], 0) else []
  }

  /** Where the search for the i-th whole match started: at the end of the one before. */
  function StartOf(w: seq<(nat, nat)>, p: nat, i: nat): nat
    requires i <= |w|
  {
    if i == 0 then p else w[i - 1].1
  }

  /** The texts of the matches searched for from `p` and then from the end of each whole match
      but the last. */
  function TextsOfAll(m: Matcher, s: string, p: nat, w: seq<(nat, nat)>): seq<seq<string>>
    requires Sound(m)
  {
    seq(|w|, i requires 0 <= i < |w| => TextsAt(m, s, StartOf(w, p, i)))
  }

  function Concat(parts: seq<seq<string>>): seq<string> {
    if parts == [] then [] else parts[0] + Concat(parts[1..])
  }

  lemma TextsOfAllUnfolds(m: Matcher, s: string, p: nat, w: seq<(nat, nat)>)
    requires Sound(m) && w != []
    ensures TextsOfAll(m, s, p, w)[0] == TextsAt(m, s, p)
    ensures TextsOfAll(m, s, p, w)[1..] == TextsOfAll(m, s, w[0].1, w[1..])
  {
    hide TextsAt;
    var rest := w[1..];
    assert forall i :: 0 <= i < |rest| ==> StartOf(w, p, i + 1) == StartOf(rest, w[0].1, i);
  }

  lemma WholesUnfold(m: Matcher, s: string, p: nat)
    requires Sound(m) && p <= |s| && m(s[p..]).Some?
    ensures var whole := m(s[p..]).value[0];
            && 0 <= whole.so <= whole.eo <= |s| - p
            && Wholes(m, s, p) == [(p + whole.so, p + whole.eo)] +
                                  if whole.eo == 0 then [] else Wholes(m, s, p + whole.eo)
  {
    WholeFits(m, s[p..]);
  }

  /** Each whole match is the matcher's answer for the rest of the string from the end of the one
      before; the last is followed by no match, or ends where its search started. */
  lemma {:induction false} WholesAreMatches(m: Matcher, s: string, p: nat, i: nat)
    requires Sound(m) && p <= |s| && i <= |Wholes(m, s, p)|
    ensures var w := Wholes(m, s, p);
            var start := StartOf(w, p, i);
            && start <= |s|
            && (i < |w| ==>
                  && m(s[start..]).Some?
                  && w[i] == (start + m(s[start..]).value[0].so, start + m(s[start..]).value[0].eo)
                  && (i + 1 < |w| ==> start < w[i].1))
            && (i == |w| ==> m(s[start..]) == None || (i > 0 && start == StartOf(w, p, i - 1)))
    decreases |s| - p
  {
    hide AllFit;
    if m(s[p..]).Some? {
      WholesUnfold(m, s, p);
      var next := p + m(s[p..]).value[0].eo;
      if i > 0 && next > p {
        WholesAreMatches(m, s, next, i - 1);
        assert StartOf(Wholes(m, s, p), p, i) == StartOf(Wholes(m, s, next), next, i - 1);
        assert i > 1 ==> StartOf(Wholes(m, s, p), p, i - 1) == StartOf(Wholes(m, s, next), next, i - 2);
      }
    }
  }

  /** What is found is, in this order and with nothing besides, the texts of the first match,
      then those of the match searched for from its end, and so on. */
  lemma {:induction false} FoundInOrder(m: Matcher, s: string, p: nat)
    requires Sound(m) && p <= |s|
    ensures Found(m, s, p) == Concat(TextsOfAll(m, s, p, Wholes(m, s, p)))
    decreases |s| - p
  {
    hide Texts, AllFit;
    if m(s[p..]).Some? {
      var w, whole := Wholes(m, s, p), m(s[p..]).value[0];
      WholesUnfold(m, s, p);
      TextsOfAllUnfolds(m, s, p, w);
      if whole.eo > 0 {
        FoundInOrder(m, s, p + whole.eo);
        assert w[1..] == Wholes(m, s, p + whole.eo);
      } else {
        assert w[1..] == [];
      }
    }
  }

  // ----- groups --------------------------------------------------------------------------

  /** The texts are those of the groups from `i` on, in order, each as its span says. */
  lemma {:induction false} TextsAreGroups(spans: seq<Span>, text: string, i: nat, k: nat)
    requires i <= |spans| && AllFit(spans, text) && k < |Texts(spans, text, i)|
    ensures i + k < |spans| && Fits(spans[i + k], text) && spans[i + k].so != -1
    ensures Texts(spans, text, i)[k] == text[spans[i + k].so..spans[i + k].eo]
    decreases k
  {
    assert Fits(spans[i], text);
    if k > 0 {
      TextsAreGroups(spans, text, i + 1, k - 1);
    }
  }

  /** They end at the first group that took no part. */
  lemma {:induction false} TextsEndAtFirstUnset(spans: seq<Span>, text: string, i: nat)
    requires i <= |spans| && AllFit(spans, text)
    ensures var n := i + |Texts(spans, text, i)|;
            n <= |spans| && (n < |spans| ==> spans[n].so == -1)
    decreases |spans| - i
  {
    if i < |spans| && spans[i].so != -1 {
      TextsEndAtFirstUnset(spans, text, i + 1);
    }
  }

  /** The groups that took part. */
  function Participants(spans: seq<Span>, i: nat): nat
    requires i <= |spans|
    decreases |spans| - i
  {
    if i == |spans| then 0
    else (if spans[i].so == -1 then 0 else 1) + Participants(spans, i + 1)
  }

  /** Some group that took part comes after one that did not, as in `(a)|(b)` on "b". */
  ghost predicate HasGap(spans: seq<Span>, i: nat) {
    exists j, k :: i <= j < k < |spans| && spans[j].so == -1 && spans[k].so != -1
  }

  lemma {:induction false} NoParticipants(spans: seq<Span>, i: nat)
    requires i <= |spans|
    ensures Participants(spans, i) == 0 <==> forall k :: i <= k < |spans| ==> spans[k].so == -1
    decreases |spans| - i
  {
    if i < |spans| {
      NoParticipants(spans, i + 1);
    }
  }

  /** Every group that took part is reported exactly when there is no such gap: the group loop
      stops at the first group that did not. */
  lemma {:induction false} AllGroupsReportedExactlyWhen(spans: seq<Span>, text: string, i: nat)
    requires i <= |spans| && AllFit(spans, text)
    ensures |Texts(spans, text, i)| == Participants(spans, i) <==> !HasGap(spans, i)
    ensures |Texts(spans, text, i)| <= Participants(spans, i)
    decreases |spans| - i
  {
    if i < |spans| {
      AllGroupsReportedExactlyWhen(spans, text, i + 1);
      NoParticipants(spans, i + 1);
    }
  }

  lemma {:induction false} AllParticipate(spans: seq<Span>, text: string, i: nat)
    requires i <= |spans| && AllFit(spans, text)
    requires forall k :: i <= k < |spans| ==> spans[k].so != -1
    ensures |Texts(spans, text, i)| == |spans| - i
    decreases |spans| - i
  {
    if i < |spans| {
      AllParticipate(spans, text, i + 1);
    }
  }

  /** The loops have room for the whole match and 99 groups: a match of which all 100 took part
      reports 100 texts. */
  lemma HundredTexts(m: Matcher, text: string)
    requires Sound(m) && m(text).Some?
    requires forall k :: 0 <= k < |m(text).value| ==> m(text).value[k].so != -1
    ensures |Texts(m(text).value, text, 0)| == 100
  {
    AllParticipate(m(text).value, text, 0);
  }

  /** `(a)|(b)` on "b": the second group took part, the first did not, and only the whole match
      is reported. */
  lemma GroupAfterGapIsLost()
    ensures var spans := [Span(0, 1), Span(-1, -1), Span(0, 1)] + seq(MAX_MATCH - 3, _ => Span(-1, -1));
            AllFit(spans, "b") && HasGap(spans, 0) && Texts(spans, "b", 0) == ["b"]
  {
    var spans := [Span(0, 1), Span(-1, -1), Span(0, 1)] + seq(MAX_MATCH - 3, _ => Span(-1, -1));
    assert spans[1].so == -1 && spans[2].so != -1;
    assert Texts(spans, "b", 1) == [] && "b"[0..1] == "b";
  }

  // ----- searching with an allocator that may refuse -------------------------------------

  /** What is kept of one match when the requests numbered from `q` on go as `luck` says: two
      requests a text, and a refusal ends the group loop. `requests` counts those made, `lost`
      the list nodes obtained but never linked. */
  datatype Kept = Kept(texts: seq<string>, requests: nat, lost: nat)

  function KeepTexts(spans: seq<Span>, text: string, i: nat, luck: Luck, q: nat): Kept
    requires i <= |spans| && AllFit(spans, text)
    decreases |spans| - i
  {
    if i == |spans| || spans[i].so == -1 then Kept([], q, 0)
    else if !luck(q) then Kept([], q + 1, 0)
    else if !luck(q + 1) then Kept([], q + 2, 1)
    else
      assert Fits(spans[i], text);
      var rest := KeepTexts(spans, text, i + 1, luck, q + 2);
      Kept([text[spans[i].so..spans[i].eo]] + rest.texts, rest.requests, rest.lost)
  }

  function Keep(m: Matcher, s: string, p: nat, luck: Luck, q: nat): Kept
    requires Sound(m) && p <= |s|
    decreases |s| - p
  {
    if m(s[p..]) == None then Kept([], q, 0)
    else
      var spans := m(s[p..]).value;
      var here := KeepTexts(spans, s[p..], 0, luck, q);
      if spans[0].eo == 0 then here
      else
        var rest := Keep(m, s, p + spans[0].eo, luck, here.requests);
        Kept(here.texts + rest.texts, rest.requests, here.lost + rest.lost)
  }

  lemma KeepTextsUnfolds(spans: seq<Span>, text: string, i: nat, luck: Luck, q: nat)
    requires i < |spans| && AllFit(spans, text) && spans[i].so != -1
    ensures 0 <= spans[i].so <= spans[i].eo <= |text|
    ensures KeepTexts(spans, text, i, luck, q) ==
            if !luck(q) then Kept([], q + 1, 0)
            else if !luck(q + 1) then Kept([], q + 2, 1)
            else
              var rest := KeepTexts(spans, text, i + 1, luck, q + 2);
              Kept([text[spans[i].so..spans[i].eo]] + rest.texts, rest.requests, rest.lost)
  {
    assert Fits(spans[i], text);
  }

  lemma KeepTextsEnds(spans: seq<Span>, text: string, i: nat, luck: Luck, q: nat)
    requires i <= |spans| && AllFit(spans, text) && (i == |spans| || spans[i].so == -1)
    ensures KeepTexts(spans, text, i, luck, q) == Kept([], q, 0)
  {
  }

  lemma KeepEnds(m: Matcher, s: string, p: nat, luck: Luck, q: nat)
    requires Sound(m) && p <= |s| && m(s[p..]) == None
    ensures Keep(m, s, p, luck, q) == Kept([], q, 0)
  {
  }

  lemma KeepUnfolds(m: Matcher, s: string, p: nat, luck: Luck, q: nat)
    requires Sound(m) && p <= |s| && m(s[p..]).Some? && m(s[p..]).value[0].eo != 0
    ensures var next := p + m(s[p..]).value[0].eo;
            var here := KeepTexts(m(s[p..]).value, s[p..], 0, luck, q);
            && p < next <= |s|
            && Keep(m, s, p, luck, q) ==
               (var rest := Keep(m, s, next, luck, here.requests);
                Kept(here.texts + rest.texts, rest.requests, here.lost + rest.lost))
  {
    WholeFits(m, s[p..]);
  }

  // ----- what refusals cost --------------------------------------------------------------

  ghost predicate Granted(luck: Luck, from: nat, to: nat) {
    forall r: nat :: from <= r < to ==> luck(r)
  }

  /** A match keeps a prefix of its texts: all of them, two requests each, if and only if all
      those requests are granted. */
  lemma {:induction false} MatchKeptExactlyWhen(spans: seq<Span>, text: string, i: nat, luck: Luck, q: nat)
    requires i <= |spans| && AllFit(spans, text)
    ensures var kept, all := KeepTexts(spans, text, i, luck, q), Texts(spans, text, i);
            && kept.texts <= all
            && (|kept.texts| == |all| <==> Granted(luck, q, q + 2 * |all|))
            && (|kept.texts| == |all| ==> kept.requests == q + 2 * |all|)
    decreases |spans| - i
  {
    if i < |spans| && spans[i].so != -1 {
      KeepTextsUnfolds(spans, text, i, luck, q);
      MatchKeptExactlyWhen(spans, text, i + 1, luck, q + 2);
      var n := |Texts(spans, text, i)|;
      assert n == 1 + |Texts(spans, text, i + 1)|;
      assert Granted(luck, q, q + 2 * n) <==> luck(q) && luck(q + 1) && Granted(luck, q + 2, q + 2 * n);
    }
  }

  /** The list is complete if and only if the first two requests for each text of the string are
      granted; a caller who knows what is to be found knows how much memory that takes. */
  lemma {:induction false} AllKeptExactlyWhen(m: Matcher, s: string, p: nat, luck: Luck, q: nat)
    requires Sound(m) && p <= |s|
    ensures var kept, all := Keep(m, s, p, luck, q), Found(m, s, p);
            && |kept.texts| <= |all|
            && (kept.texts == all <==> Granted(luck, q, q + 2 * |all|))
            && (|kept.texts| == |all| ==> kept.texts == all)
            && (kept.texts == all ==> kept.requests == q + 2 * |all|)
    decreases |s| - p
  {
    hide Texts, KeepTexts, AllFit;
    if m(s[p..]).Some? {
      var spans := m(s[p..]).value;
      var here, texts := KeepTexts(spans, s[p..], 0, luck, q), Texts(spans, s[p..], 0);
      WholeFits(m, s[p..]);
      MatchKeptExactlyWhen(spans, s[p..], 0, luck, q);
      if spans[0].eo > 0 {
        var next := p + spans[0].eo;
        FoundUnfolds(m, s, p);
        KeepUnfolds(m, s, p, luck, q);
        AllKeptExactlyWhen(m, s, next, luck, here.requests);
        var rest, more := Keep(m, s, next, luck, here.requests), Found(m, s, next);
        GrantedInTwo(luck, q, q + 2 * |texts|, q + 2 * (|texts| + |more|));
        assert |here.texts| == |texts| ==> here.texts == texts;
      }
    }
  }

  lemma GrantedInTwo(luck: Luck, from: nat, mid: nat, to: nat)
    requires from <= mid <= to
    ensures Granted(luck, from, to) <==> Granted(luck, from, mid) && Granted(luck, mid, to)
  {
  }

  /** Of the requests numbered from `q` up to `requests`, alternately for a node and for its
      text, those for a text. */
  function Odd(q: nat, requests: nat): seq<nat>
    decreases requests - q
  {
    if q + 1 >= requests then [] else [q + 1] + Odd(q + 2, requests)
  }

  /** Those of them that were refused. */
  function RefusedOdd(luck: Luck, q: nat, requests: nat): seq<nat>
    decreases requests - q
  {
    if q + 1 >= requests then []
    else (if luck(q + 1) then [] else [q + 1]) + RefusedOdd(luck, q + 2, requests)
  }

  /** The requests for a text that a whole search makes. */
  function TextRequests(m: Matcher, s: string, p: nat, luck: Luck, q: nat): seq<nat>
    requires Sound(m) && p <= |s|
    decreases |s| - p
  {
    if m(s[p..]) == None then []
    else
      var spans := m(s[p..]).value;
      var here := KeepTexts(spans, s[p..], 0, luck, q);
      Odd(q, here.requests) +
      if spans[0].eo == 0 then [] else TextRequests(m, s, p + spans[0].eo, luck, here.requests)
  }

  /** The requests for a text that it makes in vain. */
  function RefusedTexts(m: Matcher, s: string, p: nat, luck: Luck, q: nat): seq<nat>
    requires Sound(m) && p <= |s|
    decreases |s| - p
  {
    if m(s[p..]) == None then []
    else
      var spans := m(s[p..]).value;
      var here := KeepTexts(spans, s[p..], 0, luck, q);
      RefusedOdd(luck, q, here.requests) +
      if spans[0].eo == 0 then [] else RefusedTexts(m, s, p + spans[0].eo, luck, here.requests)
  }

  ghost predicate Rising(s: seq<nat>, from: nat, to: nat) {
    && (forall i :: 0 <= i < |s| ==> from <= s[i] < to)
    && (forall i, j :: 0 <= i < j < |s| ==> s[i] < s[j])
  }

  lemma RisingJoins(a: seq<nat>, b: seq<nat>, from: nat, mid: nat, to: nat)
    requires from <= mid <= to && Rising(a, from, mid) && Rising(b, mid, to)
    ensures Rising(a + b, from, to)
  {
  }

  lemma NothingRises(q: nat)
    ensures Rising([], q, q)
  {
  }

  lemma {:induction false} RefusedOddRises(luck: Luck, q: nat, requests: nat)
    ensures Rising(RefusedOdd(luck, q, requests), q, Max(q, requests))
    decreases requests - q
  {
    if q + 1 < requests {
      RefusedOddRises(luck, q + 2, requests);
      RisingJoins(if luck(q + 1) then [] else [q + 1], RefusedOdd(luck, q + 2, requests), q, q + 2, requests);
    }
  }

  /** A request for a text of this match is listed exactly when it is refused. */
  lemma {:induction false} RefusedOddAre(luck: Luck, q: nat, requests: nat, r: nat)
    ensures r in RefusedOdd(luck, q, requests) <==> r in Odd(q, requests) && !luck(r)
    decreases requests - q
  {
    if q + 1 < requests {
      RefusedOddAre(luck, q + 2, requests, r);
    }
  }

  /** The k-th request for a text is the one after the k-th for a node. */
  lemma {:induction false} OddAre(q: nat, requests: nat, k: nat)
    ensures k < |Odd(q, requests)| <==> q + 1 + 2 * k < requests
    ensures k < |Odd(q, requests)| ==> Odd(q, requests)[k] == q + 1 + 2 * k
    decreases k
  {
    if k > 0 && q + 1 < requests {
      OddAre(q + 2, requests, k - 1);
    }
  }

  lemma {:induction false} MatchLosesRefused(spans: seq<Span>, text: string, i: nat, luck: Luck, q: nat)
    requires i <= |spans| && AllFit(spans, text)
    ensures |RefusedOdd(luck, q, KeepTexts(spans, text, i, luck, q).requests)| == KeepTexts(spans, text, i, luck, q).lost
    decreases |spans| - i
  {
    if i < |spans| && spans[i].so != -1 && luck(q) && luck(q + 1) {
      MatchLosesRefused(spans, text, i + 1, luck, q + 2);
    }
  }

  /** A search loses exactly one node for each request for a text that is refused, so none if
      and only if no such request is. */
  lemma {:induction false} LostExactlyRefused(m: Matcher, s: string, p: nat, luck: Luck, q: nat)
    requires Sound(m) && p <= |s|
    ensures |RefusedTexts(m, s, p, luck, q)| == Keep(m, s, p, luck, q).lost
    decreases |s| - p
  {
    if m(s[p..]).Some? {
      var spans := m(s[p..]).value;
      var here := KeepTexts(spans, s[p..], 0, luck, q);
      WholeFits(m, s[p..]);
      MatchLosesRefused(spans, s[p..], 0, luck, q);
      hide KeepTexts, AllFit, RefusedOdd;
      if spans[0].eo != 0 {
        LostExactlyRefused(m, s, p + spans[0].eo, luck, here.requests);
      }
    }
  }

  lemma {:induction false} RequestsGrow(spans: seq<Span>, text: string, i: nat, luck: Luck, q: nat)
    requires i <= |spans| && AllFit(spans, text)
    ensures q <= KeepTexts(spans, text, i, luck, q).requests
    decreases |spans| - i
  {
    if i < |spans| && spans[i].so != -1 && luck(q) && luck(q + 1) {
      RequestsGrow(spans, text, i + 1, luck, q + 2);
    }
  }

  /** Over a whole search: the requests counted are those for a text, each once, that are
      refused. */
  lemma {:induction false} RefusedTextsAre(m: Matcher, s: string, p: nat, luck: Luck, q: nat)
    requires Sound(m) && p <= |s|
    ensures q <= Keep(m, s, p, luck, q).requests
    ensures Rising(RefusedTexts(m, s, p, luck, q), q, Keep(m, s, p, luck, q).requests)
    ensures forall r: nat ::
              r in RefusedTexts(m, s, p, luck, q) <==> r in TextRequests(m, s, p, luck, q) && !luck(r)
    decreases |s| - p
  {
    hide KeepTexts, AllFit, RefusedOdd, Odd, Rising;
    if m(s[p..]) == None {
      NothingRises(q);
    } else {
      var spans := m(s[p..]).value;
      var here := KeepTexts(spans, s[p..], 0, luck, q);
      WholeFits(m, s[p..]);
      RequestsGrow(spans, s[p..], 0, luck, q);
      RefusedOddRises(luck, q, here.requests);
      forall r: nat
        ensures r in RefusedOdd(luck, q, here.requests) <==> r in Odd(q, here.requests) && !luck(r)
      {
        RefusedOddAre(luck, q, here.requests, r);
      }
      if spans[0].eo != 0 {
        var next := p + spans[0].eo;
        RefusedTextsAre(m, s, next, luck, here.requests);
        RisingJoins(RefusedOdd(luck, q, here.requests), RefusedTexts(m, s, next, luck, here.requests),
                    q, here.requests, Keep(m, s, p, luck, q).requests);
      } else {
        assert RefusedTexts(m, s, p, luck, q) == RefusedOdd(luck, q, here.requests);
      }
    }
  }

  /** A refusal costs texts of its own match only: if all later requests are granted, a prefix
      of the texts of this match is kept, and then everything the search still finds. */
  lemma RefusalCostsItsMatchOnly(m: Matcher, s: string, p: nat, luck: Luck, q: nat)
    requires Sound(m) && p <= |s| && m(s[p..]).Some? && m(s[p..]).value[0].eo != 0
    requires forall r: nat :: r >= KeepTexts(m(s[p..]).value, s[p..], 0, luck, q).requests ==> luck(r)
    ensures var next := p + m(s[p..]).value[0].eo;
            && p < next <= |s|
            && exists kept :: kept <= TextsAt(m, s, p) && Keep(m, s, p, luck, q).texts == kept + Found(m, s, next)
  {
    var here := KeepTexts(m(s[p..]).value, s[p..], 0, luck, q);
    KeepUnfolds(m, s, p, luck, q);
    MatchKeptExactlyWhen(m(s[p..]).value, s[p..], 0, luck, q);
    hide KeepTexts, Keep, Found, Texts, AllFit;
    var next := p + m(s[p..]).value[0].eo;
    AllKeptExactlyWhen(m, s, next, luck, here.requests);
    assert here.texts <= TextsAt(m, s, p);
  }

  /** A search that finds "a", gets a node for it, and is refused its text: nothing is listed and
      the node is lost. */
  lemma RefusedTextLosesNode()
    ensures var m: Matcher := (text: string) =>
              if text == "" then None else Some([Span(0, |text|)] + seq(MAX_MATCH - 1, _ => Span(-1, -1)));
            && Sound(m) && Found(m, "a", 0) == ["a"]
            && Keep(m, "a", 0, (r: nat) => r == 0, 0) == Kept([], 2, 1)
  {
    var m: Matcher := (text: string) =>
      if text == "" then None else Some([Span(0, |text|)] + seq(MAX_MATCH - 1, _ => Span(-1, -1)));
    var luck: Luck := (r: nat) => r == 0;
    assert Sound(m);
    assert "a"[0..] == "a" && "a"[1..] == "";
    var spans := m("a").value;
    assert spans[0] == Span(0, 1) && spans[1].so == -1;
    assert Texts(spans, "a", 1) == [] && "a"[0..1] == "a";
    assert Texts(spans, "a", 0) == ["a"];
    assert KeepTexts(spans, "a", 0, luck, 0) == Kept([], 2, 1);
    assert Found(m, "a", 1) == [] && Keep(m, "a", 1, luck, 2) == Kept([], 2, 0);
  }
}
