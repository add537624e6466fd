/** Card.Showdown: choosing the winner among the hands still in at the end of a deal.
    The C# method works on mutable card lists that alias each other (a winner and its tie-breaker
    share one list, and the second pass works on the players' own hands). Here every such list is
    an index into a sequence of card lists, so the sharing and the in-place removals are explicit. */
module Resolver {
  import opened Optional
  import opened Cards
  import opened Evaluator

  /** One element of Showdown's argument: the cards a player shows and that player's seat. */
  datatype Contender = Contender(cards: seq<Card>, p: nat)

  /** How a call ends: the player returned (None for null) or an exception. */
  datatype Outcome = Returned(p: Option<nat>) | Thrown

  /** An element of the `winners` list built by the category loop. */
  datatype Winner = Winner(p: Option<nat>, hand: Hand, cards: Option<seq<Card>>)

  /** An element of `winners` or `tieBreakers` during the elimination passes: a player and the
      card list it reads, given as an index into the current card lists. */
  datatype Breaker = Breaker(p: Option<nat>, list: nat)

  /** How one elimination pass ends: a player returned, no cards left, or an exception. */
  datatype Step = Decided(p: Option<nat>) | Exhausted | Failed

  /** The outcome of `theHands.Find(cp => cp.cards.All(c => best.Contains(c)))`: the player of the
      element found (None for the default element when none matches), or a NullReferenceException. */
  datatype Located = Located(p: Option<nat>) | LocateFailed

  // ---------------------------------------------------------------------------------------------
  // Specification of the category loop. `bs` is the list of best hands, one per contender.

  /** `theHands.Select(h => GetBestHand(h.cards))`. */
  function BestHands(cs: seq<Contender>): (r: seq<Best>)
    ensures |r| == |cs|
  {
    seq(|cs|, k requires 0 <= k < |cs| => GetBestHand(cs[k].cards))
  }

  /** The highest category rank among the first `n` best hands. */
  function MaxRank(bs: seq<Best>, n: nat): (m: nat)
    requires 1 <= n <= |bs|
    ensures forall j :: 0 <= j < n ==> Rank(bs[j].theBest) <= m
  {
    if n == 1 then Rank(bs[0].theBest)
    else
      var m := MaxRank(bs, n - 1);
      var r := Rank(bs[n - 1].theBest);
      if r > m then r else m
  }

  /** Position `k`'s category beats every other position's. */
  predicate StrictlyBest(bs: seq<Best>, k: nat)
    requires k < |bs|
  {
    forall j :: 0 <= j < |bs| && j != k ==> Rank(bs[j].theBest) < Rank(bs[k].theBest)
  }

  /** `cp.cards.All(c => best.Contains(c))` when it does not throw: true for an empty list. */
  predicate AllIn(cards: seq<Card>, best: Option<seq<Card>>) {
    cards == [] || (best.Some? && forall c :: c in cards ==> c in best.value)
  }

  /** Lines 362 and 367: the first contender whose whole card list lies inside `best`. With a null
      `best` the first non-empty list examined throws. LocateFinds states what it returns. */
  function Locate(cs: seq<Contender>, best: Option<seq<Card>>): Located {
    if cs == [] then Located(None)
    else if cs[0].cards == [] then Located(Some(cs[0].p))
    else if best.None? then LocateFailed
    else if forall c :: c in cs[0].cards ==> c in best.value then Located(Some(cs[0].p))
    else Locate(cs[1..], best)
  }

  /** Locate throws exactly when `best` is null and the first list is not empty; otherwise it
      returns the player of the first contender whose cards all lie in `best`, or null when none
      does. */
  lemma {:induction false} LocateFinds(cs: seq<Contender>, best: Option<seq<Card>>)
    ensures Locate(cs, best).LocateFailed? <==> best.None? && cs != [] && cs[0].cards != []
    ensures Locate(cs, best).Located? && Locate(cs, best).p.Some? ==>
      exists k :: 0 <= k < |cs| && cs[k].p == Locate(cs, best).p.value && AllIn(cs[k].cards, best)
        && forall j :: 0 <= j < k ==> !AllIn(cs[j].cards, best)
    ensures Locate(cs, best) == Located(None) ==> forall k :: 0 <= k < |cs| ==> !AllIn(cs[k].cards, best)
  {
    if cs != [] && cs[0].cards != [] && best.Some? && !(forall c :: c in cs[0].cards ==> c in best.value) {
      LocateFinds(cs[1..], best);
      assert forall k :: 1 <= k < |cs| ==> cs[k] == cs[1..][k - 1];
      if Locate(cs, best).Located? && Locate(cs, best).p.Some? {
        var k :| 0 <= k < |cs[1..]| && cs[1..][k].p == Locate(cs, best).p.value && AllIn(cs[1..][k].cards, best)
          && forall j :: 0 <= j < k ==> !AllIn(cs[1..][j].cards, best);
        assert cs[k + 1].p == Locate(cs, best).p.value && AllIn(cs[k + 1].cards, best);
      }
    }
  }

  /** The player entered for position `i` >= 1: as written, the one Locate finds for its best
      cards; as intended, the contender's own player. */
  function EntryPlayer(cs: seq<Contender>, bs: seq<Best>, i: nat, intended: bool): Located
    requires i < |cs| == |bs|
  {
    if intended then Located(Some(cs[i].p)) else Locate(cs, bs[i].cards)
  }

  /** The element the category loop enters for position `i`: line 354 for the first contender
      (its whole card list), lines 362 and 367 for the others (their best cards). */
  function Entry(cs: seq<Contender>, bs: seq<Best>, i: nat, intended: bool): Winner
    requires i < |cs| == |bs|
  {
    if i == 0 then Winner(Some(cs[0].p), bs[0].theBest, Some(cs[0].cards))
    else
      var found := EntryPlayer(cs, bs, i, intended);
      Winner(if found.Located? then found.p else None, bs[i].theBest, bs[i].cards)
  }

  /** The elements entered for the positions below `n` whose category has rank `m`, in order. */
  function TopEntries(cs: seq<Contender>, bs: seq<Best>, m: nat, n: nat, intended: bool): seq<Winner>
    requires n <= |cs| == |bs|
  {
    if n == 0 then []
    else
      TopEntries(cs, bs, m, n - 1, intended)
        + (if Rank(bs[n - 1].theBest) == m then [Entry(cs, bs, n - 1, intended)] else [])
  }

  /** The Find for position `i` is reached (its category ties or beats the ones before it)
      and throws. */
  predicate LocateFailsAt(cs: seq<Contender>, bs: seq<Best>, i: nat, intended: bool)
    requires 1 <= i < |cs| == |bs|
  {
    Rank(bs[i].theBest) >= MaxRank(bs, i) && EntryPlayer(cs, bs, i, intended).LocateFailed?
  }

  predicate CategoryThrows(cs: seq<Contender>, bs: seq<Best>, intended: bool)
    requires |cs| == |bs|
  {
    exists i :: 1 <= i < |cs| && LocateFailsAt(cs, bs, i, intended)
  }

  lemma {:induction false} TopEntriesNone(cs: seq<Contender>, bs: seq<Best>, m: nat, n: nat, intended: bool)
    requires n <= |cs| == |bs|
    requires forall j :: 0 <= j < n ==> Rank(bs[j].theBest) < m
    ensures TopEntries(cs, bs, m, n, intended) == []
  {
    if n > 0 {
      TopEntriesNone(cs, bs, m, n - 1, intended);
    }
  }

  lemma {:induction false} MaxRankBelow(bs: seq<Best>, m: nat, n: nat)
    requires 1 <= n <= |bs|
    requires forall j :: 0 <= j < n ==> Rank(bs[j].theBest) < m
    ensures MaxRank(bs, n) < m
  {
    if n > 1 {
      MaxRankBelow(bs, m, n - 1);
    }
  }

  /** A position whose category beats all others is the only one at the top. */
  lemma {:induction false} SoleTop(cs: seq<Contender>, bs: seq<Best>, k: nat, n: nat, intended: bool)
    requires k < n <= |cs| == |bs| && StrictlyBest(bs, k)
    ensures MaxRank(bs, n) == Rank(bs[k].theBest)
    ensures TopEntries(cs, bs, Rank(bs[k].theBest), n, intended) == [Entry(cs, bs, k, intended)]
  {
    if n == k + 1 {
      TopEntriesNone(cs, bs, Rank(bs[k].theBest), k, intended);
      if k > 0 {
        MaxRankBelow(bs, Rank(bs[k].theBest), k);
      }
    } else {
      SoleTop(cs, bs, k, n - 1, intended);
    }
  }

  // ---------------------------------------------------------------------------------------------
  // The category loop

  /** Lines 353-370: the top category and the winners list, which holds one element per contender
      whose category equals the top one, in the order of the contenders. A Find that throws ends
      the call. */
  method RankContenders(cs: seq<Contender>, bs: seq<Best>, intended: bool)
    returns (failed: bool, best: Hand, winners: seq<Winner>)
    requires 2 <= |cs| == |bs|
    ensures failed <==> CategoryThrows(cs, bs, intended)
    ensures !failed ==> Rank(best) == MaxRank(bs, |bs|)
    ensures !failed ==> winners == TopEntries(cs, bs, Rank(best), |bs|, intended)
  {
    failed := false;
    best := bs[0].theBest;
    winners := [Entry(cs, bs, 0, intended)];
    var i := 1;
    while i < |cs|
      invariant 1 <= i <= |cs|
      invariant Rank(best) == MaxRank(bs, i)
      invariant winners == TopEntries(cs, bs, Rank(best), i, intended)
      invariant forall j :: 1 <= j < i ==> !LocateFailsAt(cs, bs, j, intended)
    {
      var h := bs[i];
      if Rank(h.theBest) > Rank(best) {
        var found := EntryPlayer(cs, bs, i, intended);
        if found.LocateFailed? {
          assert LocateFailsAt(cs, bs, i, intended);
          failed := true;
          return;
        }
        TopEntriesNone(cs, bs, Rank(h.theBest), i, intended);
        best := h.theBest;
        winners := [Winner(found.p, h.theBest, h.cards)];
      } else if Rank(h.theBest) == Rank(best) {
        var found := EntryPlayer(cs, bs, i, intended);
        if found.LocateFailed? {
          assert LocateFailsAt(cs, bs, i, intended);
          failed := true;
          return;
        }
        winners := winners + [Winner(found.p, h.theBest, h.cards)];
      }
      i := i + 1;
    }
  }

  // ---------------------------------------------------------------------------------------------
  // The elimination passes

  /** The number of cards over all lists; each round of an elimination pass lowers it. */
  function TotalSize(lists: seq<seq<Card>>): nat {
    if lists == [] then 0 else |lists[0]| + TotalSize(lists[1..])
  }

  lemma {:induction false} TotalSizeUpdate(lists: seq<seq<Card>>, id: nat, x: seq<Card>)
    requires id < |lists|
    ensures TotalSize(lists[id := x]) == TotalSize(lists) - |lists[id]| + |x|
  {
    if id == 0 {
      assert lists[id := x][1..] == lists[1..];
    } else {
      TotalSizeUpdate(lists[1..], id - 1, x);
      assert lists[id := x][1..] == lists[1..][id - 1 := x];
    }
  }

  /** Every breaker names an existing list with at least one card, so GetHighCard succeeds. */
  predicate Readable(tbs: seq<Breaker>, lists: seq<seq<Card>>) {
    forall tb :: tb in tbs ==> tb.list < |lists| && lists[tb.list] != []
  }

  function HighOf(tb: Breaker, lists: seq<seq<Card>>): Card
    requires tb.list < |lists| && lists[tb.list] != []
  {
    GetHighCard(lists[tb.list])
  }

  /** `tieBreakers.RemoveAll(tb => GetHighCard(tb.cards) != card)`, whose length is also the
      count of `FindAll(tb => GetHighCard(tb.cards) == card)`. */
  function Holding(tbs: seq<Breaker>, lists: seq<seq<Card>>, card: Card): (r: seq<Breaker>)
    requires Readable(tbs, lists)
    ensures forall tb :: tb in r <==> tb in tbs && HighOf(tb, lists) == card
  {
    if tbs == [] then []
    else
      assert forall tb :: tb in tbs[1..] ==> tb in tbs;
      (if HighOf(tbs[0], lists) == card then [tbs[0]] else []) + Holding(tbs[1..], lists, card)
  }

  /** Some breaker of player `p` has a high card other than `card`. */
  predicate Beaten(p: Option<nat>, tbs: seq<Breaker>, lists: seq<seq<Card>>, card: Card)
    requires Readable(tbs, lists)
  {
    exists tb :: tb in tbs && tb.p == p && HighOf(tb, lists) != card
  }

  /** `winners.RemoveAll(w => tieBreakers.Exists(tb => tb.p == w.p && GetHighCard(tb.cards) != card))`. */
  function DropBeaten(ws: seq<Breaker>, tbs: seq<Breaker>, lists: seq<seq<Card>>, card: Card): (r: seq<Breaker>)
    requires Readable(tbs, lists)
    ensures forall w :: w in r <==> w in ws && !Beaten(w.p, tbs, lists, card)
  {
    if ws == [] then []
    else (if Beaten(ws[0].p, tbs, lists, card) then [] else [ws[0]]) + DropBeaten(ws[1..], tbs, lists, card)
  }

  /** `tieBreakers.RemoveAll(tb => tb.cards.Count == 0)`. */
  function NonEmpty(tbs: seq<Breaker>, lists: seq<seq<Card>>): (r: seq<Breaker>)
    requires forall tb :: tb in tbs ==> tb.list < |lists|
    ensures forall tb :: tb in r <==> tb in tbs && lists[tb.list] != []
    ensures Readable(r, lists)
  {
    if tbs == [] then []
    else
      assert forall tb :: tb in tbs[1..] ==> tb in tbs;
      (if lists[tbs[0].list] != [] then [tbs[0]] else []) + NonEmpty(tbs[1..], lists)
  }

  /** `cards.RemoveAll(c => c == card)`. */
  function RemoveCard(l: seq<Card>, card: Card): (r: seq<Card>)
    ensures forall c :: c in r <==> c in l && c != card
    ensures multiset(r) <= multiset(l) && |r| <= |l|
    ensures card in l ==> |r| < |l|
  {
    if l == [] then []
    else
      assert l == [l[0]] + l[1..];
      (if l[0] == card then [] else [l[0]]) + RemoveCard(l[1..], card)
  }

  lemma {:induction false} RemoveAbsent(l: seq<Card>, card: Card)
    requires card !in l
    ensures RemoveCard(l, card) == l
  {
    if l != [] {
      RemoveAbsent(l[1..], card);
      assert l == [l[0]] + l[1..];
    }
  }

  /** `cards.RemoveAll(c => other.Contains(c))`. */
  function RemoveAllOf(l: seq<Card>, other: seq<Card>): (r: seq<Card>)
    ensures forall c :: c in r <==> c in l && c !in other
    ensures multiset(r) <= multiset(l)
  {
    if l == [] then []
    else
      assert l == [l[0]] + l[1..];
      (if l[0] in other then [] else [l[0]]) + RemoveAllOf(l[1..], other)
  }

  /** The lists some breaker reads. */
  function ListsOf(tbs: seq<Breaker>): set<nat> {
    if tbs == [] then {} else ListsOf(tbs[..|tbs| - 1]) + {tbs[|tbs| - 1].list}
  }

  lemma ListsOfStep(tbs: seq<Breaker>, k: nat)
    requires k < |tbs|
    ensures ListsOf(tbs[..k + 1]) == ListsOf(tbs[..k]) + {tbs[k].list}
  {
    assert tbs[..k + 1][..k] == tbs[..k];
  }

  /** The high card of each breaker, in order. */
  function Highs(tbs: seq<Breaker>, lists: seq<seq<Card>>): (r: seq<Card>)
    requires Readable(tbs, lists)
    ensures |r| == |tbs| && forall i :: 0 <= i < |tbs| ==> r[i] == HighOf(tbs[i], lists)
  {
    seq(|tbs|, i requires 0 <= i < |tbs| => assert tbs[i] in tbs; HighOf(tbs[i], lists))
  }

  /** The best of some high cards as lines 377-384 find it: the cards taken in order, each
      replacing the card so far when it compares above it. */
  function TopOf(highs: seq<Card>): Card
    requires highs != []
  {
    if |highs| == 1 then highs[0]
    else
      var sofar := TopOf(highs[..|highs| - 1]);
      var high := highs[|highs| - 1];
      if CompareTo(high, CardValue(sofar)) > 0 then high else sofar
  }

  /** The best card of one round of an elimination pass. */
  function TopHigh(tbs: seq<Breaker>, lists: seq<seq<Card>>): Card
    requires tbs != [] && Readable(tbs, lists)
  {
    TopOf(Highs(tbs, lists))
  }

  /** The best of some high cards is the first one whose face is the highest. */
  lemma {:induction false} TopOfIsFirstHighest(highs: seq<Card>)
    requires highs != []
    ensures var best := TopOf(highs);
      && (exists at :: 0 <= at < |highs| && best == highs[at]
            && forall j :: 0 <= j < at ==> Ord(highs[j].face) < Ord(best.face))
      && (forall j :: 0 <= j < |highs| ==> Ord(highs[j].face) <= Ord(best.face))
  {
    if |highs| > 1 {
      var front := highs[..|highs| - 1];
      TopOfIsFirstHighest(front);
      var sofar := TopOf(front);
      var at :| 0 <= at < |front| && sofar == front[at]
        && (forall j :: 0 <= j < at ==> Ord(front[j].face) < Ord(sofar.face));
      var last := |highs| - 1;
      var best := TopOf(highs);
      var top := if CompareTo(highs[last], CardValue(sofar)) > 0 then last else at;
      assert best == highs[top];
      assert Ord(sofar.face) <= Ord(best.face) && Ord(highs[last].face) <= Ord(best.face);
      forall j | 0 <= j < |highs|
        ensures Ord(highs[j].face) <= Ord(best.face)
      {
        if j < last {
          assert highs[j] == front[j];
        } else {
          assert j == last;
        }
      }
      forall j | 0 <= j < top
        ensures Ord(highs[j].face) < Ord(best.face)
      {
        assert highs[j] == front[j];
      }
    }
  }

  /** Lines 377-384: the high card of the first breaker, replaced by any later breaker's high card
      of a strictly higher face. */
  method BestHigh(tbs: seq<Breaker>, lists: seq<seq<Card>>) returns (bestCard: Card)
    requires tbs != [] && Readable(tbs, lists)
    ensures bestCard == TopHigh(tbs, lists)
  {
    ghost var highs := Highs(tbs, lists);
    bestCard := HighOf(tbs[0], lists);
    var k := 0;
    while k < |tbs|
      invariant 0 <= k <= |tbs|
      invariant k == 0 ==> bestCard == highs[0]
      invariant k >= 1 ==> bestCard == TopOf(highs[..k])
    {
      assert tbs[k] in tbs;
      var high := HighOf(tbs[k], lists);
      if k >= 1 {
        assert highs[..k + 1][..k] == highs[..k];
      }
      if CompareTo(high, CardValue(bestCard)) > 0 {
        bestCard := high;
      }
      k := k + 1;
    }
    assert highs[..|tbs|] == highs;
  }

  /** `tieBreakers.ForEach(tb => tb.cards.RemoveAll(c => c == card))`: every list some breaker
      reads loses its copies of `card`, once however many breakers share it. */
  method RemoveFromEach(tbs: seq<Breaker>, lists: seq<seq<Card>>, card: Card) returns (after: seq<seq<Card>>)
    requires forall tb :: tb in tbs ==> tb.list < |lists| && card in lists[tb.list]
    ensures |after| == |lists|
    ensures forall id :: 0 <= id < |lists| ==>
      after[id] == if id in ListsOf(tbs) then RemoveCard(lists[id], card) else lists[id]
    ensures tbs != [] ==> TotalSize(after) < TotalSize(lists)
  {
    after := lists;
    var k := 0;
    while k < |tbs|
      invariant 0 <= k <= |tbs| && |after| == |lists|
      invariant forall id :: 0 <= id < |lists| ==>
        after[id] == if id in ListsOf(tbs[..k]) then RemoveCard(lists[id], card) else lists[id]
      invariant TotalSize(after) <= TotalSize(lists)
      invariant k > 0 ==> TotalSize(after) < TotalSize(lists)
    {
      var id := tbs[k].list;
      assert tbs[k] in tbs;
      ListsOfStep(tbs, k);
      var done := ListsOf(tbs[..k]);
      if id in done {
        RemoveAbsent(after[id], card);
      } else {
        assert after[id] == lists[id] && card in lists[id];
      }
      var shorter := RemoveCard(after[id], card);
      assert shorter == RemoveCard(lists[id], card);
      TotalSizeUpdate(after, id, shorter);
      ghost var before := after;
      after := after[id := shorter];
      forall i | 0 <= i < |lists|
        ensures after[i] == if i in ListsOf(tbs[..k + 1]) then RemoveCard(lists[i], card) else lists[i]
      {
        if i != id {
          assert after[i] == before[i];
        }
      }
      k := k + 1;
    }
    assert tbs[..|tbs|] == tbs;
  }

  /** The first round of a pass over `tbs` finds a single breaker holding its best card. */
  predicate FirstRoundSole(tbs: seq<Breaker>, lists: seq<seq<Card>>) {
    tbs != [] && Readable(tbs, lists) && |Holding(tbs, lists, TopHigh(tbs, lists))| == 1
  }

  /** Lines 375-391 (and 398-414): one do-while elimination pass over the breakers `tbs`, reading
      and shrinking `lists`, and dropping beaten players from `ws`. Each round finds the best high
      card; a single holder ends the pass with the FIRST breaker's player; otherwise the breakers
      without it are dropped, it is removed from the remaining lists, and emptied lists drop out. */
  method Eliminate(ws: seq<Breaker>, tbs: seq<Breaker>, lists: seq<seq<Card>>)
    returns (step: Step, survivors: seq<Breaker>, after: seq<seq<Card>>)
    requires forall tb :: tb in tbs ==> tb.list < |lists|
    ensures |after| == |lists|
    ensures forall id :: 0 <= id < |lists| ==> multiset(after[id]) <= multiset(lists[id])
    ensures forall w :: w in survivors ==> w in ws
    ensures step.Decided? ==> exists tb :: tb in tbs && tb.p == step.p
    ensures tbs == [] || !Readable(tbs, lists) ==> step == Failed && after == lists
    ensures FirstRoundSole(tbs, lists) ==> step == Decided(tbs[0].p) && survivors == ws && after == lists
    ensures step == Exhausted ==>
      TotalSize(after) < TotalSize(lists) && exists tb :: tb in tbs && after[tb.list] == []
  {
    survivors, after := ws, lists;
    if tbs == [] || !Readable(tbs, lists) {
      return Failed, survivors, after;
    }
    var current := tbs;
    ghost var first := true;
    while true
      invariant current != [] && Readable(current, after)
      invariant |after| == |lists|
      invariant forall id :: 0 <= id < |lists| ==> multiset(after[id]) <= multiset(lists[id])
      invariant forall tb :: tb in current ==> tb in tbs
      invariant forall w :: w in survivors ==> w in ws
      invariant first ==> current == tbs && survivors == ws && after == lists
      invariant !first ==> !FirstRoundSole(tbs, lists)
      invariant TotalSize(after) <= TotalSize(lists)
      decreases TotalSize(after)
    {
      var bestCard := BestHigh(current, after);
      TopOfIsFirstHighest(Highs(current, after));
      var holders := Holding(current, after, bestCard);
      if |holders| == 1 {
        assert current[0] in current;
        return Decided(current[0].p), survivors, after;
      }
      assert holders != [];
      survivors := DropBeaten(survivors, current, after, bestCard);
      current := holders;
      var shrunk := RemoveFromEach(current, after, bestCard);
      assert forall id :: 0 <= id < |lists| ==> multiset(shrunk[id]) <= multiset(after[id]);
      after := shrunk;
      first := false;
      var kept := NonEmpty(current, after);
      if kept == [] {
        assert current[0] in current;
        return Exhausted, survivors, after;
      }
      current := kept;
    }
  }

  /** The player is null or one of the contenders' players. */
  predicate Seated(p: Option<nat>, cs: seq<Contender>) {
    p.Some? ==> exists k :: 0 <= k < |cs| && cs[k].p == p.value
  }

  lemma {:induction false} TopEntriesSeated(cs: seq<Contender>, bs: seq<Best>, m: nat, n: nat, intended: bool)
    requires n <= |cs| == |bs|
    ensures forall w :: w in TopEntries(cs, bs, m, n, intended) ==> Seated(w.p, cs)
  {
    if n > 0 {
      TopEntriesSeated(cs, bs, m, n - 1, intended);
      LocateFinds(cs, bs[n - 1].cards);
      assert Seated(Entry(cs, bs, n - 1, intended).p, cs);
    }
  }

  function CardsOrEmpty(l: Option<seq<Card>>): seq<Card> {
    if l.Some? then l.value else []
  }

  /** Line 374: the pass-one breakers, one per winner, each reading its own list. */
  function PassOneBreakers(winners: seq<Winner>): (tbs: seq<Breaker>)
    ensures |tbs| == |winners|
    ensures forall k :: 0 <= k < |tbs| ==> tbs[k] == Breaker(winners[k].p, k)
  {
    seq(|winners|, k requires 0 <= k < |winners| => Breaker(winners[k].p, k))
  }

  /** The lists pass one reads: each winner's best cards, a null list reading as empty. */
  function PassOneLists(winners: seq<Winner>): (lists: seq<seq<Card>>)
    ensures |lists| == |winners|
  {
    seq(|winners|, k requires 0 <= k < |winners| => CardsOrEmpty(winners[k].cards))
  }

  /** Lines 373-418: the two elimination passes run when several contenders share the top
      category. Pass one reads each winner's list (a null list reads as empty: GetHighCard throws on
      both); pass two reads the players' own hands, less the cards their pass-one lists still hold,
      and ends with null when it too runs out of cards. When the best high card of the first round
      is held by one winner only, the FIRST winner's player is returned, whoever holds it. */
  method TieBreak(cs: seq<Contender>, seatHands: seq<seq<Card>>, winners: seq<Winner>) returns (r: Outcome)
    requires forall k :: 0 <= k < |cs| ==> cs[k].p < |seatHands|
    requires forall k :: 0 <= k < |winners| ==> Seated(winners[k].p, cs)
    ensures r.Returned? ==> Seated(r.p, cs)
    ensures FirstRoundSole(PassOneBreakers(winners), PassOneLists(winners)) ==> r == Returned(winners[0].p)
  {
    var lists := PassOneLists(winners);
    var tbs := PassOneBreakers(winners);
    assert forall tb :: tb in tbs ==> tb.list < |lists| && Seated(tb.p, cs);
    var step, ws, after := Eliminate(tbs, tbs, lists);
    if step.Decided? {
      return Returned(step.p);
    } else if step.Failed? {
      return Thrown;
    }
    r := SecondPass(cs, seatHands, ws, after);
  }

  /** Lines 394-418: pass two, over the winners `ws` that pass one left, with the lists `after`
      pass one left. Each winner reads its player's own hand, less the cards its pass-one list
      still holds; running out of cards again ends with null. */
  method SecondPass(cs: seq<Contender>, seatHands: seq<seq<Card>>, ws: seq<Breaker>, after: seq<seq<Card>>)
    returns (r: Outcome)
    requires forall k :: 0 <= k < |cs| ==> cs[k].p < |seatHands|
    requires forall w :: w in ws ==> w.list < |after| && Seated(w.p, cs)
    ensures r.Returned? ==> Seated(r.p, cs)
  {
    // Line 396: each remaining winner's player, with that player's own hand.
    var k := 0;
    var tbs2: seq<Breaker> := [];
    while k < |ws|
      invariant 0 <= k <= |ws| && |tbs2| == k
      invariant forall j :: 0 <= j < k ==> ws[j].p.Some? && tbs2[j] == Breaker(ws[j].p, ws[j].p.value)
    {
      if ws[k].p.None? {
        return Thrown;
      }
      tbs2 := tbs2 + [Breaker(ws[k].p, ws[k].p.value)];
      k := k + 1;
    }
    // Line 397: each winner's hand loses the cards its pass-one list still holds.
    var hands := seatHands;
    k := 0;
    while k < |ws|
      invariant 0 <= k <= |ws| && |hands| == |seatHands|
    {
      assert ws[k] in ws && tbs2[k].p == ws[k].p;
      var seat := ws[k].p.value;
      hands := hands[seat := RemoveAllOf(hands[seat], after[ws[k].list])];
      k := k + 1;
    }
    assert forall tb :: tb in tbs2 ==> tb.list < |hands| && Seated(tb.p, cs);
    var step2, ws2, after2 := Eliminate(ws, tbs2, hands);
    if step2.Decided? {
      return Returned(step2.p);
    } else if step2.Failed? {
      return Thrown;
    }
    return Returned(None);
  }

  /** What Showdown reports when position `k`'s category beats all others: the player entered for
      it (contender 0 enters itself), unless a Find in the category loop throws. */
  function SoleLeader(cs: seq<Contender>, bs: seq<Best>, k: nat, intended: bool): Outcome
    requires k < |cs| == |bs|
  {
    if CategoryThrows(cs, bs, intended) then Thrown else Returned(Entry(cs, bs, k, intended).p)
  }

  /** Lines 346-419 given the best hands `bs`, with the Find of lines 362 and 367 as written
      (`intended` false) or replaced by the contender's own player (`intended` true). */
  method Resolve(cs: seq<Contender>, bs: seq<Best>, seatHands: seq<seq<Card>>, intended: bool) returns (r: Outcome)
    requires |cs| == |bs|
    requires forall k :: 0 <= k < |cs| ==> cs[k].p < |seatHands|
    ensures |cs| == 0 ==> r == Returned(None)
    ensures |cs| == 1 ==> r == Returned(Some(cs[0].p))
    ensures r.Returned? ==> Seated(r.p, cs)
    ensures forall k :: 0 <= k < |cs| && StrictlyBest(bs, k) ==> r == SoleLeader(cs, bs, k, intended)
  {
    if |cs| == 0 {
      return Returned(None);
    }
    if |cs| == 1 {
      return Returned(Some(cs[0].p));
    }
    var failed, best, winners := RankContenders(cs, bs, intended);
    if failed {
      return Thrown;
    }
    TopEntriesSeated(cs, bs, Rank(best), |bs|, intended);
    forall k | 0 <= k < |cs| && StrictlyBest(bs, k)
      ensures winners == [Entry(cs, bs, k, intended)]
    {
      SoleTop(cs, bs, k, |bs|, intended);
    }
    if |winners| == 1 {
      return Returned(winners[0].p);
    }
    r := TieBreak(cs, seatHands, winners);
  }

  /** Card.Showdown as written. When one contender's category beats all others, the reported
      player is the first contender whose whole card list lies inside that contender's best cards,
      so a later seat's sole best hand usually comes back as null (a draw). */
  method ShowdownAsWritten(cs: seq<Contender>, seatHands: seq<seq<Card>>) returns (r: Outcome)
    requires forall k :: 0 <= k < |cs| ==> cs[k].p < |seatHands|
    ensures |cs| == 0 ==> r == Returned(None)
    ensures |cs| == 1 ==> r == Returned(Some(cs[0].p))
    ensures r.Returned? ==> Seated(r.p, cs)
    ensures forall k :: 0 <= k < |cs| && StrictlyBest(BestHands(cs), k) ==>
      r == SoleLeader(cs, BestHands(cs), k, false)
  {
    r := Resolve(cs, BestHands(cs), seatHands, false);
  }

  /** Card.Showdown with each winner entered under its own player: a contender whose category
      beats all others wins. */
  method Showdown(cs: seq<Contender>, seatHands: seq<seq<Card>>) returns (r: Outcome)
    requires forall k :: 0 <= k < |cs| ==> cs[k].p < |seatHands|
    ensures |cs| == 0 ==> r == Returned(None)
    ensures |cs| == 1 ==> r == Returned(Some(cs[0].p))
    ensures r.Returned? ==> Seated(r.p, cs)
    ensures forall k :: 0 <= k < |cs| && StrictlyBest(BestHands(cs), k) ==> r == Returned(Some(cs[k].p))
  {
    r := Resolve(cs, BestHands(cs), seatHands, true);
  }

  /** A first contender whose category beats all others is entered under its own player, and no
      Find of the category loop throws: it is reported, as written and as intended. */
  lemma FirstLeaderEntered(cs: seq<Contender>, bs: seq<Best>, intended: bool)
    requires 1 <= |cs| == |bs| && StrictlyBest(bs, 0)
    ensures SoleLeader(cs, bs, 0, intended) == Returned(Some(cs[0].p))
  {
    forall i | 1 <= i < |cs|
      ensures !LocateFailsAt(cs, bs, i, intended)
    {
      assert Rank(bs[0].theBest) <= MaxRank(bs, i);
    }
  }

  /** As written, a sole best hand at a later seat is lost whenever no contender's whole card list
      lies inside its best cards: the call returns null. */
  lemma SoleLeaderLost(cs: seq<Contender>, bs: seq<Best>, k: nat)
    requires 1 <= k < |cs| == |bs| && !CategoryThrows(cs, bs, false)
    requires forall j :: 0 <= j < |cs| ==> !AllIn(cs[j].cards, bs[k].cards)
    ensures SoleLeader(cs, bs, k, false) == Returned(None)
  {
    LocateFinds(cs, bs[k].cards);
  }
}
