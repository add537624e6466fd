/** RuleSet.AutoPlay: what a computer player does in its turn, round by round. The random draws
    it makes (how many cards to discard and which, its boldness, the amount of a bet) are a
    parameter. */
module Auto {
  import opened Optional
  import opened Text
  import opened Cards
  import opened Players
  import opened Table
  import opened Steps

  /** The draws of one turn of a computer player: `picks` are the `rng.Next(count)` draws that
      choose each discarded card (their number is the draw `rng.Next(discardable.Count)`),
      `boldness` is `rng.Next(100)` and `pick` is `rng.Next(max - min)`. */
  datatype AiDraws = AiDraws(picks: seq<nat>, boldness: nat, pick: nat)

  /** The k-th pick chooses among the n - k cards still discardable. */
  predicate PicksWithin(picks: seq<nat>, n: nat) {
    forall k :: 0 <= k < |picks| ==> picks[k] < n - k
  }

  /** The cards of the hand that are not marked yet: `Hand.FindAll(c => !c.Discard)`. */
  function Discardable(hand: seq<HeldCard>): (r: seq<Card>)
    ensures forall c :: c in r ==> c in CardsOf(hand)
  {
    var kept := WithoutDiscards(hand);
    assert forall k :: 0 <= k < |kept| ==> kept[k] in hand;
    CardsOf(kept)
  }

  /** Draws that `rng` can return for a computer player in state t: the number of discards is
      below the number of discardable cards (or 0 when there is none), and the bet draws lie in
      their ranges. */
  predicate DrawsFit(t: TableState, d: AiDraws) {
    && HasCurrent(t)
    && var n := |Discardable(Cur(t).hand)|;
    && (|d.picks| < n || d.picks == []) && PicksWithin(d.picks, n)
    && d.boldness < 100
    && (Cur(t).money > BetMinimum(t) ==> d.pick < Cur(t).money - BetMinimum(t))
  }

  /** The hand after DiscardCard has found the card: its first copy of `c` is marked. */
  function MarkedHand(hand: seq<HeldCard>, c: Card): (r: seq<HeldCard>)
    ensures |r| == |hand|
  {
    match FindCard(hand, c)
    case None => hand
    case Some(k) => hand[k := hand[k].(discard := true)]
  }

  /** The discarding loop of AutoPlay on the hand: each pick chooses a card among those still
      discardable, whose first copy in the hand is marked, and which leaves the discardable
      list. */
  function AiMarks(hand: seq<HeldCard>, discardable: seq<Card>, picks: seq<nat>): (r: seq<HeldCard>)
    requires |picks| <= |discardable| && PicksWithin(picks, |discardable|)
    ensures |r| == |hand|
    decreases |picks|
  {
    if picks == [] then hand
    else
      var c := discardable[picks[0]];
      var rest := RemoveFirst(discardable, c);
      PicksTail(picks, discardable, c);
      AiMarks(MarkedHand(hand, c), rest, picks[1..])
  }

  /** After a pick, the remaining picks fit the remaining discardable cards. */
  lemma PicksTail(picks: seq<nat>, discardable: seq<Card>, c: Card)
    requires picks != [] && |picks| <= |discardable| && PicksWithin(picks, |discardable|)
    requires c == discardable[picks[0]]
    ensures |RemoveFirst(discardable, c)| == |discardable| - 1
    ensures |picks[1..]| <= |RemoveFirst(discardable, c)| && PicksWithin(picks[1..], |RemoveFirst(discardable, c)|)
  {
    assert c in discardable;
  }

  /** The discarding loop of AutoPlay: only the current player's hand changes. */
  function AiDiscards(t: TableState, discardable: seq<Card>, picks: seq<nat>): (r: TableState)
    requires HasCurrent(t) && |picks| <= |discardable| && PicksWithin(picks, |discardable|)
    ensures HasCurrent(r) && r.current == t.current
  {
    WithCur(t, Cur(t).(hand := AiMarks(Cur(t).hand, discardable, picks)))
  }

  /** One step of the discarding loop: the first pick's card marked, then the remaining picks
      among the remaining cards. */
  lemma AiDiscardsStep(u: TableState, discardable: seq<Card>, picks: seq<nat>)
    requires HasCurrent(u) && picks != [] && |picks| <= |discardable| && PicksWithin(picks, |discardable|)
    ensures var c := discardable[picks[0]]; var rest := RemoveFirst(discardable, c);
      var v := WithCur(u, Cur(u).(hand := MarkedHand(Cur(u).hand, c)));
      && |picks[1..]| <= |rest| && PicksWithin(picks[1..], |rest|)
      && AiDiscards(v, rest, picks[1..]) == AiDiscards(u, discardable, picks)
  {
    var c := discardable[picks[0]];
    PicksTail(picks, discardable, c);
    var i := u.current.value;
    var marked := MarkedHand(Cur(u).hand, c);
    var v := WithCur(u, Cur(u).(hand := marked));
    var rest := RemoveFirst(discardable, c);
    var final := AiMarks(marked, rest, picks[1..]);
    assert AiMarks(Cur(u).hand, discardable, picks) == final;
    assert Cur(v) == Cur(u).(hand := marked);
    assert u.seats[i := Cur(u).(hand := marked)][i := Cur(u).(hand := final)] == u.seats[i := Cur(u).(hand := final)];
  }

  /** With no pick left, the discarding loop changes nothing. */
  lemma AiDiscardsNone(u: TableState, discardable: seq<Card>)
    requires HasCurrent(u)
    ensures AiDiscards(u, discardable, []) == u
  {
    assert u.seats[u.current.value := Cur(u)] == u.seats;
  }

  /** Each step of the loop is DiscardCard called with the two letters read from the card's
      ToString: those letters name the card, whose first copy is marked. */
  lemma AiDiscardStep(t: TableState, c: Card)
    requires HasCurrent(t)
    ensures LettersFromString(ToString(c)).Some?
    ensures DiscardCardOf(t, LettersFromString(ToString(c)).value).0
         == WithCur(t, Cur(t).(hand := MarkedHand(Cur(t).hand, c)))
  {
    LettersNameCard(c);
    DiscardNamed(t, LettersFromString(ToString(c)).value, c);
  }

  /** DiscardCard with a string that names card c marks the first copy of c. */
  lemma DiscardNamed(t: TableState, name: string, c: Card)
    requires HasCurrent(t) && NamedCard(name) == Some(c)
    ensures DiscardCardOf(t, name).0 == WithCur(t, Cur(t).(hand := MarkedHand(Cur(t).hand, c)))
  {
    assert DiscardCardOf(t, name) == MarkFirst(t, c);
    MarkFirstHand(t, c);
  }

  lemma MarkFirstHand(t: TableState, c: Card)
    requires HasCurrent(t)
    ensures MarkFirst(t, c).0 == WithCur(t, Cur(t).(hand := MarkedHand(Cur(t).hand, c)))
  {
    var hand := Cur(t).hand;
    match FindCard(hand, c)
    case None =>
      assert MarkFirst(t, c).0 == t;
      assert Cur(t).(hand := hand) == Cur(t);
      assert t.seats[t.current.value := Cur(t)] == t.seats;
    case Some(k) =>
  }

  /** The cards of the hand that are marked. */
  predicate MarkedIn(hand: seq<HeldCard>, c: Card) {
    exists j :: 0 <= j < |hand| && hand[j].card == c && hand[j].discard
  }

  /** Marking keeps the cards and their order, keeps every mark, marks the card when the hand
      holds it, and marks no other card. */
  lemma MarkedHandMarks(hand: seq<HeldCard>, c: Card)
    ensures CardsOf(MarkedHand(hand, c)) == CardsOf(hand)
    ensures forall j :: 0 <= j < |hand| && hand[j].discard ==> MarkedHand(hand, c)[j].discard
    ensures forall x :: MarkedIn(hand, x) ==> MarkedIn(MarkedHand(hand, c), x)
    ensures c in CardsOf(hand) ==> MarkedIn(MarkedHand(hand, c), c)
    ensures forall x :: MarkedIn(MarkedHand(hand, c), x) ==> MarkedIn(hand, x) || x == c
  {
    var r := MarkedHand(hand, c);
    forall x | MarkedIn(hand, x) ensures MarkedIn(r, x) {
      var j :| 0 <= j < |hand| && hand[j].card == x && hand[j].discard;
      assert r[j].card == x && r[j].discard;
    }
    forall x | MarkedIn(r, x) && x != c ensures MarkedIn(hand, x) {
      var j :| 0 <= j < |r| && r[j].card == x && r[j].discard;
      assert hand[j] == r[j];
    }
    if c in CardsOf(hand) {
      var k := FindCard(hand, c).value;
      assert r[k].card == c && r[k].discard;
    }
  }

  /** The cards the picks choose, in order. */
  function Picked(discardable: seq<Card>, picks: seq<nat>): (r: seq<Card>)
    requires |picks| <= |discardable| && PicksWithin(picks, |discardable|)
    ensures |r| == |picks|
    decreases |picks|
  {
    if picks == [] then []
    else
      var c := discardable[picks[0]];
      PicksTail(picks, discardable, c);
      [c] + Picked(RemoveFirst(discardable, c), picks[1..])
  }

  /** Removing a card leaves only cards that were there. */
  lemma RemoveFirstWithin(l: seq<Card>, c: Card)
    ensures forall x :: x in RemoveFirst(l, c) ==> x in l
  {
    forall x | x in RemoveFirst(l, c) ensures x in l {
      assert x in multiset(RemoveFirst(l, c));
    }
  }

  /** The computer's discards only mark cards: the hand holds the same cards in the same order,
      a marked card stays marked, every card picked from the hand ends up marked, and no card
      that was neither marked nor picked becomes marked. */
  lemma {:induction false} AiMarksMarks(hand: seq<HeldCard>, discardable: seq<Card>, picks: seq<nat>)
    requires |picks| <= |discardable| && PicksWithin(picks, |discardable|)
    requires forall c :: c in discardable ==> c in CardsOf(hand)
    ensures var r := AiMarks(hand, discardable, picks);
      && CardsOf(r) == CardsOf(hand)
      && (forall j :: 0 <= j < |hand| && hand[j].discard ==> r[j].discard)
      && (forall x :: MarkedIn(hand, x) ==> MarkedIn(r, x))
      && (forall c :: c in Picked(discardable, picks) ==> MarkedIn(r, c))
      && (forall x :: MarkedIn(r, x) ==> MarkedIn(hand, x) || x in Picked(discardable, picks))
    decreases |picks|
  {
    if picks != [] {
      var c := discardable[picks[0]];
      var rest := RemoveFirst(discardable, c);
      PicksTail(picks, discardable, c);
      var marked := MarkedHand(hand, c);
      MarkedHandMarks(hand, c);
      RemoveFirstWithin(discardable, c);
      AiMarksMarks(marked, rest, picks[1..]);
      assert AiMarks(hand, discardable, picks) == AiMarks(marked, rest, picks[1..]);
      assert Picked(discardable, picks) == [c] + Picked(rest, picks[1..]);
    }
  }

  /** AutoPlay's action for the current player, before the turn passes: nothing but the
      exception when the round does not exist; otherwise the ante, a card dealt, the discards
      and the draw, the betting choice, or nothing at the showdown. */
  function AutoActionOf(t: TableState, d: AiDraws): Effect
    requires DrawsFit(t, d)
  {
    if !RoundExists(t) then Effect(t, true)
    else match Round(t)
      case Ante => Effect(AnteOf(t), false)
      case DealCardDown => DealOf(t, true)
      case DealCardUp => DealOf(t, false)
      case DealCardCommon => DealCommonOf(t)
      case MayDrawDown => DrawOf(AiDiscards(t, Discardable(Cur(t).hand), d.picks), true)
      case MayDrawUp => DrawOf(AiDiscards(t, Discardable(Cur(t).hand), d.picks), false)
      case Bet => Effect(AiBetOf(t, d), false)
      case Showdown => Effect(t, false)
  }

  /** The betting branch of AutoPlay. */
  function AiBetOf(t: TableState, d: AiDraws): TableState
    requires DrawsFit(t, d)
  {
    match AiChoice(Cur(t).money, BetMinimum(t), t.checkOnly, d.boldness, d.pick)
    case AiCheck => CheckOf(t)
    case AiFold => FoldOf(t)
    case AiAllIn => BetOf(t, "all")
    case AiBet(a) => BetOf(t, IntToString(a))
  }

  /** The bet the computer chooses is one PlaceBet accepts: the player's bet becomes the chosen
      amount, or bet plus stack when all in; a fold takes the player out of the deal and a check
      matches the largest bet. */
  lemma AiBetPlaced(t: TableState, d: AiDraws)
    requires DrawsFit(t, d) && Cur(t).currentBet >= 0 && 0 <= Cur(t).money <= MaxInt32
    ensures var choice := AiChoice(Cur(t).money, BetMinimum(t), t.checkOnly, d.boldness, d.pick);
      var r := AiBetOf(t, d); var i := t.current.value;
      && |r.seats| == |t.seats|
      && (choice.AiBet? ==> r.seats[i].currentBet == choice.amount)
      && (choice.AiAllIn? ==> r.seats[i].currentBet == Cur(t).currentBet + Cur(t).money && r.seats[i].money == 0)
      && (choice.AiFold? ==> r.seats[i].status == OutDeal)
      && (choice.AiCheck? ==> r.seats[i].currentBet == MaxBet(t.seats))
  {
    var choice := AiChoice(Cur(t).money, BetMinimum(t), t.checkOnly, d.boldness, d.pick);
    match choice
    case AiBet(a) =>
      assert AiBetOf(t, d) == BetOf(t, IntToString(a));
      AiBetAccepted(Cur(t).money, BetMinimum(t), t.checkOnly, d.boldness, d.pick, Cur(t).currentBet);
      NumericBetAccepted(t, a);
    case AiAllIn =>
      assert AiBetOf(t, d) == BetOf(t, "all");
      AllInWord(t);
    case AiFold =>
      assert AiBetOf(t, d) == FoldOf(t);
    case AiCheck =>
      assert AiBetOf(t, d) == CheckOf(t);
      CheckBetMatches(t);
  }

  /** The computer's all-in: PlaceBet("all") puts the whole stack in. */
  lemma AllInWord(t: TableState)
    requires HasCurrent(t) && Cur(t).money >= 0
    ensures var r := BetOf(t, "all"); var i := t.current.value;
      r.seats[i].currentBet == Cur(t).currentBet + Cur(t).money && r.seats[i].money == 0
  {
    TrimNothing("all");
    assert ToLower("all") == "all";
    AllInBet(t, "all");
  }

  /** A computer player's action moves chips only between its stack and the pot: no chip is
      made or lost, as long as its stack and the ante are not negative. */
  lemma AutoActionConserves(t: TableState, d: AiDraws)
    requires DrawsFit(t, d) && Cur(t).money >= 0 && t.ante >= 0
    ensures var e := AutoActionOf(t, d);
      e.t.pot + Stacks(e.t.seats) == t.pot + Stacks(t.seats)
  {
    if RoundExists(t) {
      match Round(t)
      case Ante => AnteOutcome(t);
      case DealCardDown => SameMoney(t, DealOf(t, true).t);
      case DealCardUp => SameMoney(t, DealOf(t, false).t);
      case DealCardCommon =>
      case MayDrawDown => DrawConserves(t, d, true);
      case MayDrawUp => DrawConserves(t, d, false);
      case Bet => AiBetConserves(t, d);
      case Showdown =>
    }
  }

  /** The betting choice moves chips only from the player's stack into the pot. */
  lemma AiBetConserves(t: TableState, d: AiDraws)
    requires DrawsFit(t, d) && Cur(t).money >= 0
    ensures var r := AiBetOf(t, d); r.pot + Stacks(r.seats) == t.pot + Stacks(t.seats)
  {
    match AiChoice(Cur(t).money, BetMinimum(t), t.checkOnly, d.boldness, d.pick)
    case AiCheck => CheckBetConserves(t);
    case AiFold => SameMoney(t, FoldOf(t));
    case AiAllIn => BetConserves(t, "all");
    case AiBet(a) => BetConserves(t, IntToString(a));
  }

  /** A change confined to the current seat that leaves its stack and the pot as they were
      keeps the chips on the table. */
  lemma SameMoney(t: TableState, r: TableState)
    requires HasCurrent(t) && OnlySeat(r.seats, t.seats, t.current.value) && r.pot == t.pot
    requires r.seats[t.current.value].money == Cur(t).money
    ensures r.pot + Stacks(r.seats) == t.pot + Stacks(t.seats)
  {
    StacksSameMoney(r.seats, t.seats);
  }

  /** The discards and the draw change only the current player's cards. */
  lemma DrawConserves(t: TableState, d: AiDraws, down: bool)
    requires DrawsFit(t, d)
    ensures var e := DrawOf(AiDiscards(t, Discardable(Cur(t).hand), d.picks), down);
      e.t.pot + Stacks(e.t.seats) == t.pot + Stacks(t.seats)
  {
    var u := AiDiscards(t, Discardable(Cur(t).hand), d.picks);
    SameMoney(t, u);
    DrawKeepsMoney(u, down);
  }

  /** A draw changes only the current player's cards and the deck. */
  lemma DrawKeepsMoney(u: TableState, down: bool)
    requires HasCurrent(u)
    ensures var e := DrawOf(u, down);
      e.t.pot + Stacks(e.t.seats) == u.pot + Stacks(u.seats)
  {
    var n := DiscardCount(Cur(u).hand);
    if n == 0 {
    } else if n <= |u.deck| {
      DrawReplacesDiscards(u, down);
      SameMoney(u, DrawOf(u, down).t);
    } else {
      DrawRunsOut(u, down);
      SameMoney(u, RunOut(u, down));
    }
  }
}
