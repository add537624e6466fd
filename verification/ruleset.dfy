/** RuleSet.cs: the state of one game (its players, pot, deck, rounds and ante) and the actions
    that change it in place. Each method is proved to take the state, read as a value by
    `State()`, to what the matching function of the modules Steps, Setup and Auto computes from
    the old state; the properties of those functions are proved there. The games read from the
    XML file are the map `availableGames`; the random draws are parameters. */
module Rules {
  import opened Optional
  import opened Text
  import opened Cards
  import opened Players
  import opened Table
  import opened Steps
  import opened Setup
  import opened Auto
  import Resolver

  /** The fields of each player object, in seat order: the abstraction from the player objects
      to the table's value state. The ensures gives callers the seat-by-seat view without
      unfolding the comprehension. */
  function SeatsOf(ps: seq<Player>): (r: seq<Seat>)
    reads ps
    ensures |r| == |ps| && forall k :: 0 <= k < |ps| ==> r[k] == ps[k].State()
  {
    seq(|ps|, k requires 0 <= k < |ps| reads ps => ps[k].State())
  }

  /** The filling loop of NewDeal: 52 times, the card at the next draw's position of the list
      still to deal is pushed on the new deck and removed from the list (`picks` holds the draws
      not made yet). The top of the deck is the last card of `pushed`. */
  method ShuffleCards(sh: Shuffle) returns (pushed: seq<Card>)
    requires ValidShuffle(sh)
    ensures pushed == Shuffled(sh.ordered, sh.picks)
  {
    pushed := [];
    var randomOrderCards := sh.ordered;
    var picks := sh.picks;
    var i := 52;
    while i > 0
      invariant 0 <= i <= 52 && |randomOrderCards| == i && PicksFit(picks, i)
      invariant pushed + Shuffled(randomOrderCards, picks) == Shuffled(sh.ordered, sh.picks)
    {
      ShuffledPush(pushed, randomOrderCards, picks);
      var c := randomOrderCards[picks[0]];
      pushed := pushed + [c];
      randomOrderCards := RemoveFirst(randomOrderCards, c);
      picks := picks[1..];
      i := i - 1;
    }
    assert pushed + [] == pushed;
  }

  class RuleSet {
    var gameOver: bool
    var deal: int
    var pot: int
    var commonCards: seq<Card>
    const availableGames: map<string, GameConfig>
    var rounds: seq<Rule>
    var currentRound: int
    var players: seq<Player>
    var minPlayers: int
    var baseMoney: int
    var maxPlayers: int
    var numberOfPlayers: int
    var ante: int
    var anteDoubles: bool
    var gameName: string
    /** The seat of `currentPlayer`; None while it is null. */
    var current: Option<nat>
    /** The stack of cards; its top is the last element. */
    var deck: seq<Card>
    var checkOnly: bool
    /** The seat of `Winner`; None while it is null. */
    var winner: Option<nat>

    /** The fields of the game and of its players, as one value. */
    function State(): TableState
      reads this, players
    {
      TableState(gameOver, deal, pot, commonCards, rounds, currentRound, SeatsOf(players),
                 minPlayers, baseMoney, maxPlayers, numberOfPlayers, ante, anteDoubles, gameName,
                 current, deck, checkOnly, winner)
    }

    /** Each seat holds its own player object. */
    ghost predicate Valid()
      reads this`players
    {
      forall i, j :: 0 <= i < j < |players| ==> players[i] != players[j]
    }

    /** RuleSet(file) once the games are read: every field at its initial value. */
    constructor (games: map<string, GameConfig>)
      ensures Valid() && availableGames == games
      ensures State() == TableState(false, 0, 0, [], [], 0, [], 0, 0, 0, 0, 0, false, "",
                                    None, [], false, None)
    {
      availableGames := games;
      gameOver, deal, pot, commonCards, rounds, currentRound := false, 0, 0, [], [], 0;
      players, minPlayers, baseMoney, maxPlayers, numberOfPlayers := [], 0, 0, 0, 0;
      ante, anteDoubles, gameName, current, deck, checkOnly, winner := 0, false, "", None, [], false, None;
    }

    /** RuleSet.GameOver: ends the game. */
    method GameOver()
      modifies this`gameOver
      ensures State() == old(State()).(gameOver := true)
    {
      gameOver := true;
    }

    // -------------------------------------------------------------------------------------------
    // Setup

    /** RuleSet.SetGame: the rounds are cleared; a known game is then loaded and its name
        recorded. */
    method SetGame(input: string) returns (res: bool)
      modifies this`rounds, this`minPlayers, this`maxPlayers, this`baseMoney, this`ante, this`anteDoubles,
               this`gameName
      ensures var r := SetGameOf(old(State()), availableGames, input); State() == r.t && res == r.ok
    {
      SetRounds([]);
      res := false;
      var normalized := ToLower(Trim(input));
      if normalized in availableGames {
        LoadGame(availableGames[normalized]);
        res := true;
        SetGameName(normalized);
      }
    }

    /** RuleSet.LoadGame on a complete game description: the `players`, `money` and `play`
        elements in turn. */
    method LoadGame(g: GameConfig)
      modifies this`rounds, this`minPlayers, this`maxPlayers, this`baseMoney, this`ante, this`anteDoubles
      ensures State() == old(State()).(minPlayers := g.minPlayers, maxPlayers := g.maxPlayers,
        baseMoney := g.baseMoney, ante := g.ante, anteDoubles := g.anteDoubles,
        rounds := old(rounds) + g.rounds)
    {
      LoadPlayers(g.minPlayers, g.maxPlayers);
      LoadMoney(g.baseMoney, g.ante, g.anteDoubles);
      SetRounds(rounds + g.rounds);
    }

    /** The `players` element: the bounds on the number of players. */
    method LoadPlayers(min: int, max: int)
      modifies this`minPlayers, this`maxPlayers
      ensures State() == old(State()).(minPlayers := min, maxPlayers := max)
    {
      minPlayers := min;
      maxPlayers := max;
    }

    /** The `money` element: the starting money, the ante and whether it doubles. */
    method LoadMoney(start: int, theAnte: int, doubles: bool)
      modifies this`baseMoney, this`ante, this`anteDoubles
      ensures State() == old(State()).(baseMoney := start, ante := theAnte, anteDoubles := doubles)
    {
      baseMoney := start;
      ante := theAnte;
      anteDoubles := doubles;
    }

    method SetRounds(rs: seq<Rule>)
      modifies this`rounds
      ensures State() == old(State()).(rounds := rs)
    {
      rounds := rs;
    }

    method SetGameName(name: string)
      modifies this`gameName
      ensures State() == old(State()).(gameName := name)
    {
      gameName := name;
    }

    method SetNumberOfPlayers(input: string) returns (res: bool)
      modifies this`numberOfPlayers
      ensures var r := SetNumberOfPlayersOf(old(State()), input); State() == r.t && res == r.ok
    {
      res := false;
      var num := ParsedOrZero(input);
      if num >= minPlayers && num <= maxPlayers {
        numberOfPlayers := num;
        res := true;
      }
    }

    /** RuleSet.SetPlayerTypes: one new player per leading 'a' or 'h' of the normalized input,
        when it has one character per player. `threw` is the index error of `players[0]` when no
        player is asked for and there is none. */
    method SetPlayerTypes(input: string) returns (res: bool, threw: bool)
      requires Valid()
      modifies this`players, this`current
      ensures Valid()
      ensures var r := SetPlayerTypesOf(old(State()), input);
        State() == r.t && res == r.ok && threw == r.threw
    {
      res, threw := false, false;
      var normalized := ToLower(Trim(input));
      if |normalized| == numberOfPlayers {
        AddPlayers(normalized);
        res, threw := FinishSeating();
      }
    }

    /** The end of SetPlayerTypes: the list is emptied unless it holds exactly the number of
        players; otherwise the first player plays first (`players[0]`, which throws with no
        players). */
    method FinishSeating() returns (res: bool, threw: bool)
      requires Valid()
      modifies this`players, this`current
      ensures Valid()
      ensures var r := SeatingOf(old(State())); State() == r.t && res == r.ok && threw == r.threw
    {
      ghost var t1 := State();
      threw := false;
      res := |players| == numberOfPlayers;
      if !res {
        players := [];
        assert State() == t1.(seats := []);
        return;
      }
      if |players| == 0 {
        threw := true;
        return;
      }
      current := Some(0);
      assert State() == t1.(current := Some(0));
    }

    /** The loop of SetPlayerTypes: a new player with the starting money for each leading 'a'
        (a computer) or 'h' (a human) of `normalized`. */
    method AddPlayers(normalized: string)
      requires Valid()
      modifies this`players
      ensures Valid()
      ensures State() == old(State()).(seats := old(State()).seats + NewSeats(TypePrefix(normalized), baseMoney))
    {
      ghost var t0 := State();
      ghost var created := TypePrefix(normalized);
      ghost var target := t0.seats + NewSeats(created, baseMoney);
      var k := 0;
      while k < |normalized| && (normalized[k] == 'a' || normalized[k] == 'h')
        invariant k <= |created|
        invariant |players| == |t0.seats| + k && Valid()
        invariant forall j :: 0 <= j < |players| ==> players[j].State() == target[j]
        decreases |normalized| - k
      {
        assert k < |created| && created[k] == (if normalized[k] == 'a' then AI else Human);
        var pt := if normalized[k] == 'a' then AI else Human;
        var p := new Player(pt, baseMoney);
        assert p.State() == target[|players|];
        players := players + [p];
        k := k + 1;
      }
      assert SeatsOf(players) == target;
    }

    /** RuleSet.SetPlayerNames: the empty input gives every player the name "Player <seat>";
        otherwise the trimmed input split at spaces names the players in order, when there is
        one name per player. */
    method SetPlayerNames(input: string) returns (res: bool)
      requires Valid()
      modifies players
      ensures Valid() && players == old(players)
      ensures var r := SetPlayerNamesOf(old(State()), input); State() == r.t && res == r.ok
    {
      res := input == "";
      var normalized := Trim(input);
      var pNames := Split(normalized, ' ');
      NameEach(res, pNames);
      res := if res then true else |pNames| == |players|;
    }

    /** The loop of SetPlayerNames over the players, in order. */
    method NameEach(byDefault: bool, pNames: seq<string>)
      requires Valid()
      modifies players
      ensures State() == old(State()).(seats :=
        if byDefault then DefaultNamed(old(State()).seats)
        else if |pNames| == |players| then Named(old(State()).seats, pNames)
        else old(State()).seats)
    {
      ghost var t0 := State();
      ghost var named := if byDefault then DefaultNamed(t0.seats)
                         else if |pNames| == |players| then Named(t0.seats, pNames)
                         else t0.seats;
      var k := 0;
      while k < |players|
        invariant k <= |players|
        invariant !byDefault && |pNames| != |players| ==> k == 0
        invariant forall j :: 0 <= j < |players| ==> players[j].State() == if j < k then named[j] else t0.seats[j]
      {
        if byDefault {
          players[k].SetName(DefaultName(k));
        } else if |pNames| == |players| {
          players[k].SetName(pNames[k]);
        } else {
          break;
        }
        k := k + 1;
      }
      assert SeatsOf(players) == named;
    }

    /** RuleSet.SetAnte: the empty input keeps the ante; a number strictly between 0 and half
        the starting money becomes the ante; anything else is refused. */
    method SetAnte(input: string) returns (res: bool)
      modifies this`ante
      ensures var r := SetAnteOf(old(State()), input); State() == r.t && res == r.ok
    {
      ghost var r := SetAnteOf(State(), input);
      res := input == "";
      var normalized := Trim(input);
      if !res {
        var theAnte := ParsedOrZero(normalized);
        if theAnte > 0 && theAnte < DivTrunc(baseMoney, 2) {
          assert r.t == State().(ante := theAnte);
          PutAnte(theAnte);
          res := true;
        }
      }
    }

    method SetAnteDoubles(input: string) returns (res: bool)
      modifies this`anteDoubles
      ensures var r := SetAnteDoublesOf(old(State()), input); State() == r.t && res == r.ok
    {
      res := input == "";
      var normalized := Trim(input);
      if !res {
        if normalized == "yes" {
          anteDoubles := true;
          res := true;
        } else if normalized == "no" {
          res := true;
          anteDoubles := false;
        }
      }
    }

    // -------------------------------------------------------------------------------------------
    // The current player's actions

    /** RuleSet.CheckBet: the current player pays what is missing to reach the largest bet, or
        the whole stack when that is less; the pot receives it and the bet becomes the largest. */
    method CheckBet() returns (paid: int)
      requires Valid() && HasCurrent(State())
      modifies this`pot, players
      ensures State() == CheckOf(old(State())) && paid == CheckPaid(old(State()))
    {
      var i := current.value;
      var maxBet := MaxBet(SeatsOf(players));
      paid := Match(maxBet, players[i].currentBet, players[i].money);
      PayBet(i, maxBet);
    }

    /** RuleSet.PlaceBet: `s` is "all" or a total bet between the minimum and what the player
        has; an accepted bet is paid into the pot and becomes the player's bet. */
    method PlaceBet(s: string) returns (success: bool, amount: int)
      requires Valid() && HasCurrent(State())
      modifies this`pot, players
      ensures State() == BetOf(old(State()), s) && (success, amount) == BetAsked(old(State()), s)
    {
      var i := current.value;
      var maxBet := MaxBet(SeatsOf(players));
      var min := if maxBet < ante then ante else maxBet;
      var request := BetRequest(s, players[i].currentBet, players[i].money, min);
      success, amount := request.0, request.1;
      if success {
        PayBet(i, amount);
      }
    }

    /** Seat i pays `paid` (when positive) from its stack into the pot. */
    method PayIn(i: nat, paid: int)
      requires Valid() && i < |players|
      modifies this`pot, players[i]
      ensures var s := old(State()).seats[i];
        State() == old(State()).(seats := old(State()).seats[i := s.(money := AfterSpend(s.money, paid))],
                                 pot := old(pot) + paid)
    {
      SpendAt(i, paid);
      PutPot(pot + paid);
    }

    /** The accepted bet `amount` of seat i: what is missing to reach it (or the whole stack)
        goes into the pot, and it becomes the seat's bet. */
    method PayBet(i: nat, amount: int)
      requires Valid() && i < |players|
      modifies this`pot, players[i]
      ensures var s := old(State()).seats[i]; var paid := Match(amount, s.currentBet, s.money);
        State() == old(State()).(seats := old(State()).seats[i := s.(money := AfterSpend(s.money, paid), currentBet := amount)],
                                 pot := old(pot) + paid)
    {
      var matched := Match(amount, players[i].currentBet, players[i].money);
      SpendAt(i, matched);
      PutBet(i, amount);
      PutPot(pot + matched);
    }

    /** RuleSet.FoldBet: the current player is out of this deal. */
    method FoldBet()
      requires Valid() && HasCurrent(State())
      modifies players
      ensures State() == FoldOf(old(State()))
    {
      players[current.value].status := OutDeal;
    }

    /** RuleSet.QuitGame: the current player leaves the game with no bet; the result is the
        stack minus the starting money. */
    method QuitGame() returns (gains: int)
      requires Valid() && HasCurrent(State())
      modifies players
      ensures State() == QuitOf(old(State())) && gains == QuitGains(old(State()))
    {
      var p := players[current.value];
      p.status := OutGame;
      p.currentBet := 0;
      gains := p.money - baseMoney;
    }

    /** RuleSet.PlaceNecessaryAnte: the ante, or the whole stack when it is less, goes into the
        pot; a player left with no money loses, and the result is then -1. */
    method PlaceNecessaryAnte() returns (res: int)
      requires Valid() && HasCurrent(State())
      modifies this`pot, this`gameOver, this`winner, players
      ensures State() == AnteOf(old(State())) && res == AnteResult(old(State()))
    {
      ghost var t0 := State();
      var i := current.value;
      var paid := if ante < players[i].money then ante else players[i].money;
      assert paid == AntePaid(t0);
      PayIn(i, paid);
      assert State() == AnteTaken(t0);
      assert players[i].money == State().seats[i].money;
      if players[i].money <= 0 {
        Loss(i);
        return -1;
      }
      return paid;
    }

    // -------------------------------------------------------------------------------------------
    // Cards

    /** RuleSet.DiscardCard: the first card of the current player's hand that the two letters
        name is marked as discarded. */
    method DiscardCard(card: string) returns (res: bool)
      requires Valid() && HasCurrent(State())
      modifies players
      ensures var r := DiscardCardOf(old(State()), card); State() == r.0 && res == r.1
    {
      var named := NamedCard(card);
      if named.Some? {
        res := MarkCard(named.value);
      } else {
        res := false;
      }
    }

    /** The marking step of DiscardCard: `Hand.Exists(select)`, then the card `Find` returns
        is marked. */
    method MarkCard(c: Card) returns (res: bool)
      requires Valid() && HasCurrent(State())
      modifies players
      ensures var r := MarkFirst(old(State()), c); State() == r.0 && res == r.1
    {
      var i := current.value;
      var hand := players[i].hand;
      var found := FindCard(hand, c);
      res := found.Some?;
      if res {
        PutHand(i, hand[found.value := hand[found.value].(discard := true)]);
      }
    }

    /** RuleSet.DealCardDown (down) and DealCardUp (up): the top card of the deck goes to the end
        of the current player's hand; `threw` is the exception of Pop on an empty deck. */
    method DealCard(down: bool) returns (threw: bool)
      requires Valid() && HasCurrent(State())
      modifies this`deck, players
      ensures var e := DealOf(old(State()), down); State() == e.t && threw == e.threw
    {
      if deck == [] {
        return true;
      }
      var c := deck[|deck| - 1];
      PutDeck(deck[..|deck| - 1]);
      AddCardAt(current.value, HeldCard(c, down, false));
      return false;
    }

    /** RuleSet.DealCardCommon: the top card of the deck joins the common cards. */
    method DealCardCommon() returns (threw: bool)
      modifies this`deck, this`commonCards
      ensures var e := DealCommonOf(old(State())); State() == e.t && threw == e.threw
    {
      if deck == [] {
        return true;
      }
      var c := deck[|deck| - 1];
      PutDeck(deck[..|deck| - 1]);
      PutCommonCards(commonCards + [c]);
      return false;
    }

    /** RuleSet.DrawCardsDown (down) and DrawCardsUp (up): one card from the deck per marked
        card, then the marked cards leave the hand. */
    method DrawCards(down: bool) returns (threw: bool)
      requires Valid() && HasCurrent(State())
      modifies this`deck, players
      ensures var e := DrawOf(old(State()), down); State() == e.t && threw == e.threw
    {
      var i := current.value;
      var cardsToDraw := DiscardCount(players[i].hand);
      if cardsToDraw <= 0 {
        return false;
      }
      threw := PopCards(cardsToDraw, down);
      if !threw {
        RemoveDiscardsAt(i);
      }
    }

    /** The loop of the draw: n times, the top card of the deck is popped and appended to the
        current player's hand (the body of DealCardDown or DealCardUp); the deck running out
        throws. */
    method PopCards(n: nat, down: bool) returns (threw: bool)
      requires Valid() && HasCurrent(State())
      modifies this`deck, players
      ensures n <= |old(deck)| ==> State() == Drawing(old(State()), down, n) && !threw
      ensures n > |old(deck)| ==> State() == RunOut(old(State()), down) && threw
    {
      ghost var t0 := State();
      DrawingNone(t0, down);
      threw := false;
      var k := 0;
      while k < n
        invariant k <= n && k <= |t0.deck|
        invariant State() == Drawing(t0, down, k)
      {
        if k < |t0.deck| {
          DrawingStep(t0, down, k);
        }
        threw := DealCard(down);
        if threw {
          assert k == |t0.deck| && State() == RunOut(t0, down);
          return;
        }
        k := k + 1;
      }
    }

    // -------------------------------------------------------------------------------------------
    // Loss and victory

    /** RuleSet.Loss: unless the game is over, the player at seat k is out of the game, and with
        at most one player left in it the first such player wins and the game ends. */
    method Loss(k: nat)
      requires Valid() && k < |players|
      modifies this`gameOver, this`winner, players
      ensures State() == LossOf(old(State()), k)
    {
      if gameOver {
        return;
      }
      PutStatus(k, OutGame);
      if Count(SeatsOf(players), NotOutGame) <= 1 {
        PutWinner(FindFrom(SeatsOf(players), 0, NotOutGame));
        GameOver();
      }
    }

    /** RuleSet.Victory: unless the game is over, the player at seat w gains the pot, and wins
        the game when every player but the current one is broke or out of it. */
    method Victory(w: nat)
      requires Valid() && w < |players|
      modifies this`gameOver, this`winner, players
      ensures State() == VictoryOf(old(State()), w)
    {
      if gameOver {
        return;
      }
      GainAt(w, pot);
      if OthersBroke(SeatsOf(players), current) {
        PutWinner(Some(w));
        GameOver();
      }
    }

    // -------------------------------------------------------------------------------------------
    // A new deal

    /** RuleSet.NewDeal, up to Prompt: unless the game is over, the broke players lose; the game
        ends when at most one player is left in it; otherwise a new deal starts. */
    method NewDeal(sh: Shuffle)
      requires Valid() && ValidShuffle(sh)
      modifies this`gameOver, this`winner, this`pot, this`ante, this`currentRound, this`deck,
               this`commonCards, this`current, this`deal, players
      ensures State() == NewDealOf(old(State()), sh)
    {
      if gameOver {
        return;
      }
      ghost var t0 := State();
      Sweep();
      ghost var u := State();
      if Count(SeatsOf(players), IsOutGame) >= |players| - 1 {
        PutWinner(FindFrom(SeatsOf(players), 0, NotOutGame));
        GameOver();
        return;
      }
      SweepEnds(t0, |t0.seats|);
      CountComplement(u.seats);
      SweepClears(t0, |t0.seats|);
      StartNewDeal(sh);
    }

    /** The first loop of NewDeal: each player with no money who is not out of the game loses. */
    method Sweep()
      requires Valid()
      modifies this`gameOver, this`winner, players
      ensures State() == SweepOf(old(State()), |players|)
    {
      ghost var t0 := State();
      var k := 0;
      while k < |players|
        invariant k <= |players|
        invariant State() == SweepOf(t0, k)
      {
        ghost var u := State();
        assert players[k].State() == u.seats[k];
        if players[k].money <= 0 && players[k].status != OutGame {
          Loss(k);
          assert State() == LossOf(u, k);
        }
        k := k + 1;
      }
    }

    /** The rest of NewDeal when the game goes on: an empty pot, the ante doubled when the game
        says so and a deal has been played, round 0, a shuffled deck, no common card, every
        player reset, the first player not out of the game to play, one more deal. */
    method StartNewDeal(sh: Shuffle)
      requires Valid() && ValidShuffle(sh)
      requires forall j :: 0 <= j < |players| ==> players[j].money > 0 || players[j].status == OutGame
      modifies this`pot, this`ante, this`currentRound, this`deck, this`commonCards, this`current,
               this`deal, players
      ensures State() == StartDeal(old(State()), sh)
    {
      PrepareDeal(sh);
      PutCurrent(FindFrom(SeatsOf(players), 0, NotOutGame));
      PutDeal(deal + 1);
    }

    /** The table cleared, the deck filled and every player reset. */
    method PrepareDeal(sh: Shuffle)
      requires Valid() && ValidShuffle(sh)
      requires forall j :: 0 <= j < |players| ==> players[j].money > 0 || players[j].status == OutGame
      modifies this`pot, this`ante, this`currentRound, this`deck, this`commonCards, players
      ensures State() ==
        Cleared(old(State())).(deck := Shuffled(sh.ordered, sh.picks), seats := ResetSeats(old(State()).seats))
    {
      ClearTable();
      var cards := ShuffleCards(sh);
      PutDeck(cards);
      ResetPlayers();
    }

    /** The start of a new deal: an empty pot, the ante doubled (as a 32-bit int) when the game
        says so and a deal has been played, round 0, no card in the deck or on the table. */
    method ClearTable()
      modifies this`pot, this`ante, this`currentRound, this`deck, this`commonCards
      ensures State() == Cleared(old(State()))
    {
      PutPot(0);
      if deal > 0 && anteDoubles {
        PutAnte(Wrap32(ante * 2));
      }
      PutCurrentRound(0);
      PutDeck([]);
      PutCommonCards([]);
    }

    /** The second loop of NewDeal: everyone out of the deal only is back in it, and nobody has
        cards or a bet. After the sweep nobody is broke and still in the game, so the loss this
        loop would inflict never happens. */
    method ResetPlayers()
      requires Valid()
      requires forall j :: 0 <= j < |players| ==> players[j].money > 0 || players[j].status == OutGame
      modifies players
      ensures State() == old(State()).(seats := ResetSeats(old(State()).seats))
    {
      ghost var t0 := State();
      var k := 0;
      while k < |players|
        invariant k <= |players|
        invariant forall j :: 0 <= j < |players| ==>
          players[j].State() == if j < k then ResetSeat(t0.seats[j]) else t0.seats[j]
      {
        var p := players[k];
        if p.status == OutDeal {
          p.status := In;
        }
        p.hand := [];
        p.currentBet := 0;
        if p.money <= 0 && p.status != OutGame {
          assert false;
        }
        k := k + 1;
      }
      assert SeatsOf(players) == ResetSeats(t0.seats);
    }

    // -------------------------------------------------------------------------------------------
    // The end of a turn

    /** RuleSet.NextPlayerRoundOrDeal, up to Prompt: the turn passes to the next player, the
        next round or the next deal. `verdict` is what Card.Showdown returned when the hands were
        compared (and Returned(None) otherwise). */
    method NextPlayerRoundOrDeal(sh: Shuffle) returns (threw: bool, verdict: Resolver.Outcome)
      requires Valid() && ValidShuffle(sh)
      modifies this`gameOver, this`winner, this`pot, this`ante, this`currentRound, this`deck,
               this`commonCards, this`current, this`deal, this`checkOnly, players
      ensures VerdictFits(old(State()), verdict)
      ensures ShowdownDue(old(State())) ==> ShowdownResult(ContendersOf(old(State())), verdict)
      ensures var e := NextOf(old(State()), sh, verdict); State() == e.t && threw == e.threw
    {
      threw, verdict := false, Resolver.Returned(None);
      if gameOver {
        return;
      }
      var seats := SeatsOf(players);
      if Count(seats, IsIn) <= 1 {
        threw := LastPlayerWins(sh);
        return;
      }
      if !(0 <= currentRound < |rounds|) {
        threw := true;
        return;
      }
      if rounds[currentRound] == Rule.DealCardCommon {
        StartNextRound();
        return;
      }
      threw, verdict := PassTurn(sh);
    }

    /** The end of a turn in a round other than the common card, with two players or more in
        the deal: when nobody after the current player is left to play, the bets are matched
        (in a betting round) and the next round is the showdown, the hands are compared and the
        deal settled; otherwise the turn passes. */
    method PassTurn(sh: Shuffle) returns (threw: bool, verdict: Resolver.Outcome)
      requires Valid() && ValidShuffle(sh) && RoundExists(State()) && Count(State().seats, IsIn) > 1
      requires !gameOver && Round(State()) != Rule.DealCardCommon
      modifies this`gameOver, this`winner, this`pot, this`ante, this`currentRound, this`deck,
               this`commonCards, this`current, this`deal, this`checkOnly, players
      ensures VerdictFits(old(State()), verdict)
      ensures ShowdownDue(old(State())) ==> ShowdownResult(ContendersOf(old(State())), verdict)
      ensures var e := TurnOf(old(State()), sh, verdict); State() == e.t && threw == e.threw
    {
      ghost var t0 := State();
      var seats := SeatsOf(players);
      var np := FindFrom(seats, if current.Some? then current.value + 1 else 0, IsIn);
      assert np == FindFrom(t0.seats, After(t0), IsIn);
      if np.None? && !(rounds[currentRound] == Rule.Bet && !BetsMatched(seats))
         && currentRound < |rounds| - 1 && rounds[currentRound + 1] == Rule.Showdown
      {
        assert ShowdownDue(t0);
        threw, verdict := ShowdownAndDeal(sh);
        assert TurnOf(t0, sh, verdict) == Settle(t0, sh, verdict);
      } else {
        assert !ShowdownDue(t0);
        verdict := Resolver.Returned(None);
        threw := PassOn();
        assert TurnOf(t0, sh, verdict) == PassOf(t0);
      }
    }

    /** The turn passes: the next player in the deal plays; otherwise an unmatched betting round
        goes around again, checks only; otherwise the next round starts; reading past the last
        round throws. */
    method PassOn() returns (threw: bool)
      requires Valid() && RoundExists(State())
      modifies this`currentRound, this`current, this`checkOnly
      ensures var e := PassOf(old(State())); State() == e.t && threw == e.threw
    {
      threw := false;
      var seats := SeatsOf(players);
      var np := FindFrom(seats, if current.Some? then current.value + 1 else 0, IsIn);
      if np.Some? {
        PutCurrent(np);
        return;
      }
      if rounds[currentRound] == Rule.Bet && !BetsMatched(seats) {
        PutCheckOnly(true);
        PutCurrent(FindFrom(seats, 0, IsIn));
        return;
      }
      if currentRound < |rounds| - 1 {
        StartNextRound();
        return;
      }
      threw := true;
    }

    /** The next round starts with the first player in the deal, betting open again. */
    method StartNextRound()
      modifies this`checkOnly, this`currentRound, this`current
      ensures State() == NextRound(old(State()))
    {
      PutCheckOnly(false);
      PutCurrentRound(currentRound + 1);
      PutCurrent(FindFrom(SeatsOf(players), 0, IsIn));
    }

    /** The last player in the deal wins it (nobody in it throws), then a new deal starts. */
    method LastPlayerWins(sh: Shuffle) returns (threw: bool)
      requires Valid() && ValidShuffle(sh)
      modifies this`gameOver, this`winner, this`pot, this`ante, this`currentRound, this`deck,
               this`commonCards, this`current, this`deal, this`checkOnly, players
      ensures var e := LastStanding(old(State()), sh); State() == e.t && threw == e.threw
    {
      var w := FindFrom(SeatsOf(players), 0, IsIn);
      if w.None? {
        return true;
      }
      Victory(w.value);
      EndDeal(sh);
      return false;
    }

    /** The end of a won or drawn deal: betting open again and, unless the game is over, a new
        deal. */
    method EndDeal(sh: Shuffle)
      requires Valid() && ValidShuffle(sh)
      modifies this`gameOver, this`winner, this`pot, this`ante, this`currentRound, this`deck,
               this`commonCards, this`current, this`deal, this`checkOnly, players
      ensures State() == EndDealOf(old(State()), sh)
    {
      PutCheckOnly(false);
      if !gameOver {
        NewDeal(sh);
      }
    }

    /** The showdown: the hands of the players in the deal are compared by Card.Showdown as
        written (so a later seat's sole best hand is usually reported as a draw); the winner
        takes the pot, or with no winner every player in the deal receives `pot / count`; then a
        new deal starts. */
    method ShowdownAndDeal(sh: Shuffle) returns (threw: bool, verdict: Resolver.Outcome)
      requires Valid() && ValidShuffle(sh) && Count(SeatsOf(players), IsIn) > 0
      modifies this`gameOver, this`winner, this`pot, this`ante, this`currentRound, this`deck,
               this`commonCards, this`current, this`deal, this`checkOnly, players
      ensures VerdictFits(old(State()), verdict) && ShowdownResult(ContendersOf(old(State())), verdict)
      ensures var e := Settle(old(State()), sh, verdict); State() == e.t && threw == e.threw
    {
      var cs := Contenders();
      verdict := Resolver.ShowdownAsWritten(cs, SeatHands(State()));
      threw := Settlement(verdict, sh);
    }

    /** What follows Card.Showdown: nothing but the exception when it threw; otherwise the pot
        goes to the winner or, with none, `pot / count` to each player in the deal; then the deal
        ends. */
    method Settlement(verdict: Resolver.Outcome, sh: Shuffle) returns (threw: bool)
      requires Valid() && ValidShuffle(sh) && Count(SeatsOf(players), IsIn) > 0
      requires VerdictFits(State(), verdict)
      modifies this`gameOver, this`winner, this`pot, this`ante, this`currentRound, this`deck,
               this`commonCards, this`current, this`deal, this`checkOnly, players
      ensures var e := Settle(old(State()), sh, verdict); State() == e.t && threw == e.threw
    {
      if verdict.Thrown? {
        return true;
      }
      if verdict.p.None? {
        SharePot(DivTrunc(pot, Count(SeatsOf(players), IsIn)));
      } else {
        Victory(verdict.p.value);
      }
      EndDeal(sh);
      return false;
    }

    /** The list of hands NextPlayerRoundOrDeal builds for the showdown: for each player in the
        deal, the hand's cards followed by the common cards. */
    method Contenders() returns (cs: seq<Resolver.Contender>)
      ensures cs == ContendersOf(State())
    {
      ghost var seats := SeatsOf(players);
      assert seats[..0] == [];
      cs := [];
      var k := 0;
      while k < |players|
        invariant k <= |players|
        invariant cs == ContendersIn(seats[..k], commonCards)
      {
        ContendersStep(seats, commonCards, k);
        if players[k].status == In {
          cs := cs + [Resolver.Contender(CardsOf(players[k].hand) + commonCards, k)];
        }
        k := k + 1;
      }
      assert seats[..k] == seats;
    }

    /** `remainingPlayers.ForEach(o => o.Gain(share))`. */
    method SharePot(share: int)
      requires Valid()
      modifies players
      ensures State() == old(State()).(seats := SplitPot(old(State()).seats, share))
    {
      ghost var t0 := State();
      var k := 0;
      while k < |players|
        invariant k <= |players|
        invariant forall j :: 0 <= j < |players| ==>
          players[j].State() == if j < k then GainIfIn(t0.seats[j], share) else t0.seats[j]
      {
        if players[k].status == In {
          players[k].Gain(share);
        }
        k := k + 1;
      }
      assert SeatsOf(players) == SplitPot(t0.seats, share);
    }

    // -------------------------------------------------------------------------------------------
    // The computer player

    /** RuleSet.AutoPlay for the current player: a computer player in the deal plays its round,
        then the turn ends. */
    method AutoPlay(d: AiDraws, sh: Shuffle) returns (threw: bool, verdict: Resolver.Outcome)
      requires Valid() && DrawsFit(State(), d) && ValidShuffle(sh)
      modifies this`gameOver, this`winner, this`pot, this`ante, this`currentRound, this`deck,
               this`commonCards, this`current, this`deal, this`checkOnly, players
      ensures var t := old(State());
        if t.gameOver || Cur(t).playerType != AI || Cur(t).status != In then State() == t && !threw
        else var a := AutoActionOf(t, d);
          if a.threw then State() == a.t && threw
          else VerdictFits(a.t, verdict) && var e := NextOf(a.t, sh, verdict); State() == e.t && threw == e.threw
    {
      threw, verdict := false, Resolver.Returned(None);
      if gameOver {
        return;
      }
      var p := players[current.value];
      if p.playerType == AI && p.status == In {
        threw := AutoAction(d);
        if !threw {
          threw, verdict := NextPlayerRoundOrDeal(sh);
        }
      }
    }

    /** The switch of AutoPlay on the round. */
    method AutoAction(d: AiDraws) returns (threw: bool)
      requires Valid() && DrawsFit(State(), d)
      modifies this`gameOver, this`winner, this`pot, this`deck, this`commonCards, players
      ensures var a := AutoActionOf(old(State()), d); State() == a.t && threw == a.threw
    {
      threw := false;
      if !(0 <= currentRound < |rounds|) {
        return true;
      }
      match rounds[currentRound]
      case Ante =>
        var _ := PlaceNecessaryAnte();
      case DealCardDown =>
        threw := DealCard(true);
      case DealCardCommon =>
        threw := DealCardCommon();
      case DealCardUp =>
        threw := DealCard(false);
      case MayDrawUp =>
        AiDiscard(d.picks);
        threw := DrawCards(false);
      case MayDrawDown =>
        AiDiscard(d.picks);
        threw := DrawCards(true);
      case Bet =>
        AiBet(d);
      case Showdown =>
    }

    /** The discarding loop of AutoPlay: each pick chooses a card among those not marked yet; the
        card leaves that list and DiscardCard is called with the two letters read from its
        name. */
    method AiDiscard(picks: seq<nat>)
      requires Valid() && HasCurrent(State())
      requires var n := |Discardable(Cur(State()).hand)|; (|picks| < n || picks == []) && PicksWithin(picks, n)
      modifies players
      ensures State() == AiDiscards(old(State()), Discardable(Cur(old(State())).hand), picks)
    {
      ghost var t0 := State();
      var discardable := Discardable(players[current.value].hand);
      var discarded := |picks|;
      var i := 0;
      assert picks[0..] == picks;
      while i < discarded
        invariant i <= |picks| && |picks[i..]| <= |discardable| && PicksWithin(picks[i..], |discardable|)
        invariant HasCurrent(State()) && current == t0.current
        invariant AiDiscards(State(), discardable, picks[i..]) == AiDiscards(t0, Discardable(Cur(t0).hand), picks)
      {
        var c := discardable[picks[i]];
        AiDiscardsStep(State(), discardable, picks[i..]);
        AiDiscardStep(State(), c);
        assert picks[i..][1..] == picks[i + 1..];
        var twoLetters := LettersFromString(ToString(c)).value;
        discardable := RemoveFirst(discardable, c);
        var _ := DiscardCard(twoLetters);
        i := i + 1;
      }
      AiDiscardsNone(State(), discardable);
    }

    /** The betting branch of AutoPlay. */
    method AiBet(d: AiDraws)
      requires Valid() && DrawsFit(State(), d)
      modifies this`pot, players
      ensures State() == AiBetOf(old(State()), d)
    {
      var i := current.value;
      var maxBet := MaxBet(SeatsOf(players));
      var min := if maxBet < ante then ante else maxBet;
      match AiChoice(players[i].money, min, checkOnly, d.boldness, d.pick)
      case AiCheck =>
        var _ := CheckBet();
      case AiFold =>
        FoldBet();
      case AiAllIn =>
        var _, _ := PlaceBet("all");
      case AiBet(a) =>
        var _, _ := PlaceBet(IntToString(a));
    }

    // -------------------------------------------------------------------------------------------
    // Single writes, each with the new state as a value

    method PutAnte(a: int)
      modifies this`ante
      ensures State() == old(State()).(ante := a)
    {
      ante := a;
    }

    method PutWinner(w: Option<nat>)
      modifies this`winner
      ensures State() == old(State()).(winner := w)
    {
      winner := w;
    }

    method PutCurrentRound(r: int)
      modifies this`currentRound
      ensures State() == old(State()).(currentRound := r)
    {
      currentRound := r;
    }

    method PutCurrent(c: Option<nat>)
      modifies this`current
      ensures State() == old(State()).(current := c)
    {
      current := c;
    }

    method PutDeal(n: int)
      modifies this`deal
      ensures State() == old(State()).(deal := n)
    {
      deal := n;
    }

    method PutCheckOnly(b: bool)
      modifies this`checkOnly
      ensures State() == old(State()).(checkOnly := b)
    {
      checkOnly := b;
    }

    method PutDeck(d: seq<Card>)
      modifies this`deck
      ensures State() == old(State()).(deck := d)
    {
      deck := d;
    }

    method PutCommonCards(cs: seq<Card>)
      modifies this`commonCards
      ensures State() == old(State()).(commonCards := cs)
    {
      commonCards := cs;
    }

    /** `players[i].AddCard(c)`. */
    method AddCardAt(i: nat, c: HeldCard)
      requires Valid() && i < |players|
      modifies players[i]
      ensures State() == old(State()).(seats := old(State()).seats[i := old(State()).seats[i].(hand := old(State()).seats[i].hand + [c])])
    {
      players[i].AddCard(c);
    }

    /** The hand of players[i] replaced (a card marked, or the hand cleared). */
    method PutHand(i: nat, hand: seq<HeldCard>)
      requires Valid() && i < |players|
      modifies players[i]
      ensures State() == old(State()).(seats := old(State()).seats[i := old(State()).seats[i].(hand := hand)])
    {
      players[i].hand := hand;
    }

    /** `players[i].RemoveDiscards()`. */
    method RemoveDiscardsAt(i: nat)
      requires Valid() && i < |players|
      modifies players[i]
      ensures State() == old(State()).(seats := old(State()).seats[i :=
        old(State()).seats[i].(hand := WithoutDiscards(old(State()).seats[i].hand))])
    {
      players[i].RemoveDiscards();
    }

    /** `players[i].PlayerStatus = st`. */
    method PutStatus(i: nat, st: PlayerStatus)
      requires Valid() && i < |players|
      modifies players[i]
      ensures State() == old(State()).(seats := old(State()).seats[i := old(State()).seats[i].(status := st)])
    {
      players[i].status := st;
    }

    method PutPot(v: int)
      modifies this`pot
      ensures State() == old(State()).(pot := v)
    {
      pot := v;
    }

    /** `players[i].Spend(amount)`. */
    method SpendAt(i: nat, amount: int)
      requires Valid() && i < |players|
      modifies players[i]
      ensures State() == old(State()).(seats := old(State()).seats[i :=
        old(State()).seats[i].(money := AfterSpend(old(State()).seats[i].money, amount))])
    {
      var _ := players[i].Spend(amount);
    }

    /** `players[i].CurrentBet = v`. */
    method PutBet(i: nat, v: int)
      requires Valid() && i < |players|
      modifies players[i]
      ensures State() == old(State()).(seats := old(State()).seats[i := old(State()).seats[i].(currentBet := v)])
    {
      players[i].currentBet := v;
    }

    /** `players[i].Gain(amount)`. */
    method GainAt(i: nat, amount: int)
      requires Valid() && i < |players|
      modifies players[i]
      ensures State() == old(State()).(seats := old(State()).seats[i :=
        old(State()).seats[i].(money := AfterGain(old(State()).seats[i].money, amount))])
    {
      players[i].Gain(amount);
    }
  }
}
