/** The state of a RuleSet table as one value, and each action of RuleSet.cs as a function from
    the state before it to the state after it. The class RuleSet (ruleset.dfy) performs these
    actions on its fields and on its Player objects and is proved to agree with the functions
    here; the properties of the game are proved here, on values. */
module Steps {
  import opened Optional
  import opened Text
  import opened Cards
  import opened Players
  import opened Table
  import Resolver

  /** The fields of a RuleSet, with each player object replaced by the value of its fields
      (`seats`, in the order of the `players` list). `current` and `winner` are seat numbers;
      None stands for a null reference. The deck is a stack whose top is the last element. */
  datatype TableState = TableState(
    gameOver: bool, deal: int, pot: int, commonCards: seq<Card>, rounds: seq<Rule>,
    currentRound: int, seats: seq<Seat>, minPlayers: int, baseMoney: int, maxPlayers: int,
    numberOfPlayers: int, ante: int, anteDoubles: bool, gameName: string,
    current: Option<nat>, deck: seq<Card>, checkOnly: bool, winner: Option<nat>)

  /** The state after an action, and whether the C# code threw an exception on the way (the
      state is then the one at the point of the throw). */
  datatype Effect = Effect(t: TableState, threw: bool)

  /** `currentPlayer` is not null. */
  predicate HasCurrent(t: TableState) {
    t.current.Some? && t.current.value < |t.seats|
  }

  function Cur(t: TableState): Seat
    requires HasCurrent(t)
  {
    t.seats[t.current.value]
  }

  /** The state with the current player's fields replaced by `seat`. */
  function WithCur(t: TableState, seat: Seat): TableState
    requires HasCurrent(t)
  {
    t.(seats := t.seats[t.current.value := seat])
  }

  /** `a` and `b` agree everywhere except perhaps at seat `i`. */
  predicate OnlySeat(a: seq<Seat>, b: seq<Seat>, i: nat) {
    |a| == |b| && forall j :: 0 <= j < |a| && j != i ==> a[j] == b[j]
  }

  /** A payment of `paid >= 0` chips from seat `i` into the pot keeps the chips on the table:
      the stacks lose exactly what the pot gains. */
  lemma PayIntoPot(s: seq<Seat>, i: nat, seat: Seat, paid: int)
    requires i < |s| && paid >= 0 && seat.money == AfterSpend(s[i].money, paid)
    ensures Stacks(s[i := seat]) + paid == Stacks(s)
  {
    StacksUpdate(s, i, seat);
  }

  // ---------------------------------------------------------------------------------------------
  // Check, bet, fold, quit

  /** RuleSet.CheckBet: the chips the current player pays, what is missing to reach the
      largest bet, or the whole stack when that is less. */
  function CheckPaid(t: TableState): int
    requires HasCurrent(t)
  {
    Match(MaxBet(t.seats), Cur(t).currentBet, Cur(t).money)
  }

  /** RuleSet.CheckBet: the payment moves from the stack to the pot and the player's bet is
      set to the largest bet. */
  function CheckOf(t: TableState): TableState
    requires HasCurrent(t)
  {
    var paid := CheckPaid(t);
    WithCur(t, Cur(t).(money := AfterSpend(Cur(t).money, paid), currentBet := MaxBet(t.seats)))
      .(pot := t.pot + paid)
  }

  /** After a check the player's bet is the largest bet, and the check did not change which
      bet is the largest; only the pot and the current seat change. */
  lemma CheckBetMatches(t: TableState)
    requires HasCurrent(t)
    ensures var r := CheckOf(t); var i := t.current.value;
      && OnlySeat(r.seats, t.seats, i) && r == t.(pot := r.pot, seats := r.seats)
      && MaxBet(r.seats) == MaxBet(t.seats) && r.seats[i].currentBet == MaxBet(r.seats)
  {
    var i := t.current.value;
    MaxBetKept(t.seats, i, CheckOf(t).seats[i]);
  }

  /** With a stack that is not negative, the check pays between 0 and the stack, and the chips
      on the table (pot plus stacks) do not change. */
  lemma CheckBetConserves(t: TableState)
    requires HasCurrent(t) && Cur(t).money >= 0
    ensures var r := CheckOf(t);
      && 0 <= CheckPaid(t) <= Cur(t).money
      && r.seats[t.current.value].money == Cur(t).money - CheckPaid(t)
      && r.pot + Stacks(r.seats) == t.pot + Stacks(t.seats)
  {
    var i := t.current.value;
    PayIntoPot(t.seats, i, CheckOf(t).seats[i], CheckPaid(t));
  }

  /** PlaceBet's minimum: `Math.Max(CurrentMaxBet, ante)`. */
  function BetMinimum(t: TableState): int
    requires t.seats != []
  {
    if MaxBet(t.seats) < t.ante then t.ante else MaxBet(t.seats)
  }

  /** The pair RuleSet.PlaceBet returns: whether `str` asks for an acceptable total bet, and
      that bet. */
  function BetAsked(t: TableState, str: string): (bool, int)
    requires HasCurrent(t)
  {
    BetRequest(str, Cur(t).currentBet, Cur(t).money, BetMinimum(t))
  }

  /** RuleSet.PlaceBet: an accepted bet moves what is missing to reach it (or the whole stack)
      into the pot and becomes the player's bet; a refused one changes nothing. */
  function BetOf(t: TableState, str: string): (r: TableState)
    requires HasCurrent(t)
    ensures !BetAsked(t, str).0 ==> r == t
  {
    var (ok, amount) := BetAsked(t, str);
    if ok then
      var paid := Match(amount, Cur(t).currentBet, Cur(t).money);
      WithCur(t, Cur(t).(money := AfterSpend(Cur(t).money, paid), currentBet := amount))
        .(pot := t.pot + paid)
    else t
  }

  /** A numeric bet is accepted exactly when it lies between `Math.Max(CurrentMaxBet, ante)`
      and the player's bet plus stack; it then becomes the player's bet. */
  lemma NumericBetAccepted(t: TableState, b: int)
    requires HasCurrent(t) && MinInt32 <= b <= MaxInt32
    ensures BetAsked(t, IntToString(b)).0 <==> BetMinimum(t) <= b <= Cur(t).currentBet + Cur(t).money
    ensures BetAsked(t, IntToString(b)).0 ==>
      BetOf(t, IntToString(b)).seats[t.current.value].currentBet == b
  {
    NumericBet(b, Cur(t).currentBet, Cur(t).money, BetMinimum(t));
  }

  /** "all" (in any case, with any surrounding white space) is always accepted: the player's bet
      becomes bet plus stack and, when the stack is not negative, the whole stack goes into the
      pot. */
  lemma AllInBet(t: TableState, str: string)
    requires HasCurrent(t) && ToLower(Trim(str)) == "all"
    ensures var r := BetOf(t, str); var s := Cur(t);
      && BetAsked(t, str) == (true, s.currentBet + s.money)
      && r.seats[t.current.value].currentBet == s.currentBet + s.money
      && (s.money >= 0 ==> r.seats[t.current.value].money == 0 && r.pot == t.pot + s.money)
  {
  }

  /** With a stack that is not negative, a bet keeps the stack non-negative and the chips on the
      table unchanged: an accepted bet is never below the player's current bet. */
  lemma BetConserves(t: TableState, str: string)
    requires HasCurrent(t) && Cur(t).money >= 0
    ensures var r := BetOf(t, str);
      && r.seats[t.current.value].money >= 0
      && r.pot + Stacks(r.seats) == t.pot + Stacks(t.seats)
  {
    var (ok, amount) := BetAsked(t, str);
    if ok {
      var s := Cur(t);
      assert amount >= s.currentBet;
      var paid := Match(amount, s.currentBet, s.money);
      PayIntoPot(t.seats, t.current.value, BetOf(t, str).seats[t.current.value], paid);
    }
  }

  /** RuleSet.FoldBet: the current player is out of this deal. */
  function FoldOf(t: TableState): TableState
    requires HasCurrent(t)
  {
    WithCur(t, Cur(t).(status := OutDeal))
  }

  /** Folding removes one player from those in the deal and leaves the chips where they are. */
  lemma FoldLeavesDeal(t: TableState)
    requires HasCurrent(t) && Cur(t).status == In
    ensures var r := FoldOf(t);
      && Count(r.seats, IsIn) == Count(t.seats, IsIn) - 1
      && Stacks(r.seats) == Stacks(t.seats) && r.pot == t.pot
  {
    CountUpdate(t.seats, t.current.value, FoldOf(t).seats[t.current.value], IsIn);
    StacksUpdate(t.seats, t.current.value, FoldOf(t).seats[t.current.value]);
  }

  /** RuleSet.QuitGame: the current player leaves the game, and their bet is cleared. */
  function QuitOf(t: TableState): TableState
    requires HasCurrent(t)
  {
    WithCur(t, Cur(t).(status := OutGame, currentBet := 0))
  }

  /** What QuitGame returns: the gains (or losses, if negative) against the starting money. */
  function QuitGains(t: TableState): int
    requires HasCurrent(t)
  {
    Cur(t).money - t.baseMoney
  }

  /** Quitting takes the player out of the game (one fewer player not out) and keeps the
      stack, so the gains returned are the stack the player leaves with minus the start. */
  lemma QuitLeavesGame(t: TableState)
    requires HasCurrent(t) && Cur(t).status != OutGame
    ensures var r := QuitOf(t);
      && Count(r.seats, NotOutGame) == Count(t.seats, NotOutGame) - 1
      && r.seats[t.current.value].money == t.baseMoney + QuitGains(t)
      && Stacks(r.seats) == Stacks(t.seats)
  {
    CountUpdate(t.seats, t.current.value, QuitOf(t).seats[t.current.value], NotOutGame);
    StacksUpdate(t.seats, t.current.value, QuitOf(t).seats[t.current.value]);
  }

  // ---------------------------------------------------------------------------------------------
  // Loss and victory

  /** RuleSet.Loss(player at seat k): unless the game is over, the player is out of the game,
      and when at most one player is left the game ends with the first player not out (or null)
      as the winner. */
  function LossOf(t: TableState, k: nat): TableState
    requires k < |t.seats|
  {
    if t.gameOver then t
    else
      var s := t.seats[k := t.seats[k].(status := OutGame)];
      if Count(s, NotOutGame) <= 1 then t.(seats := s, winner := FindFrom(s, 0, NotOutGame), gameOver := true)
      else t.(seats := s)
  }

  /** A loss only changes seat k's status; the game ends exactly when at most one player is left
      not out, and then the winner is that player, if any. */
  lemma LossEndsGame(t: TableState, k: nat)
    requires k < |t.seats| && !t.gameOver
    ensures var r := LossOf(t, k);
      && OnlySeat(r.seats, t.seats, k) && r.seats[k] == t.seats[k].(status := OutGame)
      && r == t.(seats := r.seats, gameOver := r.gameOver, winner := r.winner)
      && Stacks(r.seats) == Stacks(t.seats)
      && (r.gameOver <==> Count(r.seats, NotOutGame) <= 1)
      && (r.gameOver ==> forall j :: 0 <= j < |r.seats| && r.seats[j].status != OutGame ==> r.winner == Some(j))
      && (!r.gameOver ==> r.winner == t.winner)
  {
    var r := LossOf(t, k);
    StacksUpdate(t.seats, k, r.seats[k]);
    if Count(r.seats, NotOutGame) <= 1 && FindFrom(r.seats, 0, NotOutGame).Some? {
      SoleFound(r.seats, NotOutGame);
    }
  }

  /** `OtherPlayers.All(p => p.Money <= 0 || p.PlayerStatus == OutGame)`: every seat but the
      current player's (all seats when it is null) is broke or out of the game. */
  predicate OthersBroke(s: seq<Seat>, current: Option<nat>) {
    forall j :: 0 <= j < |s| && current != Some(j) ==> s[j].money <= 0 || s[j].status == OutGame
  }

  /** RuleSet.Victory(player at seat w): unless the game is over, the player gains the pot, and
      when the others than the CURRENT player are all broke or out, w is the winner of the game.
      The pot itself is left as it is (NewDeal clears it). */
  function VictoryOf(t: TableState, w: nat): TableState
    requires w < |t.seats|
  {
    if t.gameOver then t
    else
      var s := t.seats[w := t.seats[w].(money := AfterGain(t.seats[w].money, t.pot))];
      if OthersBroke(s, t.current) then t.(seats := s, winner := Some(w), gameOver := true)
      else t.(seats := s)
  }

  /** A victory adds the pot to the winner's stack and to the chips in the stacks, and ends the
      game, with w as the winner, exactly when the others are broke or out. */
  lemma VictoryPays(t: TableState, w: nat)
    requires w < |t.seats| && !t.gameOver && t.pot >= 0
    ensures var r := VictoryOf(t, w);
      && OnlySeat(r.seats, t.seats, w) && r.seats[w] == t.seats[w].(money := t.seats[w].money + t.pot)
      && Stacks(r.seats) == Stacks(t.seats) + t.pot
      && r == t.(seats := r.seats, gameOver := r.gameOver, winner := r.winner)
      && (r.gameOver <==> OthersBroke(r.seats, t.current))
      && (r.gameOver ==> r.winner == Some(w))
  {
    StacksUpdate(t.seats, w, VictoryOf(t, w).seats[w]);
  }

  // ---------------------------------------------------------------------------------------------
  // Ante

  /** RuleSet.PlaceNecessaryAnte: `Math.Min(ante, Money)`. */
  function AntePaid(t: TableState): int
    requires HasCurrent(t)
  {
    if t.ante < Cur(t).money then t.ante else Cur(t).money
  }

  /** The first part of PlaceNecessaryAnte: the payment goes from the stack to the pot. */
  function AnteTaken(t: TableState): TableState
    requires HasCurrent(t)
  {
    var paid := AntePaid(t);
    WithCur(t, Cur(t).(money := AfterSpend(Cur(t).money, paid))).(pot := t.pot + paid)
  }

  /** RuleSet.PlaceNecessaryAnte: the payment goes from the stack to the pot; a player left with
      no money loses. */
  function AnteOf(t: TableState): TableState
    requires HasCurrent(t)
  {
    var u := AnteTaken(t);
    if u.seats[t.current.value].money <= 0 then LossOf(u, t.current.value) else u
  }

  /** What PlaceNecessaryAnte returns: -1 when the player lost, else the amount paid. */
  function AnteResult(t: TableState): int
    requires HasCurrent(t)
  {
    if AfterSpend(Cur(t).money, AntePaid(t)) <= 0 then -1 else AntePaid(t)
  }

  /** The ante pays `Math.Min(ante, Money)` into the pot and returns -1 when it leaves the player
      with no money, the player being then out of the game (unless the game was already over);
      otherwise it returns the amount and nothing but the stack and the pot changes. With a
      non-negative ante and stack, the chips on the table do not change. */
  lemma AnteOutcome(t: TableState)
    requires HasCurrent(t)
    ensures var r := AnteOf(t); var i := t.current.value;
      && OnlySeat(r.seats, t.seats, i)
      && r.pot == t.pot + AntePaid(t)
      && r.seats[i].money == AfterSpend(Cur(t).money, AntePaid(t))
    ensures var left := AnteOf(t).seats[t.current.value].money;
      AnteResult(t) == if left <= 0 then -1 else AntePaid(t)
    ensures var left := AnteOf(t).seats[t.current.value].money;
      left <= 0 && !t.gameOver ==> AnteOf(t).seats[t.current.value].status == OutGame
    ensures var left := AnteOf(t).seats[t.current.value].money;
      left > 0 ==> AnteOf(t) == WithCur(t, Cur(t).(money := left)).(pot := AnteOf(t).pot)
    ensures var r := AnteOf(t);
      t.ante >= 0 && Cur(t).money >= 0 ==> r.pot + Stacks(r.seats) == t.pot + Stacks(t.seats)
  {
    var i := t.current.value;
    var paid := AntePaid(t);
    var seat := Cur(t).(money := AfterSpend(Cur(t).money, paid));
    var u := WithCur(t, seat).(pot := t.pot + paid);
    if t.ante >= 0 && Cur(t).money >= 0 {
      PayIntoPot(t.seats, i, seat, paid);
    }
    if seat.money <= 0 && !t.gameOver {
      LossEndsGame(u, i);
    }
  }

  // ---------------------------------------------------------------------------------------------
  // A drawn showdown: the pot is split

  /** A seat after `Gain(share)` when it is in the deal; other seats are left alone. */
  function GainIfIn(seat: Seat, share: int): Seat {
    if seat.status == In then seat.(money := AfterGain(seat.money, share)) else seat
  }

  /** `remainingPlayers.ForEach(o => o.Gain(share))`. */
  function SplitPot(s: seq<Seat>, share: int): seq<Seat> {
    seq(|s|, j requires 0 <= j < |s| => GainIfIn(s[j], share))
  }

  /** Sharing adds the share once per player in the deal to the chips in the stacks. */
  lemma {:induction false} SplitPotStacks(s: seq<Seat>, share: int)
    requires share >= 0
    ensures Stacks(SplitPot(s, share)) == Stacks(s) + Count(s, IsIn) * share
  {
    if s != [] {
      var init := s[..|s| - 1];
      SplitPotStacks(init, share);
      assert SplitPot(s, share)[..|s| - 1] == SplitPot(init, share);
    }
  }

  /** In a draw every player in the deal receives `pot / count` (rounded toward zero), and all
      together never receive more than the pot. */
  lemma SplitPotShares(t: TableState)
    requires Count(t.seats, IsIn) > 0 && t.pot >= 0
    ensures var share := DivTrunc(t.pot, Count(t.seats, IsIn)); var r := SplitPot(t.seats, share);
      && share == t.pot / Count(t.seats, IsIn)
      && (forall j :: 0 <= j < |t.seats| && t.seats[j].status == In ==> r[j].money == t.seats[j].money + share)
      && (forall j :: 0 <= j < |t.seats| && t.seats[j].status != In ==> r[j] == t.seats[j])
      && Stacks(t.seats) <= Stacks(r) <= Stacks(t.seats) + t.pot
  {
    var n := Count(t.seats, IsIn);
    DivTruncShare(t.pot, n);
    SplitPotStacks(t.seats, DivTrunc(t.pot, n));
  }

  // ---------------------------------------------------------------------------------------------
  // A new deal

  /** The first `n` steps of NewDeal's first loop: each player with no money who is not yet out
      of the game loses. */
  function SweepOf(t: TableState, n: nat): (r: TableState)
    requires n <= |t.seats|
    ensures |r.seats| == |t.seats|
  {
    if n == 0 then t
    else
      var u := SweepOf(t, n - 1);
      if u.seats[n - 1].money <= 0 && u.seats[n - 1].status != OutGame then LossOf(u, n - 1) else u
  }

  /** `us` is `ts` with some of the first `n` seats, all of them broke, put out of the game. */
  predicate PutsOut(ts: seq<Seat>, us: seq<Seat>, n: nat) {
    |us| == |ts| &&
    forall j :: 0 <= j < |ts| ==> us[j] == ts[j] || (j < n && ts[j].money <= 0 && us[j] == ts[j].(status := OutGame))
  }

  lemma PutsOutStep(ts: seq<Seat>, us: seq<Seat>, n: nat)
    requires 0 < n <= |ts| && PutsOut(ts, us, n - 1) && us[n - 1].money <= 0
    ensures PutsOut(ts, us[n - 1 := us[n - 1].(status := OutGame)], n)
  {
  }

  /** The sweep only ever puts broke players out of the game, and only changes the seats and
      the end of the game; once the game is over it changes nothing. */
  lemma {:induction false} SweepPutsOut(t: TableState, n: nat)
    requires n <= |t.seats|
    ensures var r := SweepOf(t, n);
      && r == t.(seats := r.seats, gameOver := r.gameOver, winner := r.winner)
      && PutsOut(t.seats, r.seats, n)
    ensures t.gameOver ==> SweepOf(t, n) == t
  {
    if n > 0 {
      SweepPutsOut(t, n - 1);
      var u := SweepOf(t, n - 1);
      var r := SweepOf(t, n);
      if u.seats[n - 1].money <= 0 && u.seats[n - 1].status != OutGame && !u.gameOver {
        assert r == LossOf(u, n - 1);
        assert r == u.(seats := r.seats, gameOver := r.gameOver, winner := r.winner);
        assert r.seats == u.seats[n - 1 := u.seats[n - 1].(status := OutGame)];
        PutsOutStep(t.seats, u.seats, n);
      } else {
        assert r == u;
      }
    }
  }

  /** The sweep ends the game only when at most one player is left not out of it. */
  lemma {:induction false} SweepEnds(t: TableState, n: nat)
    requires n <= |t.seats| && !t.gameOver
    ensures var r := SweepOf(t, n); r.gameOver ==> Count(r.seats, NotOutGame) <= 1
  {
    if n > 0 {
      SweepEnds(t, n - 1);
      var u := SweepOf(t, n - 1);
      if u.seats[n - 1].money <= 0 && u.seats[n - 1].status != OutGame && !u.gameOver {
        LossEndsGame(u, n - 1);
      }
    }
  }

  /** When the sweep does not end the game, every swept player has money or is out of it. */
  lemma {:induction false} SweepClears(t: TableState, n: nat)
    requires n <= |t.seats|
    ensures var r := SweepOf(t, n);
      !r.gameOver ==> forall j :: 0 <= j < n ==> r.seats[j].money > 0 || r.seats[j].status == OutGame
  {
    if n > 0 {
      SweepClears(t, n - 1);
      var u := SweepOf(t, n - 1);
      var r := SweepOf(t, n);
      if !r.gameOver {
        assert !u.gameOver;
        if u.seats[n - 1].money <= 0 && u.seats[n - 1].status != OutGame {
          assert r.seats == u.seats[n - 1 := u.seats[n - 1].(status := OutGame)];
        } else {
          assert r == u;
        }
        forall j | 0 <= j < n ensures r.seats[j].money > 0 || r.seats[j].status == OutGame {
          if j < n - 1 {
            assert r.seats[j] == u.seats[j];
          }
        }
      }
    }
  }

  /** NewDeal's second loop on one player: back in the deal unless out of the game, no cards,
      no bet. */
  function ResetSeat(seat: Seat): Seat {
    seat.(status := if seat.status == OutDeal then In else seat.status, hand := [], currentBet := 0)
  }

  function ResetSeats(s: seq<Seat>): (r: seq<Seat>)
    ensures |r| == |s| && forall j :: 0 <= j < |s| ==> r[j] == ResetSeat(s[j])
  {
    seq(|s|, j requires 0 <= j < |s| => ResetSeat(s[j]))
  }

  /** After the sweep (`us` from `ts`) and the reset, the players back in the deal are exactly
      those who were not out of the game and had money; nobody has cards, a bet, or is out of
      the deal only. */
  lemma ResetAfterSweep(ts: seq<Seat>, us: seq<Seat>)
    requires PutsOut(ts, us, |ts|)
    requires forall j :: 0 <= j < |ts| ==> us[j].money > 0 || us[j].status == OutGame
    ensures var r := ResetSeats(us);
      && (forall j :: 0 <= j < |ts| ==> r[j].hand == [] && r[j].currentBet == 0 && r[j].money == ts[j].money)
      && (forall j :: 0 <= j < |ts| ==> (r[j].status == In <==> ts[j].status != OutGame && ts[j].money > 0))
      && (forall j :: 0 <= j < |ts| ==> r[j].status != OutDeal)
  {
  }

  /** With two players or more not out of the game, the reset seats have a first player not out
      of the game, and that player is in the deal. */
  lemma ResetFindsPlayer(us: seq<Seat>)
    requires Count(us, IsOutGame) < |us| - 1
    ensures var seats := ResetSeats(us); var k := FindFrom(seats, 0, NotOutGame);
      k.Some? && seats[k.value].status == In
  {
    CountComplement(us);
    CountZero(us, NotOutGame);
    var k := FindFrom(us, 0, NotOutGame);
    assert Passes(ResetSeats(us)[k.value], NotOutGame);
  }

  /** List.Remove(c): the list without the first occurrence of c; unchanged when c is absent. */
  function RemoveFirst(l: seq<Card>, c: Card): (r: seq<Card>)
    ensures c in l ==> multiset(r) == multiset(l) - multiset{c} && |r| == |l| - 1
    ensures c !in l ==> r == l
  {
    if l == [] then []
    else if l[0] == c then
      assert l == [l[0]] + l[1..];
      l[1..]
    else
      assert l == [l[0]] + l[1..];
      [l[0]] + RemoveFirst(l[1..], c)
  }

  /** Successive draws `rng.Next(0, i)` for i = n down to 1: the k-th draw is below n - k. */
  predicate PicksFit(picks: seq<nat>, n: nat) {
    |picks| == n && forall k :: 0 <= k < n ==> picks[k] < n - k
  }

  /** The random values of one NewDeal: the list `Card.Deck.OrderBy(random key)` and the draws
      of its filling loop. */
  datatype Shuffle = Shuffle(ordered: seq<Card>, picks: seq<nat>)

  predicate ValidShuffle(sh: Shuffle) {
    |sh.ordered| == 52 && PicksFit(sh.picks, 52)
  }

  /** The list the filling loop draws from is Card.Deck in some order. */
  predicate FromDeck(sh: Shuffle) {
    multiset(sh.ordered) == multiset(Deck())
  }

  /** NewDeal's filling loop: the card at each draw's position of the remaining list is pushed
      and removed from the list. The pushes are listed in order, so the top of the stack is the
      last card. */
  function Shuffled(remaining: seq<Card>, picks: seq<nat>): (r: seq<Card>)
    requires PicksFit(picks, |remaining|)
    ensures |r| == |remaining|
    decreases |remaining|
  {
    if remaining == [] then []
    else
      var c := remaining[picks[0]];
      assert c in remaining;
      [c] + Shuffled(RemoveFirst(remaining, c), picks[1..])
  }

  /** The filling loop deals every card of the list, once: its result is a permutation. */
  lemma {:induction false} ShuffledPermutes(remaining: seq<Card>, picks: seq<nat>)
    requires PicksFit(picks, |remaining|)
    ensures multiset(Shuffled(remaining, picks)) == multiset(remaining)
    decreases |remaining|
  {
    if remaining != [] {
      var c := remaining[picks[0]];
      assert c in remaining;
      var rest := RemoveFirst(remaining, c);
      ShuffledPermutes(rest, picks[1..]);
      assert Shuffled(remaining, picks) == [c] + Shuffled(rest, picks[1..]);
      assert multiset(remaining) == multiset(rest) + multiset{c};
    }
  }

  /** One push of the filling loop: after the cards already pushed come the picked card, then
      the rest of the loop on the list without it. */
  lemma ShuffledPush(pushed: seq<Card>, remaining: seq<Card>, picks: seq<nat>)
    requires remaining != [] && PicksFit(picks, |remaining|)
    ensures var c := remaining[picks[0]]; var rest := RemoveFirst(remaining, c);
      && |rest| == |remaining| - 1 && PicksFit(picks[1..], |rest|)
      && pushed + Shuffled(remaining, picks) == (pushed + [c]) + Shuffled(rest, picks[1..])
  {
    var c := remaining[picks[0]];
    assert c in remaining;
    var tail := Shuffled(RemoveFirst(remaining, c), picks[1..]);
    assert pushed + ([c] + tail) == (pushed + [c]) + tail;
  }

  /** RuleSet.NewDeal, up to the call to Prompt: nothing when the game is over; otherwise the
      broke players lose, the game ends when at most one player is left, and else a new deal
      starts with an empty pot, the ante doubled (as a 32-bit int) when the game says so and a
      deal has been played, a shuffled deck, everyone back in the deal with no cards and no bet,
      the first player not out as current player, and the deal count increased. */
  function NewDealOf(t: TableState, sh: Shuffle): TableState
    requires ValidShuffle(sh)
  {
    if t.gameOver then t
    else
      var u := SweepOf(t, |t.seats|);
      if Count(u.seats, IsOutGame) >= |u.seats| - 1 then
        u.(winner := FindFrom(u.seats, 0, NotOutGame), gameOver := true)
      else StartDeal(u, sh)
  }

  /** The part of NewDeal after the sweep when the game goes on. */
  function StartDeal(u: TableState, sh: Shuffle): TableState
    requires ValidShuffle(sh)
  {
    var v := Cleared(u).(deck := Shuffled(sh.ordered, sh.picks), seats := ResetSeats(u.seats));
    v.(current := FindFrom(v.seats, 0, NotOutGame), deal := u.deal + 1)
  }

  /** The table at the start of a new deal, before the deck is filled: an empty pot, the ante
      doubled (as a 32-bit int) when the game says so and a deal has been played, round 0, no
      card in the deck or on the table. */
  function Cleared(u: TableState): TableState {
    u.(pot := 0, ante := if u.deal > 0 && u.anteDoubles then Wrap32(u.ante * 2) else u.ante,
       currentRound := 0, deck := [], commonCards := [])
  }

  /** A list with the same elements as a list without repetitions has no repetitions. */
  lemma DistinctPermutation(a: seq<Card>, b: seq<Card>)
    requires multiset(a) == multiset(b) && Distinct(b)
    ensures Distinct(a)
  {
    forall i, j | 0 <= i < j < |a| ensures a[i] != a[j] {
      if a[i] == a[j] {
        var x := a[i];
        assert a == a[..j] + a[j..];
        assert x in a[..j] && x in a[j..];
        assert multiset(a)[x] == multiset(a[..j])[x] + multiset(a[j..])[x];
        DistinctCount(b, x);
        assert false;
      }
    }
  }

  /** The shuffled deck holds each of the 52 cards exactly once. */
  lemma ShuffledDeck(sh: Shuffle)
    requires ValidShuffle(sh) && FromDeck(sh)
    ensures var d := Shuffled(sh.ordered, sh.picks);
      |d| == 52 && multiset(d) == multiset(Deck()) && Distinct(d)
  {
    var d := Shuffled(sh.ordered, sh.picks);
    ShuffledPermutes(sh.ordered, sh.picks);
    assert |multiset(d)| == |d| && |multiset(sh.ordered)| == |sh.ordered|;
    DistinctPermutation(d, Deck());
  }

  /** A new deal never changes a stack, whether the game goes on or ends. */
  lemma NewDealKeepsMoney(t: TableState, sh: Shuffle)
    requires ValidShuffle(sh)
    ensures var r := NewDealOf(t, sh);
      |r.seats| == |t.seats| && forall j :: 0 <= j < |t.seats| ==> r.seats[j].money == t.seats[j].money
  {
    if !t.gameOver {
      var u := SweepOf(t, |t.seats|);
      SweepPutsOut(t, |t.seats|);
      var r := NewDealOf(t, sh);
      if Count(u.seats, IsOutGame) >= |u.seats| - 1 {
        assert r.seats == u.seats;
      } else {
        assert r.seats == ResetSeats(u.seats);
      }
    }
  }

  /** When the game goes on, the new deal starts as the game requires: empty pot, first round,
      a full deck of 52 cards, no common cards, no hands and no bets, every
      player back in the deal except those out of the game or broke, a current player who is in
      the deal, one more deal, and the ante doubled exactly when the game doubles it and a deal
      has already been played. */
  lemma NewDealStarts(t: TableState, sh: Shuffle)
    requires ValidShuffle(sh) && !t.gameOver && !NewDealOf(t, sh).gameOver
    ensures var r := NewDealOf(t, sh);
      && r.pot == 0 && r.currentRound == 0 && r.commonCards == [] && r.deal == t.deal + 1
      && r.ante == (if t.deal > 0 && t.anteDoubles then Wrap32(t.ante * 2) else t.ante)
      && |r.deck| == 52
    ensures var r := NewDealOf(t, sh);
      && |r.seats| == |t.seats|
      && (forall j :: 0 <= j < |t.seats| ==> r.seats[j].hand == [] && r.seats[j].currentBet == 0)
      && (forall j :: 0 <= j < |t.seats| ==>
            (r.seats[j].status == In <==> t.seats[j].status != OutGame && t.seats[j].money > 0))
      && (forall j :: 0 <= j < |t.seats| ==> r.seats[j].status != OutDeal)
      && r.current.Some? && r.current.value < |r.seats| && r.seats[r.current.value].status == In
  {
    var u := SweepOf(t, |t.seats|);
    SweepPutsOut(t, |t.seats|);
    SweepClears(t, |t.seats|);
    CountComplement(u.seats);
    assert !u.gameOver;
    var r := StartDeal(u, sh);
    assert NewDealOf(t, sh) == r;
    ResetAfterSweep(t.seats, u.seats);
    ResetFindsPlayer(u.seats);
  }

  /** The deck of a new deal holds each of the 52 cards exactly once. */
  lemma NewDealDeck(t: TableState, sh: Shuffle)
    requires ValidShuffle(sh) && FromDeck(sh) && !t.gameOver && !NewDealOf(t, sh).gameOver
    ensures var r := NewDealOf(t, sh);
      multiset(r.deck) == multiset(Deck()) && Distinct(r.deck)
  {
    var u := SweepOf(t, |t.seats|);
    CountComplement(u.seats);
    assert NewDealOf(t, sh) == StartDeal(u, sh);
    ShuffledDeck(sh);
  }

  /** When the sweep of broke players leaves at most one player, the game ends instead, and the
      winner is the one player not out, if any; nothing else changes. */
  lemma NewDealEnds(t: TableState, sh: Shuffle)
    requires ValidShuffle(sh) && !t.gameOver && NewDealOf(t, sh).gameOver
    ensures var r := NewDealOf(t, sh);
      && r == t.(seats := r.seats, gameOver := true, winner := r.winner)
      && Count(r.seats, NotOutGame) <= 1
      && forall j :: 0 <= j < |r.seats| && r.seats[j].status != OutGame ==> r.winner == Some(j)
  {
    var u := SweepOf(t, |t.seats|);
    SweepPutsOut(t, |t.seats|);
    SweepEnds(t, |t.seats|);
    CountComplement(u.seats);
    var r := NewDealOf(t, sh);
    assert r == u.(winner := FindFrom(u.seats, 0, NotOutGame), gameOver := true);
    if FindFrom(r.seats, 0, NotOutGame).Some? {
      SoleFound(r.seats, NotOutGame);
    }
  }

  // ---------------------------------------------------------------------------------------------
  // Dealing, discarding and drawing

  function CardsOf(hand: seq<HeldCard>): (r: seq<Card>)
    ensures |r| == |hand| && forall k :: 0 <= k < |hand| ==> r[k] == hand[k].card
  {
    seq(|hand|, k requires 0 <= k < |hand| => hand[k].card)
  }

  /** Cards as they enter a hand: face down or up, not discarded. */
  function Held(cards: seq<Card>, down: bool): (r: seq<HeldCard>)
    ensures |r| == |cards| && forall k :: 0 <= k < |cards| ==> r[k] == HeldCard(cards[k], down, false)
  {
    seq(|cards|, k requires 0 <= k < |cards| => HeldCard(cards[k], down, false))
  }

  /** The cards of a hand with more cards appended are the hand's cards followed by those. */
  lemma CardsOfHeld(hand: seq<HeldCard>, cards: seq<Card>, down: bool)
    ensures CardsOf(hand + Held(cards, down)) == CardsOf(hand) + cards
  {
  }

  /** The cards `n` successive Pops take from the deck, the top (last) card first. */
  function Popped(deck: seq<Card>, n: nat): (r: seq<Card>)
    requires n <= |deck|
  {
    if n == 0 then [] else [deck[|deck| - 1]] + Popped(deck[..|deck| - 1], n - 1)
  }

  /** The popped cards are the top n cards of the deck: what they are plus what is left is
      what there was. */
  lemma {:induction false} PoppedCards(deck: seq<Card>, n: nat)
    requires n <= |deck|
    ensures |Popped(deck, n)| == n
    ensures multiset(Popped(deck, n)) + multiset(deck[..|deck| - n]) == multiset(deck)
  {
    if n > 0 {
      var top := deck[|deck| - 1];
      var rest := deck[..|deck| - 1];
      PoppedCards(rest, n - 1);
      assert Popped(deck, n) == [top] + Popped(rest, n - 1);
      assert rest[..|rest| - (n - 1)] == deck[..|deck| - n];
      assert deck == rest + [top];
      calc {
        multiset(Popped(deck, n)) + multiset(deck[..|deck| - n]);
        multiset{top} + (multiset(Popped(rest, n - 1)) + multiset(rest[..|rest| - (n - 1)]));
        multiset{top} + multiset(rest);
        multiset(deck);
      }
    } else {
      assert deck[..|deck|] == deck;
    }
  }

  /** RuleSet.DealCardUp / DealCardDown: the top card of the deck goes to the end of the
      current player's hand, face down or up; an empty deck throws. */
  function DealOf(t: TableState, down: bool): Effect
    requires HasCurrent(t)
  {
    if t.deck == [] then Effect(t, true)
    else
      var c := t.deck[|t.deck| - 1];
      Effect(WithCur(t, Cur(t).(hand := Cur(t).hand + [HeldCard(c, down, false)])).(deck := t.deck[..|t.deck| - 1]), false)
  }

  /** RuleSet.DealCardCommon: the top card of the deck joins the common cards; an empty deck
      throws. */
  function DealCommonOf(t: TableState): Effect {
    if t.deck == [] then Effect(t, true)
    else Effect(t.(commonCards := t.commonCards + [t.deck[|t.deck| - 1]], deck := t.deck[..|t.deck| - 1]), false)
  }

  /** Dealing moves one card from the deck to the player's hand: the cards in the deck and in
      the hand together stay the same; it throws exactly when the deck is empty. */
  lemma DealMovesTopCard(t: TableState, down: bool)
    requires HasCurrent(t)
    ensures var e := DealOf(t, down);
      && (e.threw <==> t.deck == [])
      && OnlySeat(e.t.seats, t.seats, t.current.value)
      && (!e.threw ==> |e.t.deck| == |t.deck| - 1 && |Cur(e.t).hand| == |Cur(t).hand| + 1)
      && multiset(e.t.deck) + multiset(CardsOf(Cur(e.t).hand)) == multiset(t.deck) + multiset(CardsOf(Cur(t).hand))
  {
    if t.deck != [] {
      var c := t.deck[|t.deck| - 1];
      assert t.deck == t.deck[..|t.deck| - 1] + [c];
      assert CardsOf(Cur(DealOf(t, down).t).hand) == CardsOf(Cur(t).hand) + [c];
    }
  }

  /** The first card of `hand` with the given face and suit (`Hand.Find(select)`). */
  function FindCard(hand: seq<HeldCard>, c: Card): (r: Option<nat>)
    ensures r.Some? ==> r.value < |hand| && hand[r.value].card == c
    ensures r.Some? ==> forall j :: 0 <= j < r.value ==> hand[j].card != c
    ensures r.None? <==> forall j :: 0 <= j < |hand| ==> hand[j].card != c
  {
    if hand == [] then None
    else if hand[0].card == c then Some(0)
    else match FindCard(hand[1..], c)
      case None => None
      case Some(k) => Some(k + 1)
  }

  /** The card a discard string names: its first letter read as a face and its second as a
      suit, when it has at least two characters and both parse. */
  function NamedCard(card: string): Option<Card> {
    if |card| > 1 then
      match (ParseFace(card[0..1]), ParseSuit(card[1..2]))
      case (Some(f), Some(s)) => Some(Card(f, s))
      case _ => None
    else None
  }

  /** RuleSet.DiscardCard: marks as discarded the first card of the current player's hand that
      the string names, and tells whether there was one. */
  function DiscardCardOf(t: TableState, card: string): (r: (TableState, bool))
    requires HasCurrent(t)
    ensures HasCurrent(r.0) && r.0.current == t.current
  {
    match NamedCard(card)
    case None => (t, false)
    case Some(c) => MarkFirst(t, c)
  }

  /** The marking step of DiscardCard once the card is known. */
  function MarkFirst(t: TableState, c: Card): (r: (TableState, bool))
    requires HasCurrent(t)
    ensures HasCurrent(r.0) && r.0.current == t.current
  {
    var hand := Cur(t).hand;
    match FindCard(hand, c)
    case None => (t, false)
    case Some(k) => (WithCur(t, Cur(t).(hand := hand[k := hand[k].(discard := true)])), true)
  }

  /** A discard succeeds exactly when the string names a card of the current player's hand;
      otherwise nothing changes. */
  lemma DiscardFindsCard(t: TableState, card: string)
    requires HasCurrent(t)
    ensures var r := DiscardCardOf(t, card);
      r.1 <==> NamedCard(card).Some? && exists j :: 0 <= j < |Cur(t).hand| && Cur(t).hand[j].card == NamedCard(card).value
    ensures var r := DiscardCardOf(t, card); !r.1 ==> r.0 == t
  {
  }

  /** `marked` is `hand` with its card at `k`, the first copy of `c`, marked as discarded. */
  predicate MarkedFirstAt(hand: seq<HeldCard>, marked: seq<HeldCard>, c: Card, k: nat) {
    && k < |hand| && hand[k].card == c
    && marked == hand[k := hand[k].(discard := true)]
    && forall j :: 0 <= j < k ==> hand[j].card != c
  }

  /** Marking changes only the current player's hand, and only its first copy of the card,
      which is now marked. */
  lemma MarkFirstCopy(t: TableState, c: Card)
    requires HasCurrent(t)
    ensures var r := MarkFirst(t, c); var i := t.current.value;
      && r.0 == t.(seats := r.0.seats) && OnlySeat(r.0.seats, t.seats, i)
      && Cur(r.0) == Cur(t).(hand := Cur(r.0).hand)
      && |Cur(r.0).hand| == |Cur(t).hand|
    ensures var r := MarkFirst(t, c); var hand := Cur(t).hand;
      r.1 ==> exists k :: MarkedFirstAt(hand, Cur(r.0).hand, c, k)
  {
    var hand := Cur(t).hand;
    var r := MarkFirst(t, c);
    if FindCard(hand, c).Some? {
      var k := FindCard(hand, c).value;
      var marked := hand[k := hand[k].(discard := true)];
      assert r.0 == WithCur(t, Cur(t).(hand := marked));
      assert Cur(r.0).hand == marked;
      assert MarkedFirstAt(hand, Cur(r.0).hand, c, k);
    }
  }

  /** The two letters the computer reads out of a card's ToString name that very card, so its
      discard marks the first copy of the card in the hand. */
  lemma LettersNameCard(c: Card)
    ensures LettersFromString(ToString(c)).Some?
    ensures NamedCard(LettersFromString(ToString(c)).value) == Some(c)
  {
    ToStringLetters(c);
    var letters := [FaceLetter(c.face), SuitLetter(c.suit)];
    assert letters[0..1] == [FaceLetter(c.face)] && letters[1..2] == [SuitLetter(c.suit)];
  }

  /** RuleSet.DrawCardsUp / DrawCardsDown: as many cards as the player marked are popped and
      appended to the hand (face down or up), then the marked cards are removed. With no mark,
      nothing happens (the C# returns null); a deck that runs out throws, after the cards it
      had were appended. */
  function DrawOf(t: TableState, down: bool): Effect
    requires HasCurrent(t)
  {
    var n := DiscardCount(Cur(t).hand);
    if n == 0 then Effect(t, false)
    else if n <= |t.deck| then
      var u := Drawing(t, down, n);
      Effect(WithCur(u, Cur(u).(hand := WithoutDiscards(Cur(u).hand))), false)
    else Effect(RunOut(t, down), true)
  }

  /** Appending as many fresh cards as are marked and removing the marked ones keeps the hand's
      size: the unmarked cards in order, then the new ones, none of them marked. */
  lemma ReplaceDiscards(hand: seq<HeldCard>, cards: seq<Card>, down: bool)
    requires |cards| == DiscardCount(hand)
    ensures var r := WithoutDiscards(hand + Held(cards, down));
      && r == WithoutDiscards(hand) + Held(cards, down)
      && |r| == |hand|
      && forall h :: h in r ==> !h.discard
  {
    var drawn := Held(cards, down);
    WithoutDiscardsAppend(hand, drawn);
    assert forall h :: h in drawn ==> !h.discard;
    WithoutDiscardsNone(drawn);
    WithoutDiscardsSize(hand);
  }

  /** A draw replaces the marked cards: the hand keeps its size, its unmarked cards in order
      followed by the drawn ones, none of them marked; the deck loses exactly the drawn cards. */
  lemma DrawReplacesDiscards(t: TableState, down: bool)
    requires HasCurrent(t) && 0 < DiscardCount(Cur(t).hand) <= |t.deck|
    ensures var n := DiscardCount(Cur(t).hand); var e := DrawOf(t, down); var hand := Cur(e.t).hand;
      && !e.threw && e.t.current == t.current && OnlySeat(e.t.seats, t.seats, t.current.value)
      && hand == WithoutDiscards(Cur(t).hand) + Held(Popped(t.deck, n), down)
      && |hand| == |Cur(t).hand|
      && (forall h :: h in hand ==> !h.discard)
      && e.t.deck == t.deck[..|t.deck| - n]
      && multiset(e.t.deck) + multiset(Popped(t.deck, n)) == multiset(t.deck)
  {
    var n := DiscardCount(Cur(t).hand);
    PoppedCards(t.deck, n);
    ReplaceDiscards(Cur(t).hand, Popped(t.deck, n), down);
    var hand := WithoutDiscards(Cur(t).hand + Held(Popped(t.deck, n), down));
    var u := Drawing(t, down, n);
    assert Cur(u).hand == Cur(t).hand + Held(Popped(t.deck, n), down);
    assert u.seats[t.current.value := Cur(u).(hand := hand)] == t.seats[t.current.value := Cur(t).(hand := hand)];
    assert DrawOf(t, down) == Effect(WithCur(t, Cur(t).(hand := hand)).(deck := t.deck[..|t.deck| - n]), false);
  }

  /** The state after the first k cards of a draw: popped and appended to the hand. */
  function Drawing(t: TableState, down: bool, k: nat): TableState
    requires HasCurrent(t) && k <= |t.deck|
  {
    WithCur(t, Cur(t).(hand := Cur(t).hand + Held(Popped(t.deck, k), down))).(deck := t.deck[..|t.deck| - k])
  }

  /** Before the first card nothing has moved. */
  lemma DrawingNone(t: TableState, down: bool)
    requires HasCurrent(t)
    ensures Drawing(t, down, 0) == t
  {
    assert Cur(t).hand + Held(Popped(t.deck, 0), down) == Cur(t).hand;
    assert t.deck[..|t.deck|] == t.deck;
    assert t.seats[t.current.value := Cur(t)] == t.seats;
  }

  /** The card popped after k others is the one k places below the top. */
  lemma {:induction false} PoppedLast(deck: seq<Card>, k: nat)
    requires k < |deck|
    ensures Popped(deck, k + 1) == Popped(deck, k) + [deck[|deck| - 1 - k]]
  {
    if k > 0 {
      var rest := deck[..|deck| - 1];
      PoppedLast(rest, k - 1);
      assert rest[|rest| - 1 - (k - 1)] == deck[|deck| - 1 - k];
    }
  }

  /** One more card of a draw: the top of what is left of the deck goes to the end of the
      hand. */
  lemma DrawingStep(t: TableState, down: bool, k: nat)
    requires HasCurrent(t) && k < |t.deck|
    ensures var u := Drawing(t, down, k); var c := u.deck[|u.deck| - 1];
      && u.deck != [] && HasCurrent(u)
      && Drawing(t, down, k + 1)
         == WithCur(u, Cur(u).(hand := Cur(u).hand + [HeldCard(c, down, false)])).(deck := u.deck[..|u.deck| - 1])
  {
    var u := Drawing(t, down, k);
    var i := t.current.value;
    PoppedLast(t.deck, k);
    var c := t.deck[|t.deck| - 1 - k];
    var before := Cur(t).hand + Held(Popped(t.deck, k), down);
    var after := Cur(t).hand + Held(Popped(t.deck, k + 1), down);
    assert Held(Popped(t.deck, k + 1), down) == Held(Popped(t.deck, k), down) + [HeldCard(c, down, false)];
    assert after == before + [HeldCard(c, down, false)];
    assert Cur(u) == Cur(t).(hand := before);
    assert u.deck[|u.deck| - 1] == c;
    assert u.deck[..|u.deck| - 1] == t.deck[..|t.deck| - (k + 1)];
    assert t.seats[i := Cur(t).(hand := before)][i := Cur(t).(hand := after)] == t.seats[i := Cur(t).(hand := after)];
  }

  /** A draw with more cards marked than the deck holds empties the deck into the hand. */
  function RunOut(t: TableState, down: bool): (r: TableState)
    requires HasCurrent(t)
    ensures r.deck == []
  {
    Drawing(t, down, |t.deck|)
  }

  /** With more cards marked than the deck holds, the draw throws once the whole deck has gone
      into the hand, where the marked cards are still held. */
  lemma DrawRunsOut(t: TableState, down: bool)
    requires HasCurrent(t) && DiscardCount(Cur(t).hand) > |t.deck|
    ensures DrawOf(t, down) == Effect(RunOut(t, down), true)
    ensures var r := RunOut(t, down);
      && r.deck == [] && OnlySeat(r.seats, t.seats, t.current.value)
      && |Cur(r).hand| == |Cur(t).hand| + |t.deck|
      && Cur(r).hand[..|Cur(t).hand|] == Cur(t).hand
  {
    PoppedCards(t.deck, |t.deck|);
    var hand := Cur(t).hand + Held(Popped(t.deck, |t.deck|), down);
    assert Cur(RunOut(t, down)).hand == hand;
    assert hand[..|Cur(t).hand|] == Cur(t).hand;
  }

  /** Running out moves the deck's cards into the hand: no card is lost or made. */
  lemma RunOutKeepsCards(t: TableState, down: bool)
    requires HasCurrent(t)
    ensures multiset(CardsOf(Cur(RunOut(t, down)).hand)) == multiset(CardsOf(Cur(t).hand)) + multiset(t.deck)
  {
    var popped := Popped(t.deck, |t.deck|);
    PoppedCards(t.deck, |t.deck|);
    assert t.deck[..0] == [];
    assert Cur(RunOut(t, down)).hand == Cur(t).hand + Held(popped, down);
    CardsOfHeld(Cur(t).hand, popped, down);
  }

  // ---------------------------------------------------------------------------------------------
  // The end of a turn: RuleSet.NextPlayerRoundOrDeal

  /** Stacks with the same amounts seat by seat add up to the same sum. */
  lemma {:induction false} StacksSameMoney(a: seq<Seat>, b: seq<Seat>)
    requires |a| == |b| && forall j :: 0 <= j < |a| ==> a[j].money == b[j].money
    ensures Stacks(a) == Stacks(b)
  {
    if a != [] {
      StacksSameMoney(a[..|a| - 1], b[..|b| - 1]);
    }
  }

  /** Reading `Round` (`theRounds[currentRound]`) does not throw. */
  predicate RoundExists(t: TableState) {
    0 <= t.currentRound < |t.rounds|
  }

  function Round(t: TableState): Rule
    requires RoundExists(t)
  {
    t.rounds[t.currentRound]
  }

  /** The first seat the search for the next player looks at: the one after the current
      player, or the first seat when there is none (`IndexOf(null)` is -1). */
  function After(t: TableState): nat {
    if t.current.Some? then t.current.value + 1 else 0
  }

  /** The showdown's argument: each player in the deal, in seat order, with the cards of the
      hand followed by the common cards. */
  function ContendersOf(t: TableState): seq<Resolver.Contender> {
    ContendersIn(t.seats, t.commonCards)
  }

  /** The contenders among the seats `s` with the common cards `common`. */
  function ContendersIn(s: seq<Seat>, common: seq<Card>): (cs: seq<Resolver.Contender>)
    ensures |cs| == Count(s, IsIn)
    ensures forall k :: 0 <= k < |cs| ==> cs[k].p < |s| && s[cs[k].p].status == In
    ensures forall k :: 0 <= k < |cs| ==> cs[k].cards == CardsOf(s[cs[k].p].hand) + common
  {
    var ps := Positions(s, IsIn);
    seq(|ps|, k requires 0 <= k < |ps| => Resolver.Contender(CardsOf(s[ps[k]].hand) + common, ps[k]))
  }

  /** The contenders among the first k seats grow by seat k's contender when it is in the
      deal (the loop over the players that builds the showdown's argument). */
  lemma ContendersStep(s: seq<Seat>, common: seq<Card>, k: nat)
    requires k < |s|
    ensures ContendersIn(s[..k + 1], common)
         == ContendersIn(s[..k], common) + (if s[k].status == In then [Resolver.Contender(CardsOf(s[k].hand) + common, k)] else [])
  {
    var a, b := s[..k], s[..k + 1];
    assert b[..|b| - 1] == a;
    var pa, pb := Positions(a, IsIn), Positions(b, IsIn);
    assert pb == pa + (if Passes(b[k], IsIn) then [k] else []);
    var ca, cb := ContendersIn(a, common), ContendersIn(b, common);
    forall j | 0 <= j < |pa| ensures cb[j] == ca[j] {
      assert pb[j] == pa[j] && b[pa[j]] == a[pa[j]];
    }
  }

  /** The players' own hands, seat by seat, which the showdown's second tie-break pass reads. */
  function SeatHands(t: TableState): (r: seq<seq<Card>>)
    ensures |r| == |t.seats|
  {
    seq(|t.seats|, j requires 0 <= j < |t.seats| => CardsOf(t.seats[j].hand))
  }

  /** What Card.Showdown, as written, promises about its result `r` for the contenders `cs`:
      nobody for no contender, the only one for one, a contender's player whenever it returns,
      and, when one contender's category beats all others, the player its reversed `Find`
      enters (Resolver.SoleLeader): contender 0 itself, but for a later contender usually null. */
  predicate ShowdownResult(cs: seq<Resolver.Contender>, r: Resolver.Outcome) {
    && (|cs| == 0 ==> r == Resolver.Returned(None))
    && (|cs| == 1 ==> r == Resolver.Returned(Some(cs[0].p)))
    && (r.Returned? ==> Resolver.Seated(r.p, cs))
    && forall k :: 0 <= k < |cs| && Resolver.StrictlyBest(Resolver.BestHands(cs), k) ==>
         r == Resolver.SoleLeader(cs, Resolver.BestHands(cs), k, false)
  }

  /** What the showdown was evidently meant to promise (Resolver.Showdown): the same, except
      that a contender whose category beats all others is always the one returned. */
  predicate IntendedShowdownResult(cs: seq<Resolver.Contender>, r: Resolver.Outcome) {
    && (|cs| == 0 ==> r == Resolver.Returned(None))
    && (|cs| == 1 ==> r == Resolver.Returned(Some(cs[0].p)))
    && (r.Returned? ==> Resolver.Seated(r.p, cs))
    && forall k :: 0 <= k < |cs| && Resolver.StrictlyBest(Resolver.BestHands(cs), k) ==>
         r == Resolver.Returned(Some(cs[k].p))
  }

  /** A verdict that names a player names a seat. */
  predicate VerdictFits(t: TableState, verdict: Resolver.Outcome) {
    verdict.Returned? && verdict.p.Some? ==> verdict.p.value < |t.seats|
  }

  /** The branch of NextPlayerRoundOrDeal that compares the hands: the game goes on, two players
      or more are in the deal, no one after the current player is left to play this round, the
      bets are matched when it is a betting round, and the next round is the showdown. */
  predicate ShowdownDue(t: TableState) {
    && !t.gameOver && Count(t.seats, IsIn) > 1 && RoundExists(t)
    && Round(t) != DealCardCommon
    && FindFrom(t.seats, After(t), IsIn).None?
    && !(Round(t) == Bet && !BetsMatched(t.seats))
    && t.currentRound < |t.rounds| - 1 && t.rounds[t.currentRound + 1] == Showdown
  }

  /** The state in which the next round starts: first player in the deal, betting open again. */
  function NextRound(t: TableState): TableState {
    t.(checkOnly := false, currentRound := t.currentRound + 1, current := FindFrom(t.seats, 0, IsIn))
  }

  /** RuleSet.NextPlayerRoundOrDeal, up to the calls to Prompt. `verdict` is what Card.Showdown
      returns when the hands are compared; `sh` is the shuffle of the new deal that follows a
      won or drawn deal. In order: nothing when the game is over; the last player in the deal
      wins it (null, when nobody is in, throws); a common card is dealt once for everybody; the
      next player in the deal plays; an unmatched betting round goes around again, checks only;
      the next round starts unless it is the showdown; reading past the last round throws; the
      showdown pays the winner or splits the pot, and a new deal starts. */
  function NextOf(t: TableState, sh: Shuffle, verdict: Resolver.Outcome): Effect
    requires ValidShuffle(sh) && VerdictFits(t, verdict)
  {
    if t.gameOver then Effect(t, false)
    else if Count(t.seats, IsIn) <= 1 then LastStanding(t, sh)
    else if !RoundExists(t) then Effect(t, true)
    else if Round(t) == DealCardCommon then Effect(NextRound(t), false)
    else TurnOf(t, sh, verdict)
  }

  /** NextPlayerRoundOrDeal in a round other than the common card, with two players or more in
      the deal: the showdown's settlement when the hands are due to be compared, otherwise the
      turn passes. */
  function TurnOf(t: TableState, sh: Shuffle, verdict: Resolver.Outcome): Effect
    requires ValidShuffle(sh) && VerdictFits(t, verdict) && RoundExists(t) && Count(t.seats, IsIn) > 1
    requires !t.gameOver && Round(t) != DealCardCommon
  {
    if ShowdownDue(t) then Settle(t, sh, verdict) else PassOf(t)
  }

  /** The end of a turn when the hands are not due to be compared: the next player in the deal
      plays; otherwise an unmatched betting round goes around again, checks only; otherwise the
      next round starts; reading past the last round throws. */
  function PassOf(t: TableState): Effect
    requires RoundExists(t)
  {
    match FindFrom(t.seats, After(t), IsIn)
    case Some(np) => Effect(t.(current := Some(np)), false)
    case None =>
      if Round(t) == Bet && !BetsMatched(t.seats) then
        Effect(t.(checkOnly := true, current := FindFrom(t.seats, 0, IsIn)), false)
      else if t.currentRound < |t.rounds| - 1 then Effect(NextRound(t), false)
      else Effect(t, true)
  }

  /** The last player in the deal wins it, then a new deal starts. */
  function LastStanding(t: TableState, sh: Shuffle): Effect
    requires ValidShuffle(sh)
  {
    match FindFrom(t.seats, 0, IsIn)
    case None => Effect(t, true)
    case Some(w) => Effect(EndDealOf(VictoryOf(t, w), sh), false)
  }

  /** The end of a won or drawn deal: betting open again and, unless the game is over, a new
      deal. */
  function EndDealOf(t: TableState, sh: Shuffle): TableState
    requires ValidShuffle(sh)
  {
    NewDealOf(t.(checkOnly := false), sh)
  }

  /** The showdown's outcome: an exception, a draw that shares the pot among the players in the
      deal (`pot / count` each, rounded toward zero), or the winner's victory; then a new deal. */
  function Settle(t: TableState, sh: Shuffle, verdict: Resolver.Outcome): Effect
    requires ValidShuffle(sh) && VerdictFits(t, verdict) && Count(t.seats, IsIn) > 0
  {
    match verdict
    case Thrown => Effect(t, true)
    case Returned(None) =>
      var share := DivTrunc(t.pot, Count(t.seats, IsIn));
      Effect(EndDealOf(t.(seats := SplitPot(t.seats, share)), sh), false)
    case Returned(Some(w)) => Effect(EndDealOf(VictoryOf(t, w), sh), false)
  }

  /** When the hands are due to be compared, the end of the turn is the showdown's settlement. */
  lemma ShowdownSettles(t: TableState, sh: Shuffle, verdict: Resolver.Outcome)
    requires ValidShuffle(sh) && VerdictFits(t, verdict) && ShowdownDue(t)
    ensures NextOf(t, sh, verdict) == Settle(t, sh, verdict)
  {
  }

  /** When the game is over, the end of a turn changes nothing. */
  lemma NextAfterGameOver(t: TableState, sh: Shuffle, verdict: Resolver.Outcome)
    requires ValidShuffle(sh) && VerdictFits(t, verdict) && t.gameOver
    ensures NextOf(t, sh, verdict) == Effect(t, false)
  {
  }

  /** A victory followed by a new deal: the winner's stack grows by the pot, no other stack
      changes, and the chips on the table are kept (the new deal empties the pot). */
  lemma VictoryThenDeal(t: TableState, w: nat, sh: Shuffle)
    requires w < |t.seats| && ValidShuffle(sh) && !t.gameOver && t.pot >= 0
    ensures var r := NewDealOf(VictoryOf(t, w).(checkOnly := false), sh);
      TakesPot(t, r, w) && (!r.gameOver ==> r.pot == 0)
  {
    var v := VictoryOf(t, w).(checkOnly := false);
    VictoryPays(t, w);
    NewDealKeepsMoney(v, sh);
    var r := NewDealOf(v, sh);
    StacksSameMoney(r.seats, v.seats);
    if !r.gameOver {
      assert !v.gameOver;
      NewDealStarts(v, sh);
    }
  }

  /** Seat w's stack grows by the pot, no other stack changes, and the chips in the stacks grow
      by the pot. */
  predicate TakesPot(t: TableState, r: TableState, w: nat) {
    && |r.seats| == |t.seats|
    && (forall j :: 0 <= j < |t.seats| ==> r.seats[j].money == t.seats[j].money + (if j == w then t.pot else 0))
    && Stacks(r.seats) == Stacks(t.seats) + t.pot
  }

  /** The last player left in the deal takes the pot (and nobody else gains anything); with
      nobody left in the deal, the call throws before changing anything. */
  lemma LastPlayerTakesPot(t: TableState, sh: Shuffle, verdict: Resolver.Outcome)
    requires ValidShuffle(sh) && VerdictFits(t, verdict) && !t.gameOver && t.pot >= 0
    requires Count(t.seats, IsIn) <= 1
    ensures var e := NextOf(t, sh, verdict);
      && (e.threw <==> Count(t.seats, IsIn) == 0)
      && (e.threw ==> e.t == t)
      && (!e.threw ==> exists w :: 0 <= w < |t.seats| && t.seats[w].status == In && TakesPot(t, e.t, w))
  {
    CountZero(t.seats, IsIn);
    if Count(t.seats, IsIn) == 1 {
      var w := FindFrom(t.seats, 0, IsIn).value;
      VictoryThenDeal(t, w, sh);
    }
  }

  /** When the turn passes within the deal (to the next player, the next round, or around again
      for unmatched bets), only the current player, the round and the CheckOnly flag change, and
      the new current player is in the deal. */
  lemma TurnPasses(t: TableState, sh: Shuffle, verdict: Resolver.Outcome)
    requires ValidShuffle(sh) && VerdictFits(t, verdict)
    requires !t.gameOver && Count(t.seats, IsIn) > 1 && RoundExists(t) && !ShowdownDue(t)
    requires !(t.currentRound >= |t.rounds| - 1 && FindFrom(t.seats, After(t), IsIn).None? &&
               Round(t) != DealCardCommon && !(Round(t) == Bet && !BetsMatched(t.seats)))
    ensures var e := NextOf(t, sh, verdict);
      && !e.threw
      && e.t == t.(current := e.t.current, currentRound := e.t.currentRound, checkOnly := e.t.checkOnly)
      && e.t.current.Some? && e.t.current.value < |t.seats| && t.seats[e.t.current.value].status == In
      && e.t.currentRound in {t.currentRound, t.currentRound + 1}
  {
    if Round(t) != DealCardCommon {
      NextIsPass(t, sh, verdict);
    }
    FirstFound(t.seats, IsIn);
  }

  /** A betting round whose bets are not all matched goes around again from the first player in
      the deal, and only checking or folding is left. */
  lemma UnmatchedBetsGoAround(t: TableState, sh: Shuffle, verdict: Resolver.Outcome)
    requires ValidShuffle(sh) && VerdictFits(t, verdict)
    requires !t.gameOver && Count(t.seats, IsIn) > 1 && RoundExists(t) && Round(t) == Bet
    requires FindFrom(t.seats, After(t), IsIn).None? && !BetsMatched(t.seats)
    ensures var e := NextOf(t, sh, verdict);
      && !e.threw && e.t.checkOnly && e.t.currentRound == t.currentRound
      && e.t.current == FindFrom(t.seats, 0, IsIn) && e.t.current.Some?
  {
    NextIsPass(t, sh, verdict);
    FirstFound(t.seats, IsIn);
  }

  /** Once all bets are matched, the last player of a round that is not the last one hands over
      to the first player in the deal in the next round (unless the next one is the showdown). */
  lemma RoundEnds(t: TableState, sh: Shuffle, verdict: Resolver.Outcome)
    requires ValidShuffle(sh) && VerdictFits(t, verdict)
    requires !t.gameOver && Count(t.seats, IsIn) > 1 && RoundExists(t) && Round(t) != DealCardCommon
    requires FindFrom(t.seats, After(t), IsIn).None? && !(Round(t) == Bet && !BetsMatched(t.seats))
    requires t.currentRound < |t.rounds| - 1 && t.rounds[t.currentRound + 1] != Showdown
    ensures NextOf(t, sh, verdict) == Effect(NextRound(t), false)
  {
    NextIsPass(t, sh, verdict);
  }

  /** Outside the cases that end the deal, deal a common card or compare the hands, the end of a
      turn is PassOf. */
  lemma NextIsPass(t: TableState, sh: Shuffle, verdict: Resolver.Outcome)
    requires ValidShuffle(sh) && VerdictFits(t, verdict)
    requires !t.gameOver && Count(t.seats, IsIn) > 1 && RoundExists(t) && Round(t) != DealCardCommon
    requires !ShowdownDue(t)
    ensures NextOf(t, sh, verdict) == PassOf(t)
  {
  }

  /** A split pot followed by a new deal: each player in the deal receives `pot / n`, and the
      stacks grow by the pot less its remainder `pot % n`, which is lost. */
  lemma SplitThenDeal(t: TableState, sh: Shuffle)
    requires ValidShuffle(sh) && Count(t.seats, IsIn) > 0 && t.pot >= 0
    ensures var n := Count(t.seats, IsIn);
      var r := NewDealOf(t.(seats := SplitPot(t.seats, DivTrunc(t.pot, n)), checkOnly := false), sh);
      && |r.seats| == |t.seats|
      && (forall j :: 0 <= j < |t.seats| ==>
            r.seats[j].money == t.seats[j].money + (if t.seats[j].status == In then t.pot / n else 0))
      && Stacks(r.seats) == Stacks(t.seats) + t.pot - t.pot % n
      && Stacks(t.seats) <= Stacks(r.seats) <= Stacks(t.seats) + t.pot
  {
    var n := Count(t.seats, IsIn);
    var split := SplitPot(t.seats, DivTrunc(t.pot, n));
    SplitPotShares(t);
    SplitLosesRemainder(t.seats, t.pot);
    NewDealKeepsStacks(t.(seats := split, checkOnly := false), sh);
  }

  /** Splitting the pot adds it to the stacks less the remainder of its division. */
  lemma SplitLosesRemainder(s: seq<Seat>, pot: int)
    requires Count(s, IsIn) > 0 && pot >= 0
    ensures Stacks(SplitPot(s, DivTrunc(pot, Count(s, IsIn)))) == Stacks(s) + pot - pot % Count(s, IsIn)
  {
    var n := Count(s, IsIn);
    var share := DivTrunc(pot, n);
    DivTruncShare(pot, n);
    SplitPotStacks(s, share);
    assert n * share == pot - pot % n;
  }

  /** A new deal moves no chips between the players' stacks. */
  lemma NewDealKeepsStacks(t: TableState, sh: Shuffle)
    requires ValidShuffle(sh)
    ensures var r := NewDealOf(t, sh);
      && |r.seats| == |t.seats|
      && (forall j :: 0 <= j < |t.seats| ==> r.seats[j].money == t.seats[j].money)
      && Stacks(r.seats) == Stacks(t.seats)
  {
    NewDealKeepsMoney(t, sh);
    StacksSameMoney(NewDealOf(t, sh).seats, t.seats);
  }

  /** At a showdown that the verdict calls a draw, each player in the deal receives the pot
      divided by their number, rounded toward zero; the remainder of the division is lost when
      the new deal empties the pot. */
  lemma DrawSplitsPot(t: TableState, sh: Shuffle)
    requires ValidShuffle(sh) && ShowdownDue(t) && t.pot >= 0
    ensures var e := NextOf(t, sh, Resolver.Returned(None)); var n := Count(t.seats, IsIn);
      && !e.threw && |e.t.seats| == |t.seats|
      && (forall j :: 0 <= j < |t.seats| ==>
            e.t.seats[j].money == t.seats[j].money + (if t.seats[j].status == In then t.pot / n else 0))
      && Stacks(e.t.seats) == Stacks(t.seats) + t.pot - t.pot % n
  {
    ShowdownSettles(t, sh, Resolver.Returned(None));
    SplitThenDeal(t, sh);
  }

  /** As written, at a showdown where the first player in the deal holds a hand of a better
      category than every other hand, that player takes the whole pot and no one else gains
      anything. */
  lemma FirstBestHandTakesPot(t: TableState, sh: Shuffle, verdict: Resolver.Outcome)
    requires ValidShuffle(sh) && VerdictFits(t, verdict) && ShowdownDue(t) && t.pot >= 0
    requires ShowdownResult(ContendersOf(t), verdict)
    requires Resolver.StrictlyBest(Resolver.BestHands(ContendersOf(t)), 0)
    ensures var e := NextOf(t, sh, verdict);
      !e.threw && TakesPot(t, e.t, ContendersOf(t)[0].p)
  {
    var cs := ContendersOf(t);
    Resolver.FirstLeaderEntered(cs, Resolver.BestHands(cs), false);
    assert verdict == Resolver.Returned(Some(cs[0].p));
    ShowdownSettles(t, sh, verdict);
    VictoryThenDeal(t, cs[0].p, sh);
  }

  /** As written, a hand of a better category than every other hand, held by a later player in
      the deal, is lost when no player's whole card list lies inside its best cards: the pot is
      split as in a draw, each player in the deal receiving `pot / count`. */
  lemma LaterBestHandSplitsPot(t: TableState, sh: Shuffle, verdict: Resolver.Outcome, k: nat)
    requires ValidShuffle(sh) && VerdictFits(t, verdict) && ShowdownDue(t) && t.pot >= 0
    requires ShowdownResult(ContendersOf(t), verdict)
    requires var cs := ContendersOf(t); var bs := Resolver.BestHands(cs);
      && 1 <= k < |cs| && Resolver.StrictlyBest(bs, k) && !Resolver.CategoryThrows(cs, bs, false)
      && forall j :: 0 <= j < |cs| ==> !Resolver.AllIn(cs[j].cards, bs[k].cards)
    ensures var e := NextOf(t, sh, verdict); var n := Count(t.seats, IsIn);
      && !e.threw && |e.t.seats| == |t.seats|
      && (forall j :: 0 <= j < |t.seats| ==>
            e.t.seats[j].money == t.seats[j].money + (if t.seats[j].status == In then t.pot / n else 0))
      && Stacks(e.t.seats) == Stacks(t.seats) + t.pot - t.pot % n
  {
    var cs := ContendersOf(t);
    Resolver.SoleLeaderLost(cs, Resolver.BestHands(cs), k);
    assert verdict == Resolver.Returned(None);
    DrawSplitsPot(t, sh);
  }

  /** With the showdown as intended (Resolver.Showdown), a player whose hand is of a better
      category than every other hand in the deal takes the whole pot and no one else gains
      anything, wherever that player sits. */
  lemma BestHandTakesPot(t: TableState, sh: Shuffle, verdict: Resolver.Outcome, k: nat)
    requires ValidShuffle(sh) && VerdictFits(t, verdict) && ShowdownDue(t) && t.pot >= 0
    requires IntendedShowdownResult(ContendersOf(t), verdict)
    requires k < Count(t.seats, IsIn) && Resolver.StrictlyBest(Resolver.BestHands(ContendersOf(t)), k)
    ensures var e := NextOf(t, sh, verdict);
      !e.threw && TakesPot(t, e.t, ContendersOf(t)[k].p)
  {
    var w := ContendersOf(t)[k].p;
    assert verdict == Resolver.Returned(Some(w));
    ShowdownSettles(t, sh, verdict);
    VictoryThenDeal(t, w, sh);
  }

  /** Whatever the verdict, as long as it names nobody or a player in the deal, a showdown that
      does not throw pays out only to players who were in the deal, and never more than the
      pot. */
  lemma ShowdownPaysPlayersIn(t: TableState, sh: Shuffle, verdict: Resolver.Outcome)
    requires ValidShuffle(sh) && VerdictFits(t, verdict) && ShowdownDue(t) && t.pot >= 0
    requires verdict.Returned? ==> Resolver.Seated(verdict.p, ContendersOf(t))
    ensures var e := NextOf(t, sh, verdict);
      && (e.threw <==> verdict.Thrown?)
      && (!e.threw ==> PaysOnlyIn(t, e.t))
  {
    ShowdownSettles(t, sh, verdict);
    SettlePaysOnlyIn(t, sh, verdict);
  }

  lemma SettlePaysOnlyIn(t: TableState, sh: Shuffle, verdict: Resolver.Outcome)
    requires ValidShuffle(sh) && VerdictFits(t, verdict) && !t.gameOver && Count(t.seats, IsIn) > 0 && t.pot >= 0
    requires verdict.Returned? && verdict.p.Some? ==> t.seats[verdict.p.value].status == In
    ensures var e := Settle(t, sh, verdict);
      && (e.threw <==> verdict.Thrown?)
      && (!e.threw ==> PaysOnlyIn(t, e.t))
  {
    var n := Count(t.seats, IsIn);
    match verdict
    case Thrown =>
    case Returned(None) =>
      SplitThenDeal(t, sh);
    case Returned(Some(w)) =>
      VictoryThenDeal(t, w, sh);
      TakesPotPaysOnlyIn(t, NewDealOf(VictoryOf(t, w).(checkOnly := false), sh), w);
  }

  /** A pot taken by a player in the deal is paid only to a player in the deal. */
  lemma TakesPotPaysOnlyIn(t: TableState, r: TableState, w: nat)
    requires w < |t.seats| && t.seats[w].status == In && t.pot >= 0 && TakesPot(t, r, w)
    ensures PaysOnlyIn(t, r)
  {
  }

  /** Between t and r, only players in the deal gain chips, and the stacks gain at most the pot. */
  predicate PaysOnlyIn(t: TableState, r: TableState) {
    && |r.seats| == |t.seats|
    && (forall j :: 0 <= j < |t.seats| && t.seats[j].status != In ==> r.seats[j].money == t.seats[j].money)
    && Stacks(t.seats) <= Stacks(r.seats) <= Stacks(t.seats) + t.pot
  }
}
