/** Player.cs: one seat at the table, its stack of chips, its bet on the current deal, its
    status and its hand. */
module Players {
  import opened Cards

  datatype PlayerType = Human | AI

  /** In the deal, out of this deal (folded), or out of the game. */
  datatype PlayerStatus = In | OutDeal | OutGame

  /** The stack after Player.Spend(amount): only a positive amount is taken. */
  function AfterSpend(money: int, amount: int): (r: int)
    ensures r <= money
    ensures r == money <==> amount <= 0
    ensures amount > 0 ==> money - r == amount
  {
    if amount > 0 then money - amount else money
  }

  /** The stack after Player.Gain(amount): only a positive amount is added. */
  function AfterGain(money: int, amount: int): (r: int)
    ensures r >= money
    ensures r == money <==> amount <= 0
    ensures amount > 0 ==> r - money == amount
  {
    if amount > 0 then money + amount else money
  }

  /** Spending a positive amount and gaining it back restores the stack; the other order too. */
  lemma SpendThenGain(money: int, amount: int)
    requires amount > 0
    ensures AfterGain(AfterSpend(money, amount), amount) == money
    ensures AfterSpend(AfterGain(money, amount), amount) == money
  {
  }

  /** The hand after `cards.RemoveAll(c => c.Discard)`: the cards not marked, in their order. */
  function WithoutDiscards(hand: seq<HeldCard>): (r: seq<HeldCard>)
    ensures |r| <= |hand|
    ensures forall h :: h in r <==> h in hand && !h.discard
  {
    if hand == [] then []
    else WithoutDiscards(hand[..|hand| - 1]) + (if hand[|hand| - 1].discard then [] else [hand[|hand| - 1]])
  }

  /** The number of cards of `hand` marked as discarded (`FindAll(c => c.Discard).Count`). */
  function DiscardCount(hand: seq<HeldCard>): (n: nat)
    ensures n <= |hand|
    ensures n == 0 <==> forall h :: h in hand ==> !h.discard
  {
    if hand == [] then 0
    else DiscardCount(hand[..|hand| - 1]) + (if hand[|hand| - 1].discard then 1 else 0)
  }

  /** RemoveAll keeps the order: it works piecewise on a concatenation. */
  lemma {:induction false} WithoutDiscardsAppend(a: seq<HeldCard>, b: seq<HeldCard>)
    ensures WithoutDiscards(a + b) == WithoutDiscards(a) + WithoutDiscards(b)
    decreases |b|
  {
    if b == [] {
      assert a + b == a;
    } else {
      var b' := b[..|b| - 1];
      assert (a + b)[..|a + b| - 1] == a + b';
      WithoutDiscardsAppend(a, b');
    }
  }

  /** RemoveAll removes exactly the marked cards: as many as DiscardCount counts. */
  lemma {:induction false} WithoutDiscardsSize(hand: seq<HeldCard>)
    ensures |WithoutDiscards(hand)| + DiscardCount(hand) == |hand|
  {
    if hand != [] {
      WithoutDiscardsSize(hand[..|hand| - 1]);
    }
  }

  /** A hand with no marked card is left as it is. */
  lemma {:induction false} WithoutDiscardsNone(hand: seq<HeldCard>)
    requires forall h :: h in hand ==> !h.discard
    ensures WithoutDiscards(hand) == hand
  {
    if hand != [] {
      var init, last := hand[..|hand| - 1], hand[|hand| - 1];
      assert hand == init + [last];
      forall h | h in init ensures !h.discard {
        assert h in hand;
      }
      WithoutDiscardsNone(init);
      assert !last.discard by {
        assert last in hand;
      }
    }
  }

  /** What one player object holds, as a value (the fields of a Player). */
  datatype Seat = Seat(name: string, hand: seq<HeldCard>, money: int, playerType: PlayerType,
                       status: PlayerStatus, currentBet: int)

  class Player {
    var name: string
    var hand: seq<HeldCard>
    var money: int
    const playerType: PlayerType
    var status: PlayerStatus
    var currentBet: int

    /** The fields of this player as a value. */
    function State(): Seat
      reads this
    {
      Seat(name, hand, money, playerType, status, currentBet)
    }

    /** Player(playerType, money): in the deal, no bet, no cards; the name is set later (the
        C# field starts as null, modelled as the empty string). */
    constructor (playerType: PlayerType, money: int)
      ensures State() == Seat("", [], money, playerType, In, 0)
    {
      this.playerType := playerType;
      this.money := money;
      name := "";
      hand := [];
      status := In;
      currentBet := 0;
    }

    method SetName(name: string)
      modifies this
      ensures State() == old(State()).(name := name)
    {
      this.name := name;
    }

    /** Takes a positive amount from the stack and tells whether the player still has money. */
    method Spend(amount: int) returns (stillIn: bool)
      modifies this
      ensures State() == old(State()).(money := AfterSpend(old(money), amount))
      ensures stillIn <==> money > 0
    {
      if amount > 0 {
        money := money - amount;
      }
      stillIn := money > 0;
    }

    /** Adds a positive amount to the stack. */
    method Gain(amount: int)
      modifies this
      ensures State() == old(State()).(money := AfterGain(old(money), amount))
    {
      if amount > 0 {
        money := money + amount;
      }
    }

    /** Appends a card at the end of the hand. */
    method AddCard(c: HeldCard)
      modifies this
      ensures State() == old(State()).(hand := old(hand) + [c])
      ensures |hand| == |old(hand)| + 1 && hand[..|old(hand)|] == old(hand)
    {
      hand := hand + [c];
    }

    /** Removes every card marked as discarded, keeping the others in order. */
    method RemoveDiscards()
      modifies this
      ensures State() == old(State()).(hand := WithoutDiscards(old(hand)))
    {
      hand := WithoutDiscards(hand);
    }
  }
}
