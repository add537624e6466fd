/** The computations RuleSet.cs performs over its list of players, stated on seat values: chip
    sums, the largest bet, the List.Find / FindAll queries on statuses, the bet a string asks
    for, the computer player's betting policy, and the 32-bit arithmetic of the ante. */
module Table {
  import opened Optional
  import opened Text
  import opened Cards
  import opened Players

  // ---------------------------------------------------------------------------------------------
  // 32-bit integers

  const Two32: int := 0x1_0000_0000

  /** The value an `int` holds after a computation whose exact result is `x` (two's complement
      wrap-around, as unchecked C# arithmetic does). */
  function Wrap32(x: int): (r: int)
    ensures MinInt32 <= r <= MaxInt32
    ensures (r - x) % Two32 == 0
    ensures MinInt32 <= x <= MaxInt32 ==> r == x
  {
    (x - MinInt32) % Two32 + MinInt32
  }

  /** Doubling an ante of 2^30 chips wraps to the most negative 32-bit value. */
  lemma AnteDoublingWraps()
    ensures Wrap32(0x4000_0000 * 2) == MinInt32
  {
  }

  /** C# integer division: the quotient truncated toward zero. */
  function DivTrunc(a: int, b: int): (q: int)
    requires b != 0
    ensures var r := a - b * q; -Abs(b) < r < Abs(b) && (r == 0 || (r > 0) == (a > 0))
  {
    if a >= 0 then (if b > 0 then a / b else -(a / -b))
    else (if b > 0 then -(-a / b) else -a / -b)
  }

  function Abs(x: int): int { if x < 0 then -x else x }

  /** For a non-negative pot shared among a positive number of players, truncation and Dafny's
      division agree, and nobody receives more than their share. */
  lemma DivTruncShare(pot: int, n: int)
    requires pot >= 0 && n > 0
    ensures DivTrunc(pot, n) == pot / n
    ensures 0 <= DivTrunc(pot, n) * n <= pot
  {
    var q := pot / n;
    assert pot == n * q + pot % n && 0 <= pot % n < n;
    assert q >= 0;
    assert q * n >= 0;
  }

  // ---------------------------------------------------------------------------------------------
  // Sums and maxima over the seats

  /** The chips held by all the players. */
  function Stacks(s: seq<Seat>): int {
    if s == [] then 0 else Stacks(s[..|s| - 1]) + s[|s| - 1].money
  }

  /** Changing one seat changes the sum of the stacks by the change of that seat's stack. */
  lemma {:induction false} StacksUpdate(s: seq<Seat>, i: nat, seat: Seat)
    requires i < |s|
    ensures Stacks(s[i := seat]) == Stacks(s) - s[i].money + seat.money
    decreases |s|
  {
    var t := s[i := seat];
    if i < |s| - 1 {
      assert t[..|t| - 1] == s[..|s| - 1][i := seat];
      StacksUpdate(s[..|s| - 1], i, seat);
    } else {
      assert t[..|t| - 1] == s[..|s| - 1];
    }
  }

  /** Stacks that are all non-negative add up to a non-negative sum. */
  lemma {:induction false} StacksNonNegative(s: seq<Seat>)
    requires forall k :: 0 <= k < |s| ==> s[k].money >= 0
    ensures Stacks(s) >= 0
  {
    if s != [] {
      StacksNonNegative(s[..|s| - 1]);
    }
  }

  /** RuleSet.CurrentMaxBet: `players.Max(p => p.CurrentBet)`, which throws on an empty list. */
  function MaxBet(s: seq<Seat>): (m: int)
    requires s != []
    ensures forall k :: 0 <= k < |s| ==> s[k].currentBet <= m
  {
    if |s| == 1 then s[0].currentBet
    else
      var m := MaxBet(s[..|s| - 1]);
      assert forall k :: 0 <= k < |s| - 1 ==> s[k] == s[..|s| - 1][k];
      if s[|s| - 1].currentBet > m then s[|s| - 1].currentBet else m
  }

  /** The largest bet is some player's bet. */
  lemma {:induction false} MaxBetAttained(s: seq<Seat>) returns (k: nat)
    requires s != []
    ensures k < |s| && s[k].currentBet == MaxBet(s)
  {
    if |s| == 1 {
      k := 0;
    } else if s[|s| - 1].currentBet > MaxBet(s[..|s| - 1]) {
      k := |s| - 1;
    } else {
      k := MaxBetAttained(s[..|s| - 1]);
    }
  }

  /** Raising one player's bet to the current maximum leaves the maximum where it was. */
  lemma MaxBetKept(s: seq<Seat>, i: nat, seat: Seat)
    requires i < |s| && seat.currentBet == MaxBet(s)
    ensures MaxBet(s[i := seat]) == MaxBet(s)
  {
    var t := s[i := seat];
    var k := MaxBetAttained(t);
    assert t[i].currentBet == MaxBet(s) <= MaxBet(t);
    if k != i {
      assert t[k] == s[k];
    }
  }

  /** RuleSet.CurrentMinBettable: `Math.Max(0, Math.Max(ante, CurrentMaxBet))`. */
  function MinBettable(s: seq<Seat>, ante: int): (r: int)
    requires s != []
    ensures r >= 0 && r >= ante && forall k :: 0 <= k < |s| ==> s[k].currentBet <= r
    ensures r == 0 || r == ante || r == MaxBet(s)
  {
    var m := if ante >= MaxBet(s) then ante else MaxBet(s);
    if m >= 0 then m else 0
  }

  // ---------------------------------------------------------------------------------------------
  // Find and FindAll on the player statuses

  /** The conditions the code searches players by. */
  datatype Filter = IsIn | NotOutGame | IsOutGame

  predicate Passes(seat: Seat, f: Filter) {
    match f
    case IsIn => seat.status == In
    case NotOutGame => seat.status != OutGame
    case IsOutGame => seat.status == OutGame
  }

  /** List.Find from position `from` on: the first seat at or after `from` passing `f`. With
      `from` 0 this is `players.Find(...)`; with the current index plus one it is the search for
      the next player in the round. */
  function FindFrom(s: seq<Seat>, from: nat, f: Filter): (r: Option<nat>)
    ensures r.Some? ==> from <= r.value < |s| && Passes(s[r.value], f)
    ensures r.Some? ==> forall j :: from <= j < r.value ==> !Passes(s[j], f)
    ensures r.None? <==> forall j :: from <= j < |s| ==> !Passes(s[j], f)
    decreases |s| - from
  {
    if from >= |s| then None
    else if Passes(s[from], f) then Some(from)
    else FindFrom(s, from + 1, f)
  }

  /** `players.FindAll(...).Count`: the number of seats passing `f`. */
  function Count(s: seq<Seat>, f: Filter): (n: nat)
    ensures n <= |s|
  {
    if s == [] then 0 else Count(s[..|s| - 1], f) + (if Passes(s[|s| - 1], f) then 1 else 0)
  }

  /** No seat passes `f` exactly when the count is zero. */
  lemma {:induction false} CountZero(s: seq<Seat>, f: Filter)
    ensures Count(s, f) == 0 <==> forall j :: 0 <= j < |s| ==> !Passes(s[j], f)
  {
    if s != [] {
      CountZero(s[..|s| - 1], f);
      assert forall j :: 0 <= j < |s| - 1 ==> s[j] == s[..|s| - 1][j];
    }
  }

  /** When some seat passes `f`, Find returns one. */
  lemma FirstFound(s: seq<Seat>, f: Filter)
    requires Count(s, f) > 0
    ensures FindFrom(s, 0, f).Some?
  {
    CountZero(s, f);
  }

  /** Two different seats passing `f` make the count at least two. */
  lemma {:induction false} CountTwo(s: seq<Seat>, f: Filter, a: nat, b: nat)
    requires a < b < |s| && Passes(s[a], f) && Passes(s[b], f)
    ensures Count(s, f) >= 2
  {
    var init := s[..|s| - 1];
    if b < |s| - 1 {
      assert init[a] == s[a] && init[b] == s[b];
      CountTwo(init, f, a, b);
    } else {
      assert init[a] == s[a];
      CountZero(init, f);
    }
  }

  /** Replacing one seat changes the count by what that seat contributed before and after. */
  lemma {:induction false} CountUpdate(s: seq<Seat>, i: nat, seat: Seat, f: Filter)
    requires i < |s|
    ensures Count(s[i := seat], f) ==
      Count(s, f) - (if Passes(s[i], f) then 1 else 0) + (if Passes(seat, f) then 1 else 0)
  {
    var t := s[i := seat];
    if i < |s| - 1 {
      assert t[..|t| - 1] == s[..|s| - 1][i := seat];
      CountUpdate(s[..|s| - 1], i, seat, f);
    } else {
      assert t[..|t| - 1] == s[..|s| - 1];
    }
  }

  /** Every seat is either out of the game or not: the two counts add up to the number of seats,
      so `OutGame` count >= n - 1 is the same test as "at most one not `OutGame`". */
  lemma {:induction false} CountComplement(s: seq<Seat>)
    ensures Count(s, IsOutGame) + Count(s, NotOutGame) == |s|
  {
    if s != [] {
      CountComplement(s[..|s| - 1]);
    }
  }

  /** When at most one seat passes `f`, the seat Find returns is the only one. */
  lemma SoleFound(s: seq<Seat>, f: Filter)
    requires Count(s, f) <= 1 && FindFrom(s, 0, f).Some?
    ensures forall j :: 0 <= j < |s| && Passes(s[j], f) ==> j == FindFrom(s, 0, f).value
  {
    var k := FindFrom(s, 0, f).value;
    forall j | 0 <= j < |s| && Passes(s[j], f) ensures j == k {
      if j > k {
        CountTwo(s, f, k, j);
      }
    }
  }

  /** The positions of the seats passing `f`, in seat order (the list FindAll returns). */
  function Positions(s: seq<Seat>, f: Filter): (r: seq<nat>)
    ensures |r| == Count(s, f)
    ensures forall k :: 0 <= k < |r| ==> r[k] < |s| && Passes(s[r[k]], f)
    ensures forall j :: 0 <= j < |s| && Passes(s[j], f) ==> j in r
    ensures forall a, b :: 0 <= a < b < |r| ==> r[a] < r[b]
  {
    if s == [] then []
    else
      var init := s[..|s| - 1];
      var r := Positions(init, f);
      assert forall j :: 0 <= j < |s| - 1 ==> s[j] == init[j];
      if Passes(s[|s| - 1], f) then r + [|s| - 1] else r
  }

  /** `remainingPlayers.All(i => i.CurrentBet == CurrentMaxBet)` over the players in the deal. */
  predicate BetsMatched(s: seq<Seat>) {
    s != [] && forall j :: 0 <= j < |s| && s[j].status == In ==> s[j].currentBet == MaxBet(s)
  }

  // ---------------------------------------------------------------------------------------------
  // Bets

  /** The word "all" is left as it is by Trim and ToLower. */
  lemma AllIsAll()
    ensures ToLower(Trim("all")) == "all"
  {
    assert !IsWhiteSpace('a') && !IsWhiteSpace('l');
    TrimNothing("all");
    var lower := ToLower("all");
    assert lower[0] == 'a' && lower[1] == 'l' && lower[2] == 'l';
  }

  /** The first part of RuleSet.PlaceBet: whether the string `str` asks for an acceptable bet and
      which total bet it asks for. "all" (after trimming and lower-casing) is always accepted and
      asks for everything the player has; a number is accepted between the minimum and the
      player's bet plus stack; anything else is refused with an amount of 0. */
  function BetRequest(str: string, currentBet: int, money: int, min: int): (r: (bool, int))
    ensures !r.0 ==> r.1 == 0
    ensures ToLower(Trim(str)) == "all" ==> r == (true, currentBet + money)
    ensures r.0 && ToLower(Trim(str)) != "all" ==> min <= r.1 <= currentBet + money
  {
    var normalized := ToLower(Trim(str));
    if normalized == "all" then (true, currentBet + money)
    else match TryParseInt(normalized)
      case Some(bet) => if bet <= currentBet + money && bet >= min then (true, bet) else (false, 0)
      case None => (false, 0)
  }

  /** A string of signs and digits is its own trimmed, lower-cased form. */
  lemma SignsAndDigits(s: string)
    requires s != [] && forall i :: 0 <= i < |s| ==> s[i] == '-' || IsDigit(s[i])
    ensures ToLower(Trim(s)) == s
  {
    assert !IsWhiteSpace(s[0]) && !IsWhiteSpace(s[|s| - 1]);
    TrimNothing(s);
  }

  /** The printed form of a number is its own trimmed, lower-cased form and is not "all". */
  lemma NumberNormalized(b: int)
    ensures ToLower(Trim(IntToString(b))) == IntToString(b) != "all"
  {
    var s := IntToString(b);
    var d := if b < 0 then NatToString(-b) else NatToString(b);
    assert s == (if b < 0 then "-" else "") + d;
    assert forall i :: 0 <= i < |s| ==> s[i] == '-' || IsDigit(s[i]);
    SignsAndDigits(s);
  }

  /** A bet written as a 32-bit number is accepted exactly when it lies between the minimum and
      the player's bet plus stack, and then it is the amount asked for. */
  lemma NumericBet(b: int, currentBet: int, money: int, min: int)
    requires MinInt32 <= b <= MaxInt32
    ensures BetRequest(IntToString(b), currentBet, money, min).0 <==> min <= b <= currentBet + money
    ensures BetRequest(IntToString(b), currentBet, money, min).0 ==>
      BetRequest(IntToString(b), currentBet, money, min).1 == b
  {
    NumberNormalized(b);
    ParseIntToString(b);
  }

  /** The chips a player moves from the stack to the pot to reach a total bet of `amount`:
      `Math.Min(amount - CurrentBet, Money)`. */
  function Match(amount: int, currentBet: int, money: int): (m: int)
    ensures m <= money && m <= amount - currentBet
    ensures m == money || m == amount - currentBet
  {
    if amount - currentBet <= money then amount - currentBet else money
  }

  // ---------------------------------------------------------------------------------------------
  // The computer player's betting round (RuleSet.AutoPlay, case Rule.Bet)

  datatype AiMove = AiCheck | AiFold | AiAllIn | AiBet(amount: int)

  /** What the computer player does in a betting round, given its stack, the minimum bet
      `Math.Max(CurrentMaxBet, ante)`, the CheckOnly flag, the draw `boldness` of rng.Next(100)
      and the draw `pick` of rng.Next(max - min). */
  function AiChoice(money: int, min: int, checkOnly: bool, boldness: nat, pick: nat): (r: AiMove)
    requires boldness < 100
    requires money > min ==> pick < money - min
    ensures money <= min ==> r == AiCheck
    ensures r == AiFold <==> money > min && boldness < 25
    ensures checkOnly ==> r == AiCheck || r == AiFold
    ensures r == AiAllIn <==> money > min && !checkOnly && boldness > 95
    ensures r.AiBet? ==> min <= r.amount < money && 70 <= boldness <= 95
  {
    if money <= min then AiCheck
    else if boldness < 25 then AiFold
    else if checkOnly then AiCheck
    else if boldness < 70 then AiCheck
    else if boldness > 95 then AiAllIn
    else
      var max := money;
      if min >= max then AiCheck else AiBet(pick + min)
  }

  /** The bet the computer player asks for is accepted by PlaceBet: it is printed and parsed
      back, and lies between the minimum and its stack. */
  lemma AiBetAccepted(money: int, min: int, checkOnly: bool, boldness: nat, pick: nat, currentBet: int)
    requires boldness < 100 && (money > min ==> pick < money - min)
    requires AiChoice(money, min, checkOnly, boldness, pick).AiBet? && currentBet >= 0
    requires MinInt32 <= AiChoice(money, min, checkOnly, boldness, pick).amount <= MaxInt32
    ensures var a := AiChoice(money, min, checkOnly, boldness, pick).amount;
      BetRequest(IntToString(a), currentBet, money, min) == (true, a)
  {
    NumericBet(AiChoice(money, min, checkOnly, boldness, pick).amount, currentBet, money, min);
  }
}
