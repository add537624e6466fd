/** The hand evaluator of Card.cs: grouping a hand by face or suit, the detectors for each
    poker category, the face sort, the high card and the best hand of a list of cards. */
module Evaluator {
  import opened Optional
  import opened Cards

  // ---------------------------------------------------------------- sorting by face

  predicate SortedByFace(s: seq<Card>) {
    forall i, j :: 0 <= i < j < |s| ==> Ord(s[i].face) <= Ord(s[j].face)
  }

  /** Places `c` after every card of `t` whose face is not higher than its own. */
  function Insert(t: seq<Card>, c: Card): (r: seq<Card>)
    requires SortedByFace(t)
    ensures SortedByFace(r)
    ensures multiset(r) == multiset(t) + multiset{c}
    ensures |r| == |t| + 1
    ensures forall x :: x in r ==> x in t || x == c
  {
    if t == [] || Ord(t[|t| - 1].face) <= Ord(c.face) then t + [c]
    else
      var init := t[..|t| - 1];
      var last := t[|t| - 1];
      var front := Insert(init, c);
      assert t == init + [last];
      SortedAppend(front, last);
      front + [last]
  }

  lemma SortedAppend(s: seq<Card>, c: Card)
    requires SortedByFace(s) && forall x :: x in s ==> Ord(x.face) <= Ord(c.face)
    ensures SortedByFace(s + [c])
  {
  }

  /** List.Sort() with CompareTo: the cards ordered by face. Among equal faces the model keeps
      the input order. */
  function SortByFace(s: seq<Card>): (r: seq<Card>)
    ensures SortedByFace(r)
    ensures multiset(r) == multiset(s)
    ensures |r| == |s|
  {
    if s == [] then []
    else
      assert s == s[..|s| - 1] + [s[|s| - 1]];
      Insert(SortByFace(s[..|s| - 1]), s[|s| - 1])
  }

  lemma {:induction false} SortSorted(s: seq<Card>)
    requires SortedByFace(s)
    ensures SortByFace(s) == s
  {
    if s != [] {
      SortSorted(s[..|s| - 1]);
    }
  }

  // ---------------------------------------------------------------- grouping

  /** Enumerable.GroupBy by face or by suit. */
  datatype Grouping = ByFace | BySuit

  function Key(c: Card, g: Grouping): nat {
    if g == ByFace then Ord(c.face) else SuitOrd(c.suit)
  }

  /** The cards of `s` whose key is `k`, in their order in `s`. */
  function Members(s: seq<Card>, g: Grouping, k: nat): (r: seq<Card>)
    ensures forall c :: c in r ==> c in s && Key(c, g) == k
    ensures forall i :: 0 <= i < |s| && Key(s[i], g) == k ==> s[i] in r
  {
    if s == [] then []
    else Members(s[..|s| - 1], g, k) + (if Key(s[|s| - 1], g) == k then [s[|s| - 1]] else [])
  }

  /** The number of cards of `s` with face `f`. */
  function FaceCount(s: seq<Card>, f: Face): nat {
    |Members(s, ByFace, Ord(f))|
  }

  /** The number of cards of `s` of suit `u`. */
  function SuitCount(s: seq<Card>, u: Suit): nat {
    |Members(s, BySuit, SuitOrd(u))|
  }

  /** The keys of `s` in order of first occurrence, as GroupBy enumerates its groups. */
  function Keys(s: seq<Card>, g: Grouping): (r: seq<nat>)
    ensures Distinct(r)
    ensures forall i :: 0 <= i < |s| ==> Key(s[i], g) in r
  {
    if s == [] then []
    else
      var init := s[..|s| - 1];
      var r := Keys(init, g);
      var k := Key(s[|s| - 1], g);
      assert forall i :: 0 <= i < |init| ==> s[i] == init[i];
      if k in r then r else DistinctAppend(r, k); r + [k]
  }

  lemma DistinctAppend(r: seq<nat>, k: nat)
    requires Distinct(r) && k !in r
    ensures Distinct(r + [k])
  {
    var t := r + [k];
    forall i, j | 0 <= i < j < |t| ensures t[i] != t[j] {
      if j == |r| {
        assert t[i] == r[i];
      }
    }
  }

  /** Every key GroupBy enumerates has at least one card. */
  lemma {:induction false} KeysHaveMembers(s: seq<Card>, g: Grouping)
    ensures forall k :: k in Keys(s, g) ==> Members(s, g, k) != []
  {
    if s != [] {
      var init := s[..|s| - 1];
      KeysHaveMembers(init, g);
      forall k | k in Keys(s, g) ensures Members(s, g, k) != [] {
        if k in Keys(init, g) {
          assert |Members(s, g, k)| >= |Members(init, g, k)|;
        } else {
          assert s[|s| - 1] in Members(s, g, k);
        }
      }
    }
  }

  /** hand.GroupBy(key) turned into a list of lists: one non-empty group per key. */
  function GroupBy(s: seq<Card>, g: Grouping): (r: seq<seq<Card>>)
    ensures |r| == |Keys(s, g)|
    ensures forall i :: 0 <= i < |r| ==> r[i] == Members(s, g, Keys(s, g)[i]) && r[i] != []
  {
    var keys := Keys(s, g);
    KeysHaveMembers(s, g);
    seq(|keys|, i requires 0 <= i < |keys| => Members(s, g, keys[i]))
  }

  /** The condition a List.Find / List.Exists predicate puts on a group's Count. */
  datatype SizeTest = Exactly(n: nat) | AtLeast(n: nat) | MoreThan(n: nat)

  predicate Passes(t: SizeTest, size: nat) {
    match t
    case Exactly(n) => size == n
    case AtLeast(n) => size >= n
    case MoreThan(n) => size > n
  }

  /** List.FindIndex: the first group whose size passes the test. */
  function FindIndex(groups: seq<seq<Card>>, t: SizeTest): (r: Option<nat>)
    ensures r.Some? ==> r.value < |groups| && Passes(t, |groups[r.value]|)
    ensures r.Some? ==> forall j :: 0 <= j < r.value ==> !Passes(t, |groups[j]|)
    ensures r.None? <==> forall j :: 0 <= j < |groups| ==> !Passes(t, |groups[j]|)
  {
    if groups == [] then None
    else if Passes(t, |groups[0]|) then Some(0)
    else match FindIndex(groups[1..], t)
      case None => None
      case Some(k) => Some(k + 1)
  }

  /** List.Find: the first group whose size passes the test, or null. */
  function Find(groups: seq<seq<Card>>, t: SizeTest): (r: Option<seq<Card>>)
    ensures r.Some? ==> r.value in groups && Passes(t, |r.value|)
    ensures r.None? <==> forall j :: 0 <= j < |groups| ==> !Passes(t, |groups[j]|)
  {
    match FindIndex(groups, t)
    case None => None
    case Some(k) => Some(groups[k])
  }

  /** A group of the grouped hand passes a size test exactly when some card of the hand has
      that many cards sharing its key. */
  lemma FindInGroups(s: seq<Card>, g: Grouping, t: SizeTest)
    requires !Passes(t, 0)
    ensures Find(GroupBy(s, g), t).Some? <==> exists i :: 0 <= i < |s| && Passes(t, |Members(s, g, Key(s[i], g))|)
  {
    if Find(GroupBy(s, g), t).Some? {
      var i := FoundGroupCard(s, g, t);
    }
    if exists i :: 0 <= i < |s| && Passes(t, |Members(s, g, Key(s[i], g))|) {
      var i :| 0 <= i < |s| && Passes(t, |Members(s, g, Key(s[i], g))|);
      CardGroupFound(s, g, t, i);
    }
  }

  /** A group found by Find belongs to some card of the hand. */
  lemma FoundGroupCard(s: seq<Card>, g: Grouping, t: SizeTest) returns (i: nat)
    requires Find(GroupBy(s, g), t).Some?
    ensures i < |s| && Passes(t, |Members(s, g, Key(s[i], g))|)
  {
    var l := Find(GroupBy(s, g), t).value;
    var key := GroupKey(s, g, l);
    assert l[0] in Members(s, g, key);
    i :| 0 <= i < |s| && s[i] == l[0];
  }

  /** The group of a card whose key group passes makes Find succeed. */
  lemma CardGroupFound(s: seq<Card>, g: Grouping, t: SizeTest, i: nat)
    requires i < |s| && Passes(t, |Members(s, g, Key(s[i], g))|)
    ensures Find(GroupBy(s, g), t).Some?
  {
    var k := GroupIndex(s, g, Key(s[i], g));
    assert Passes(t, |GroupBy(s, g)[k]|);
  }

  // ---------------------------------------------------------------- detectors over face groups

  /** Card.ContainsFourOfAKind: the first face group of exactly four cards. */
  function ContainsFourOfAKind(groups: seq<seq<Card>>): (r: Option<seq<Card>>)
    ensures r.Some? ==> r.value in groups && |r.value| == 4
  {
    Find(groups, Exactly(4))
  }

  /** Card.ContainsThreeOfAKind: the first face group of exactly three cards. */
  function ContainsThreeOfAKind(groups: seq<seq<Card>>): (r: Option<seq<Card>>)
    ensures r.Some? ==> r.value in groups && |r.value| == 3
  {
    Find(groups, Exactly(3))
  }

  /** Card.ContainsPair: the first face group of exactly two cards. */
  function ContainsPair(groups: seq<seq<Card>>): (r: Option<seq<Card>>)
    ensures r.Some? ==> r.value in groups && |r.value| == 2
  {
    Find(groups, Exactly(2))
  }

  /** Card.ContainsFullHouse: the flag needs a three-group and a two-group; the list is the
      three-group whenever there is one, even when the flag is false. */
  function ContainsFullHouse(groups: seq<seq<Card>>): (r: (bool, Option<seq<Card>>))
    ensures r.0 <==> ContainsThreeOfAKind(groups).Some? && ContainsPair(groups).Some?
    ensures r.1 == ContainsThreeOfAKind(groups)
  {
    var three := ContainsThreeOfAKind(groups);
    var two := Find(groups, Exactly(2));
    (three.Some? && two.Some?, three)
  }

  /** The groups that hold at least one card outside `pair` (the FindAll of ContainsTwoPairs). */
  function Remaining(groups: seq<seq<Card>>, pair: seq<Card>): (r: seq<seq<Card>>)
    ensures forall l :: l in r <==> l in groups && exists c :: c in l && c !in pair
  {
    if groups == [] then []
    else
      var rest := Remaining(groups[1..], pair);
      assert forall l :: l in groups <==> l == groups[0] || l in groups[1..];
      if exists c :: c in groups[0] && c !in pair then [groups[0]] + rest else rest
  }

  /** Card.ContainsTwoPairs: the first pair, then a pair among the groups not contained in it. */
  function ContainsTwoPairs(groups: seq<seq<Card>>): (r: Option<(seq<Card>, seq<Card>)>)
    ensures r.Some? ==> ContainsPair(groups) == Some(r.value.0)
    ensures r.Some? ==> r.value.1 in groups && |r.value.1| == 2 && exists c :: c in r.value.1 && c !in r.value.0
  {
    match ContainsPair(groups)
    case None => None
    case Some(onePair) =>
      match ContainsPair(Remaining(groups, onePair))
      case None => None
      case Some(otherPair) => Some((onePair, otherPair))
  }

  /** The group of a key that occurs in the hand, and where it sits among the groups. */
  lemma GroupIndex(s: seq<Card>, g: Grouping, key: nat) returns (k: nat)
    requires Members(s, g, key) != []
    ensures k < |GroupBy(s, g)| && Keys(s, g)[k] == key && GroupBy(s, g)[k] == Members(s, g, key)
  {
    var c := Members(s, g, key)[0];
    assert c in Members(s, g, key);
    var i :| 0 <= i < |s| && s[i] == c;
    var keys := Keys(s, g);
    k :| 0 <= k < |keys| && keys[k] == Key(s[i], g);
  }

  /** Every group is the list of members of one key. */
  lemma GroupKey(s: seq<Card>, g: Grouping, l: seq<Card>) returns (key: nat)
    requires l in GroupBy(s, g)
    ensures l == Members(s, g, key) && l != []
    ensures forall c :: c in l ==> Key(c, g) == key
  {
    var groups := GroupBy(s, g);
    var k :| 0 <= k < |groups| && groups[k] == l;
    key := Keys(s, g)[k];
  }

  /** The two pairs found are groups of two different faces, each occurring exactly twice. */
  lemma TwoPairsFaces(s: seq<Card>)
    requires ContainsTwoPairs(GroupBy(s, ByFace)).Some?
    ensures var (p, q) := ContainsTwoPairs(GroupBy(s, ByFace)).value;
      |p| == 2 && |q| == 2 && p[0].face != q[0].face
      && FaceCount(s, p[0].face) == 2 && FaceCount(s, q[0].face) == 2
  {
    var (p, q) := ContainsTwoPairs(GroupBy(s, ByFace)).value;
    var a := GroupKey(s, ByFace, p);
    var b := GroupKey(s, ByFace, q);
    assert p[0] in p && q[0] in q;
    FaceAtOrd(p[0].face);
    FaceAtOrd(q[0].face);
  }

  /** Two different faces occurring exactly twice each are always found as two pairs. */
  lemma TwoPairsFound(s: seq<Card>, f1: Face, f2: Face)
    requires f1 != f2 && FaceCount(s, f1) == 2 && FaceCount(s, f2) == 2
    ensures ContainsTwoPairs(GroupBy(s, ByFace)).Some?
  {
    var groups := GroupBy(s, ByFace);
    var m1 := Members(s, ByFace, Ord(f1));
    var m2 := Members(s, ByFace, Ord(f2));
    var k1 := GroupIndex(s, ByFace, Ord(f1));
    var k2 := GroupIndex(s, ByFace, Ord(f2));
    assert Passes(Exactly(2), |groups[k1]|);
    var onePair := ContainsPair(groups).value;
    var a := GroupKey(s, ByFace, onePair);
    var other := if a == Ord(f1) then m2 else m1;
    var ko := if a == Ord(f1) then k2 else k1;
    assert other == groups[ko] && |other| == 2;
    assert other[0] in other;
    assert Key(other[0], ByFace) != a;
    assert other[0] !in onePair;
    SecondPair(groups, other);
  }

  lemma SecondPair(groups: seq<seq<Card>>, other: seq<Card>)
    requires ContainsPair(groups).Some? && other in groups && |other| == 2
    requires exists c :: c in other && c !in ContainsPair(groups).value
    ensures ContainsTwoPairs(groups).Some?
  {
    var rest := Remaining(groups, ContainsPair(groups).value);
    assert other in rest;
    var j :| 0 <= j < |rest| && rest[j] == other;
    assert Passes(Exactly(2), |rest[j]|);
  }

  // ---------------------------------------------------------------- flush, straight, straight flush

  /** Card.ContainsFlush: the flag says some suit has five cards or more; the list is the first
      suit group of more than five cards, so exactly five suited cards give (true, null). */
  function ContainsFlush(hand: seq<Card>): (r: (bool, Option<seq<Card>>))
    ensures r.0 <==> exists i :: 0 <= i < |hand| && SuitCount(hand, hand[i].suit) >= 5
    ensures r.1.Some? ==> |r.1.value| > 5 && forall c :: c in r.1.value ==> c in hand && c.suit == r.1.value[0].suit
    ensures r.1.None? <==> forall i :: 0 <= i < |hand| ==> SuitCount(hand, hand[i].suit) <= 5
  {
    var suited := GroupBy(hand, BySuit);
    var r := (FindIndex(suited, AtLeast(5)).Some?, Find(suited, MoreThan(5)));
    SuitGroupFound(hand, AtLeast(5));
    SuitGroupFound(hand, MoreThan(5));
    GroupsShareSuit(hand);
    r
  }

  /** Some suit group passes a size test exactly when some card's suit count passes it. */
  lemma SuitGroupFound(hand: seq<Card>, t: SizeTest)
    requires !Passes(t, 0)
    ensures Find(GroupBy(hand, BySuit), t).Some? <==> exists i :: 0 <= i < |hand| && Passes(t, SuitCount(hand, hand[i].suit))
  {
    FindInGroups(hand, BySuit, t);
    assert forall i :: 0 <= i < |hand| ==> SuitCount(hand, hand[i].suit) == |Members(hand, BySuit, Key(hand[i], BySuit))|;
  }

  /** Every card of a suit group has the group's suit. */
  lemma GroupsShareSuit(hand: seq<Card>)
    ensures forall l, c :: l in GroupBy(hand, BySuit) && c in l ==> c in hand && c.suit == l[0].suit
  {
    var suited := GroupBy(hand, BySuit);
    forall l: seq<Card>, c: Card | l in suited && c in l ensures c in hand && c.suit == l[0].suit {
      var key := GroupKey(hand, BySuit, l);
      assert l[0] in l;
      assert SuitAt(Key(c, BySuit)) == c.suit && SuitAt(Key(l[0], BySuit)) == l[0].suit;
    }
  }

  /** Whether position `j` of a face-sorted hand has a face one above the card before it. */
  predicate StepAt(s: seq<Card>, j: int)
    requires 1 <= j < |s|
  {
    Ord(s[j].face) == Ord(s[j - 1].face) + 1
  }

  /** The number of positions 1 .. k-1 that are steps. */
  function Steps(s: seq<Card>, k: nat): (n: nat)
    requires 1 <= k <= |s|
    ensures n <= k - 1
  {
    if k == 1 then 0 else Steps(s, k - 1) + (if StepAt(s, k - 1) then 1 else 0)
  }

  lemma SliceOfSorted(s: seq<Card>, a: nat, b: nat)
    requires a <= b <= |s| && SortedByFace(s)
    ensures SortedByFace(s[a..b]) && multiset(s[a..b]) <= multiset(s)
  {
    assert s == s[..a] + s[a..b] + s[b..];
  }

  /** The closed form of ContainsStraight's loop: its counter ends as one plus the number of
      steps in the sorted hand (a gap does not reset it), and a straight is reported when that
      count reaches 5, as the five cards that end `count` places before the end. */
  function StraightOf(hand: seq<Card>): (r: Option<seq<Card>>)
    ensures r.Some? ==> |hand| >= 5 && |r.value| == 5 && SortedByFace(r.value)
    ensures r.Some? ==> multiset(r.value) <= multiset(hand)
  {
    var sorted := SortByFace(hand);
    if |sorted| == 0 then None
    else
      var run := 1 + Steps(sorted, |sorted|);
      if run >= 5 then
        SliceOfSorted(sorted, |sorted| - run, |sorted| - run + 5);
        Some(sorted[|sorted| - run .. |sorted| - run + 5])
      else None
  }

  /** Where ContainsStraight's loop stops, its counters give StraightOf. */
  lemma StraightAtLoopExit(hand: seq<Card>, i: nat, start: nat)
    requires var o := SortByFace(hand);
      (|o| == 0 ==> i == 1 && start == 0) && (|o| > 0 ==> i + start == |o| && i == 1 + Steps(o, |o|))
    ensures i >= 5 ==> start + 5 <= |hand| && StraightOf(hand) == Some(SortByFace(hand)[start..start + 5])
    ensures i < 5 ==> StraightOf(hand).None?
  {
  }

  /** The while loop of Card.ContainsStraight over the face-sorted hand: `i + start` moves one
      place per turn; a step adds to `i`, anything else to `start`. */
  method ScanRun(ordered: seq<Card>) returns (i: nat, start: nat)
    ensures |ordered| == 0 ==> i == 1 && start == 0
    ensures |ordered| > 0 ==> i + start == |ordered| && i == 1 + Steps(ordered, |ordered|)
  {
    i := 1;
    start := 0;
    while i + start < |ordered|
      invariant 1 <= i
      invariant |ordered| == 0 ==> i == 1 && start == 0
      invariant |ordered| > 0 ==> i + start <= |ordered| && i == 1 + Steps(ordered, i + start)
      decreases |ordered| - (i + start)
    {
      if Ord(ordered[start + i].face) == Ord(ordered[start + i - 1].face) + 1 {
        i := i + 1;
      } else {
        start := start + 1;
      }
    }
  }

  /** Card.ContainsStraight: sorts a copy of the hand, scans it, and returns the five cards
      starting at `start` when the counter reached 5. */
  method ContainsStraight(hand: seq<Card>) returns (res: bool, straight: Option<seq<Card>>)
    ensures straight == StraightOf(hand)
    ensures res <==> straight.Some?
  {
    var ordered := SortByFace(hand);
    var i, start := ScanRun(ordered);
    StraightAtLoopExit(hand, i, start);
    if i >= 5 {
      res, straight := true, Some(ordered[start..start + 5]);
    } else {
      res, straight := false, None;
    }
  }

  /** Card.ContainsStraightFlush: a straight whose cards all lie in the flush list. */
  function ContainsStraightFlush(hand: seq<Card>): (r: Option<seq<Card>>)
    ensures r.Some? ==> StraightOf(hand) == r && ContainsFlush(hand).1.Some?
    ensures r.Some? ==> forall c :: c in r.value ==> c.suit == r.value[0].suit
  {
    var straight := StraightOf(hand);
    var flush := ContainsFlush(hand).1;
    if straight.Some? && flush.Some? && forall c :: c in straight.value ==> c in flush.value then
      var u := flush.value[0].suit;
      assert forall c :: c in straight.value ==> c.suit == u;
      assert straight.value[0] in straight.value;
      straight
    else None
  }

  /** Exactly five cards of a suit never make a straight flush: the flush list is null then. */
  lemma FiveSuitedIsNoStraightFlush(hand: seq<Card>)
    requires forall i :: 0 <= i < |hand| ==> SuitCount(hand, hand[i].suit) <= 5
    ensures ContainsStraightFlush(hand).None?
  {
  }

  /** A hand whose neighbouring faces never decrease is sorted. */
  lemma {:induction false} SortedByNeighbours(s: seq<Card>)
    requires forall i :: 1 <= i < |s| ==> Ord(s[i - 1].face) <= Ord(s[i].face)
    ensures SortedByFace(s)
  {
    if |s| > 1 {
      var init := s[..|s| - 1];
      SortedByNeighbours(init);
      assert forall i :: 0 <= i < |init| ==> Ord(s[i].face) <= Ord(s[|s| - 2].face);
    }
  }

  /** On a hand that is already sorted, StraightOf reads the steps of the hand itself. */
  lemma StraightOfSorted(s: seq<Card>)
    requires SortedByFace(s) && s != []
    ensures 1 + Steps(s, |s|) < 5 ==> StraightOf(s).None?
    ensures 1 + Steps(s, |s|) >= 5 ==>
      StraightOf(s) == Some(s[|s| - 1 - Steps(s, |s|) .. |s| + 4 - Steps(s, |s|)])
  {
    SortSorted(s);
  }

  /** Six sorted cards with four steps are reported without their first card. */
  lemma StraightOfSixSorted(s: seq<Card>)
    requires SortedByFace(s) && |s| == 6 && Steps(s, |s|) == 4
    ensures StraightOf(s) == Some(s[1..])
  {
    StraightOfSorted(s);
    assert s[1..6] == s[1..];
  }

  /** The sorted faces 2, 3, 5, 6, 7, 8 are reported as the straight 3, 5, 6, 7, 8: the gap
      between 3 and 5 does not reset the count. */
  lemma StraightAcrossGap(s: seq<Card>, u: Suit)
    requires s == [Card(Two, u), Card(Three, u), Card(Five, u), Card(Six, u), Card(Seven, u), Card(Eight, u)]
    ensures StraightOf(s) == Some(s[1..])
  {
    GapHandSteps(s, u);
    StraightOfSixSorted(s);
  }

  lemma GapHandSteps(s: seq<Card>, u: Suit)
    requires s == [Card(Two, u), Card(Three, u), Card(Five, u), Card(Six, u), Card(Seven, u), Card(Eight, u)]
    ensures SortedByFace(s) && |s| == 6 && Steps(s, |s|) == 4
  {
    SortedByNeighbours(s);
    assert Steps(s, 2) == 1;
    assert Steps(s, 3) == 1;
    assert Steps(s, 4) == 2;
    assert Steps(s, 5) == 3;
  }

  /** Ace has no successor: Ace, Two, Three, Four, Five is not a straight. */
  lemma NoWheelStraight(s: seq<Card>, u: Suit)
    requires s == [Card(Two, u), Card(Three, u), Card(Four, u), Card(Five, u), Card(Ace, u)]
    ensures StraightOf(s).None?
  {
    SortedByNeighbours(s);
    assert Steps(s, 2) == 1;
    assert Steps(s, 3) == 2;
    assert Steps(s, 4) == 3;
    assert Steps(s, 5) == 3;
    StraightOfSorted(s);
  }

  // ---------------------------------------------------------------- high card and best hand

  /** Card.GetHighCard: the card of the highest face, the last such card when several share it
      (HighCardIsLastSorted shows this is the last card of the face-sorted copy). */
  function GetHighCard(hand: seq<Card>): (r: Card)
    requires hand != []
    ensures r in hand
    ensures forall c :: c in hand ==> Ord(c.face) <= Ord(r.face)
  {
    if |hand| == 1 then hand[0]
    else
      var init := hand[..|hand| - 1];
      var m := GetHighCard(init);
      assert forall c :: c in hand ==> c in init || c == hand[|hand| - 1];
      if Ord(m.face) <= Ord(hand[|hand| - 1].face) then hand[|hand| - 1] else m
  }

  /** GetHighCard copies the hand, sorts the copy by face and takes its last card. */
  lemma {:induction false} HighCardIsLastSorted(hand: seq<Card>)
    requires hand != []
    ensures GetHighCard(hand) == SortByFace(hand)[|hand| - 1]
  {
    if |hand| > 1 {
      var init := hand[..|hand| - 1];
      var c := hand[|hand| - 1];
      HighCardIsLastSorted(init);
      var t := SortByFace(init);
      assert SortByFace(hand) == Insert(t, c);
      if Ord(t[|t| - 1].face) > Ord(c.face) {
        var front := Insert(t[..|t| - 1], c);
        assert Insert(t, c) == front + [t[|t| - 1]];
      }
    }
  }

  /** The result of Card.GetBestHand: the category and the cards that make it (null as None). */
  datatype Best = Best(theBest: Hand, cards: Option<seq<Card>>)

  /** Whether the detector for category `h` succeeds on `hand`, as GetBestHand tests it. */
  predicate Matches(hand: seq<Card>, h: Hand) {
    var groups := GroupBy(hand, ByFace);
    match h
    case StraightFlush => ContainsStraightFlush(hand).Some?
    case FourOfAKind => ContainsFourOfAKind(groups).Some?
    case FullHouse => ContainsFullHouse(groups).0
    case Flush => ContainsFlush(hand).0
    case Straight => StraightOf(hand).Some?
    case ThreeOfAKind => ContainsThreeOfAKind(groups).Some?
    case TwoPairs => ContainsTwoPairs(groups).Some?
    case OnePair => ContainsPair(groups).Some?
    case HighCard => true
  }

  /** Card.GetBestHand: tries the categories from StraightFlush down to HighCard. */
  function GetBestHand(hand: seq<Card>): (r: Best)
    ensures Matches(hand, r.theBest)
    ensures hand == [] ==> r == Best(HighCard, None)
    ensures r.theBest == TwoPairs ==> r.cards.Some? && |r.cards.value| == 4
  {
    var groups := GroupBy(hand, ByFace);
    if ContainsStraightFlush(hand).Some? then
      Best(StraightFlush, ContainsStraightFlush(hand))
    else if ContainsFourOfAKind(groups).Some? then Best(FourOfAKind, ContainsFourOfAKind(groups))
    else if ContainsFullHouse(groups).0 then Best(FullHouse, ContainsFullHouse(groups).1)
    else if ContainsFlush(hand).0 then Best(Flush, ContainsFlush(hand).1)
    else if StraightOf(hand).Some? then
      Best(Straight, StraightOf(hand))
    else if ContainsThreeOfAKind(groups).Some? then Best(ThreeOfAKind, ContainsThreeOfAKind(groups))
    else if ContainsTwoPairs(groups).Some? then
      var (p, q) := ContainsTwoPairs(groups).value;
      Best(TwoPairs, Some(p + q))
    else if ContainsPair(groups).Some? then Best(OnePair, ContainsPair(groups))
    else if |hand| > 0 then Best(HighCard, Some([GetHighCard(hand)]))
    else Best(HighCard, None)
  }

  lemma GroupsInHand(s: seq<Card>, g: Grouping)
    ensures forall l, c :: l in GroupBy(s, g) && c in l ==> c in s
  {
  }

  lemma SubMultisetMembers(a: seq<Card>, b: seq<Card>)
    requires multiset(a) <= multiset(b)
    ensures forall c :: c in a ==> c in b
  {
    assert forall c :: c in a ==> c in multiset(a);
  }

  /** The cards of `l`, when there are any, all come from `hand`. */
  predicate Within(l: Option<seq<Card>>, hand: seq<Card>) {
    l.Some? ==> forall c :: c in l.value ==> c in hand
  }

  /** Each detector GetBestHand consults reports only cards of the hand. */
  lemma DetectorsWithin(hand: seq<Card>)
    ensures var g := GroupBy(hand, ByFace);
      && Within(ContainsStraightFlush(hand), hand) && Within(StraightOf(hand), hand)
      && Within(ContainsFourOfAKind(g), hand) && Within(ContainsThreeOfAKind(g), hand)
      && Within(ContainsPair(g), hand) && Within(ContainsFlush(hand).1, hand)
      && (ContainsTwoPairs(g).Some? ==> Within(Some(ContainsTwoPairs(g).value.0 + ContainsTwoPairs(g).value.1), hand))
  {
    var g := GroupBy(hand, ByFace);
    GroupsInHand(hand, ByFace);
    if StraightOf(hand).Some? {
      SubMultisetMembers(StraightOf(hand).value, hand);
    }
    if ContainsTwoPairs(g).Some? {
      var (p, q) := ContainsTwoPairs(g).value;
      assert p in g && q in g;
    }
  }

  /** Every card GetBestHand reports comes from the hand. */
  lemma BestCardsInHand(hand: seq<Card>)
    ensures Within(GetBestHand(hand).cards, hand)
  {
    var g := GroupBy(hand, ByFace);
    var r := GetBestHand(hand);
    DetectorsWithin(hand);
    if ContainsStraightFlush(hand).Some? {
    } else if ContainsFourOfAKind(g).Some? {
    } else if ContainsFullHouse(g).0 {
    } else if ContainsFlush(hand).0 {
    } else if StraightOf(hand).Some? {
    } else if ContainsThreeOfAKind(g).Some? {
    } else if ContainsTwoPairs(g).Some? {
    } else if ContainsPair(g).Some? {
    } else if hand != [] {
      assert r.cards == Some([GetHighCard(hand)]);
    }
  }

  /** Every category present in the hand ranks no higher than the one GetBestHand reports. */
  lemma BestHandIsHighest(hand: seq<Card>, h: Hand)
    requires Matches(hand, h)
    ensures Rank(h) <= Rank(GetBestHand(hand).theBest)
  {
    var g := GroupBy(hand, ByFace);
    var best := GetBestHand(hand).theBest;
    if ContainsStraightFlush(hand).Some? {
      assert best == StraightFlush;
    } else if ContainsFourOfAKind(g).Some? {
      assert best == FourOfAKind;
    } else if ContainsFullHouse(g).0 {
      assert best == FullHouse;
    } else if ContainsFlush(hand).0 {
      assert best == Flush;
    } else if StraightOf(hand).Some? {
      assert best == Straight;
    } else if ContainsThreeOfAKind(g).Some? {
      assert best == ThreeOfAKind;
    } else if ContainsTwoPairs(g).Some? {
      assert best == TwoPairs;
    } else if ContainsPair(g).Some? {
      assert best == OnePair;
    } else {
      assert best == HighCard;
    }
  }

  /** A best hand of FourOfAKind means some face occurs exactly four times; ThreeOfAKind and
      OnePair likewise for three and two. */
  lemma BestHandCounts(hand: seq<Card>)
    ensures GetBestHand(hand).theBest == FourOfAKind ==> exists i :: 0 <= i < |hand| && FaceCount(hand, hand[i].face) == 4
    ensures GetBestHand(hand).theBest == ThreeOfAKind ==> exists i :: 0 <= i < |hand| && FaceCount(hand, hand[i].face) == 3
    ensures GetBestHand(hand).theBest == OnePair ==> exists i :: 0 <= i < |hand| && FaceCount(hand, hand[i].face) == 2
  {
    var g := GroupBy(hand, ByFace);
    var best := GetBestHand(hand).theBest;
    if best == FourOfAKind {
      assert ContainsFourOfAKind(g).Some?;
      FaceGroupCount(hand, Exactly(4));
    } else if best == ThreeOfAKind {
      assert ContainsThreeOfAKind(g).Some?;
      FaceGroupCount(hand, Exactly(3));
    } else if best == OnePair {
      assert ContainsPair(g).Some?;
      FaceGroupCount(hand, Exactly(2));
    }
  }

  /** A best hand of FullHouse means one face occurs exactly three times and one exactly twice. */
  lemma FullHouseCounts(hand: seq<Card>)
    requires GetBestHand(hand).theBest == FullHouse
    ensures exists i :: 0 <= i < |hand| && FaceCount(hand, hand[i].face) == 3
    ensures exists i :: 0 <= i < |hand| && FaceCount(hand, hand[i].face) == 2
  {
    var g := GroupBy(hand, ByFace);
    assert ContainsThreeOfAKind(g).Some? && ContainsPair(g).Some?;
    FaceGroupCount(hand, Exactly(3));
    FaceGroupCount(hand, Exactly(2));
  }

  /** A face group of exactly `n` cards means a face that occurs exactly `n` times. */
  lemma FaceGroupCount(hand: seq<Card>, t: SizeTest)
    requires t.Exactly? && t.n > 0 && Find(GroupBy(hand, ByFace), t).Some?
    ensures exists i :: 0 <= i < |hand| && FaceCount(hand, hand[i].face) == t.n
  {
    var i := FoundGroupCard(hand, ByFace, t);
    assert FaceCount(hand, hand[i].face) == t.n;
  }
}
