/** A concrete two-seat showdown in which the best hand at the second seat is lost by the
    category loop of Card.Showdown as written, built from two general facts about small hands. */
module ShowdownExample {
  import opened Optional
  import opened Cards
  import opened Evaluator
  import opened Resolver

  lemma {:induction false} MembersBound(s: seq<Card>, g: Grouping, k: nat)
    ensures |Members(s, g, k)| <= |s|
  {
    if s != [] {
      MembersBound(s[..|s| - 1], g, k);
    }
  }

  /** Fewer than five cards make neither a flush nor a straight. */
  lemma ShortHand(l: seq<Card>)
    requires |l| < 5
    ensures !ContainsFlush(l).0 && StraightOf(l).None? && ContainsStraightFlush(l).None?
  {
    forall i | 0 <= i < |l| ensures SuitCount(l, l[i].suit) < 5 {
      MembersBound(l, BySuit, SuitOrd(l[i].suit));
    }
  }

  lemma SingleGroups(l: seq<Card>)
    requires |l| == 1
    ensures GroupBy(l, ByFace) == [l]
  {
    assert l[..0] == [];
    assert Keys(l, ByFace) == [Ord(l[0].face)];
    assert Members(l, ByFace, Ord(l[0].face)) == l;
  }

  lemma SingleGuards(l: seq<Card>)
    requires |l| == 1
    ensures var g := GroupBy(l, ByFace);
      && ContainsFourOfAKind(g).None? && ContainsThreeOfAKind(g).None? && ContainsPair(g).None?
  {
    SingleGroups(l);
  }

  /** A single card is a high-card hand made of that card. */
  lemma SingleCard(l: seq<Card>)
    requires |l| == 1
    ensures GetBestHand(l) == Best(HighCard, Some(l))
  {
    SingleGuards(l);
    ShortHand(l);
    assert [GetHighCard(l)] == l;
  }

  predicate PairThenKicker(h: seq<Card>) {
    |h| == 3 && h[0].face == h[1].face && h[2].face != h[0].face
  }

  lemma PairKeys(h: seq<Card>)
    requires PairThenKicker(h)
    ensures Keys(h, ByFace) == [Ord(h[0].face), Ord(h[2].face)]
  {
    assert h[..2][..1] == h[..1] && h[..1][..0] == [];
    assert Keys(h[..1], ByFace) == [Ord(h[0].face)];
    assert Keys(h[..2], ByFace) == [Ord(h[0].face)];
  }

  lemma PairMembers(h: seq<Card>)
    requires PairThenKicker(h)
    ensures Members(h, ByFace, Ord(h[0].face)) == h[..2]
    ensures Members(h, ByFace, Ord(h[2].face)) == [h[2]]
  {
    var a, b := Ord(h[0].face), Ord(h[2].face);
    assert h[..2][..1] == h[..1] && h[..1][..0] == [];
    assert Members(h[..1], ByFace, a) == [h[0]];
    assert Members(h[..2], ByFace, a) == [h[0], h[1]];
    assert Members(h[..1], ByFace, b) == [];
    assert Members(h[..2], ByFace, b) == [];
  }

  lemma PairGroups(h: seq<Card>)
    requires PairThenKicker(h)
    ensures GroupBy(h, ByFace) == [h[..2], [h[2]]]
  {
    PairKeys(h);
    PairMembers(h);
  }

  lemma PairNoSecondPair(h: seq<Card>)
    requires PairThenKicker(h)
    ensures ContainsPair(GroupBy(h, ByFace)) == Some(h[..2])
    ensures ContainsTwoPairs(GroupBy(h, ByFace)).None?
  {
    PairGroups(h);
    var g := GroupBy(h, ByFace);
    var pair := h[..2];
    assert FindIndex(g, Exactly(2)) == Some(0);
    assert g[1..] == [[h[2]]] && g[1..][1..] == [];
    assert h[2] !in pair && h[2] in [h[2]];
    assert Remaining(g[1..], pair) == [[h[2]]];
    assert forall c :: c in g[0] ==> c in pair;
    assert Remaining(g, pair) == [[h[2]]];
  }

  lemma PairGuards(h: seq<Card>)
    requires PairThenKicker(h)
    ensures var g := GroupBy(h, ByFace); ContainsFourOfAKind(g).None? && ContainsThreeOfAKind(g).None?
  {
    PairGroups(h);
  }

  /** Two cards of one face and a card of another face make one pair, the first two cards. */
  lemma PairHand(h: seq<Card>)
    requires PairThenKicker(h)
    ensures GetBestHand(h) == Best(OnePair, Some(h[..2]))
  {
    PairGuards(h);
    PairNoSecondPair(h);
    ShortHand(h);
  }

  lemma ExampleLocate(cs: seq<Contender>, best: Option<seq<Card>>)
    requires cs == [Contender([Card(Two, Clubs)], 0),
                    Contender([Card(Three, Clubs), Card(Three, Diamonds), Card(Four, Spades)], 1)]
    requires best == Some(cs[1].cards[..2])
    ensures Locate(cs, best) == Located(None)
  {
    var h := cs[1].cards;
    assert Card(Two, Clubs) in cs[0].cards && Card(Two, Clubs) !in best.value;
    assert Locate(cs, best) == Locate(cs[1..], best);
    assert cs[1..][0].cards == h && h[2] in h && h[2] !in best.value;
    assert Locate(cs[1..], best) == Locate(cs[1..][1..], best);
    assert cs[1..][1..] == [];
  }

  lemma LostPairAt(cs: seq<Contender>, bs: seq<Best>)
    requires cs == [Contender([Card(Two, Clubs)], 0),
                    Contender([Card(Three, Clubs), Card(Three, Diamonds), Card(Four, Spades)], 1)]
    requires |bs| == 2 && bs[0].theBest == HighCard && bs[1] == Best(OnePair, Some(cs[1].cards[..2]))
    ensures StrictlyBest(bs, 1)
    ensures SoleLeader(cs, bs, 1, false) == Returned(None)
  {
    ExampleLocate(cs, bs[1].cards);
    LocateFinds(cs, bs[1].cards);
    assert !LocateFailsAt(cs, bs, 1, false);
    SoleLeaderLost(cs, bs, 1);
  }

  /** Seat 0 holds the two of clubs, seat 1 a pair of threes and the four of spades. Seat 1 has
      the only pair, yet the category loop as written enters it with a null player, so the
      showdown as written returns null (ShowdownAsWritten), while Showdown returns seat 1. */
  lemma LostPairExample(cs: seq<Contender>)
    requires cs == [Contender([Card(Two, Clubs)], 0),
                    Contender([Card(Three, Clubs), Card(Three, Diamonds), Card(Four, Spades)], 1)]
    ensures StrictlyBest(BestHands(cs), 1)
    ensures SoleLeader(cs, BestHands(cs), 1, false) == Returned(None)
  {
    var bs := BestHands(cs);
    assert bs[0] == GetBestHand(cs[0].cards) && bs[1] == GetBestHand(cs[1].cards);
    SingleCard(cs[0].cards);
    PairHand(cs[1].cards);
    LostPairAt(cs, bs);
  }
}
