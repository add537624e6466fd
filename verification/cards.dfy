/** Playing cards: faces, suits, the card value, the poker hand categories, the kinds of round,
    card equality and ordering, the one-letter parsers, the textual form and the 52-card deck. */
module Cards {
  import opened Optional
  import opened Text

  /** Faces in ascending order; `Ord` is the enum value the C# code does arithmetic on. */
  datatype Face = Two | Three | Four | Five | Six | Seven | Eight | Nine | Ten | Jack | Queen | King | Ace

  datatype Suit = Clubs | Diamonds | Hearts | Spades

  /** A card is its face and suit; two cards with the same face and suit are the same card. */
  datatype Card = Card(face: Face, suit: Suit)

  /** A card as held in a player's hand, with the per-instance flags: dealt face down
      (visible to its owner only) and marked for discarding. */
  datatype HeldCard = HeldCard(card: Card, down: bool, discard: bool)

  /** The kinds of round a game variant is made of. */
  datatype Rule = DealCardDown | DealCardUp | DealCardCommon | MayDrawDown | MayDrawUp | Ante | Bet | Showdown

  /** Hand categories, weakest first. */
  datatype Hand = HighCard | OnePair | TwoPairs | ThreeOfAKind | Straight | Flush | FullHouse | FourOfAKind | StraightFlush

  /** What `object o` can be in Card.Equals and Card.CompareTo. */
  datatype Operand = Null | NotACard | CardValue(card: Card)

  function Ord(f: Face): (n: nat)
    ensures n < 13
  {
    match f
    case Two => 0 case Three => 1 case Four => 2 case Five => 3 case Six => 4
    case Seven => 5 case Eight => 6 case Nine => 7 case Ten => 8 case Jack => 9
    case Queen => 10 case King => 11 case Ace => 12
  }

  function FaceAt(n: nat): (f: Face)
    requires n < 13
    ensures Ord(f) == n
  {
    [Two, Three, Four, Five, Six, Seven, Eight, Nine, Ten, Jack, Queen, King, Ace][n]
  }

  lemma FaceAtOrd(f: Face)
    ensures FaceAt(Ord(f)) == f
  {
  }

  function SuitOrd(s: Suit): (n: nat)
    ensures n < 4
  {
    match s
    case Clubs => 0 case Diamonds => 1 case Hearts => 2 case Spades => 3
  }

  function SuitAt(n: nat): (s: Suit)
    requires n < 4
    ensures SuitOrd(s) == n
  {
    [Clubs, Diamonds, Hearts, Spades][n]
  }

  function Rank(h: Hand): (n: nat)
    ensures n < 9
  {
    match h
    case HighCard => 0 case OnePair => 1 case TwoPairs => 2 case ThreeOfAKind => 3
    case Straight => 4 case Flush => 5 case FullHouse => 6 case FourOfAKind => 7
    case StraightFlush => 8
  }

  /** Card.Equals: true exactly when `o` is a card with the same face and suit. */
  function Equals(c: Card, o: Operand): (r: bool)
    ensures r <==> o == CardValue(c)
  {
    match o
    case Null => false
    case NotACard => false
    case CardValue(d) => d.suit == c.suit && d.face == c.face
  }

  /** Card.CompareTo: the difference of the faces; suits are ignored, and null or a
      non-card compares as smaller. */
  function CompareTo(c: Card, o: Operand): (r: int)
    ensures !o.CardValue? ==> r == 1
    ensures o.CardValue? ==> (r < 0 <==> Ord(c.face) < Ord(o.card.face))
    ensures o.CardValue? ==> (r == 0 <==> c.face == o.card.face)
    ensures o.CardValue? ==> (r > 0 <==> Ord(o.card.face) < Ord(c.face))
  {
    match o
    case Null => 1
    case NotACard => 1
    case CardValue(d) => Ord(c.face) - Ord(d.face)
  }

  /** Comparing two cards in either order gives opposite results. */
  lemma CompareToAntisymmetric(a: Card, b: Card)
    ensures CompareTo(a, CardValue(b)) == -CompareTo(b, CardValue(a))
  {
  }

  /** A comparison result of 0 does not make two cards equal. */
  lemma CompareZeroIsNotEquality()
    ensures CompareTo(Card(Ace, Hearts), CardValue(Card(Ace, Spades))) == 0
    ensures !Equals(Card(Ace, Hearts), CardValue(Card(Ace, Spades)))
  {
  }

  /** The letter used for a face in commands and in ToString. */
  function FaceLetter(f: Face): char {
    match f
    case Two => '2' case Three => '3' case Four => '4' case Five => '5' case Six => '6'
    case Seven => '7' case Eight => '8' case Nine => '9' case Ten => 't' case Jack => 'j'
    case Queen => 'q' case King => 'k' case Ace => 'a'
  }

  function SuitLetter(s: Suit): char {
    match s
    case Clubs => 'c' case Diamonds => 'd' case Hearts => 'h' case Spades => 's'
  }

  function FaceOfLetter(c: char): Option<Face> {
    match c
    case '2' => Some(Two) case '3' => Some(Three) case '4' => Some(Four) case '5' => Some(Five)
    case '6' => Some(Six) case '7' => Some(Seven) case '8' => Some(Eight) case '9' => Some(Nine)
    case 't' => Some(Ten) case 'j' => Some(Jack) case 'q' => Some(Queen) case 'k' => Some(King)
    case 'a' => Some(Ace)
    case _ => None
  }

  function SuitOfLetter(c: char): Option<Suit> {
    match c
    case 'c' => Some(Clubs) case 'd' => Some(Diamonds) case 'h' => Some(Hearts) case 's' => Some(Spades)
    case _ => None
  }

  /** Card.ParseFace: after trimming and lower-casing, exactly one of 2-9 t j q k a. */
  function ParseFace(str: string): (r: Option<Face>)
    ensures forall f :: r == Some(f) <==> ToLower(Trim(str)) == [FaceLetter(f)]
  {
    var t := ToLower(Trim(str));
    if |t| == 1 then FaceOfLetter(t[0]) else None
  }

  /** Card.ParseSuit: after trimming and lower-casing, exactly one of c d h s. */
  function ParseSuit(str: string): (r: Option<Suit>)
    ensures forall s :: r == Some(s) <==> ToLower(Trim(str)) == [SuitLetter(s)]
  {
    var t := ToLower(Trim(str));
    if |t| == 1 then SuitOfLetter(t[0]) else None
  }

  /** The Kelvin sign lower-cases to 'k', so on its own it reads as a king. */
  lemma KelvinSignIsKing()
    ensures ParseFace(['\U{212A}']) == Some(King)
  {
    var c := '\U{212A}';
    ParseFaceOne(c);
    assert LowerChar(c) == 'k';
    assert FaceOfLetter('k') == Some(King);
  }

  /** Every face letter parses back to its face, in lower or upper case. */
  lemma ParseFaceLetter(f: Face)
    ensures ParseFace([FaceLetter(f)]) == Some(f)
    ensures ParseFace([UpperChar(FaceLetter(f))]) == Some(f)
  {
    var c := FaceLetter(f);
    FaceLetterBack(f);
    ParseFaceOne(c);
    ParseFaceOne(UpperChar(c));
  }

  /** Every suit letter parses back to its suit, in lower or upper case. */
  lemma ParseSuitLetter(s: Suit)
    ensures ParseSuit([SuitLetter(s)]) == Some(s)
    ensures ParseSuit([UpperChar(SuitLetter(s))]) == Some(s)
  {
    var c := SuitLetter(s);
    SuitLetterBack(s);
    ParseSuitOne(c);
    ParseSuitOne(UpperChar(c));
  }

  lemma FaceLetterBack(f: Face)
    ensures FaceOfLetter(FaceLetter(f)) == Some(f)
    ensures LowerChar(FaceLetter(f)) == FaceLetter(f) == LowerChar(UpperChar(FaceLetter(f)))
    ensures !IsWhiteSpace(FaceLetter(f)) && !IsWhiteSpace(UpperChar(FaceLetter(f)))
  {
    match f
    case Two => case Three => case Four => case Five => case Six => case Seven => case Eight =>
    case Nine => case Ten => case Jack => case Queen => case King => case Ace =>
  }

  lemma SuitLetterBack(s: Suit)
    ensures SuitOfLetter(SuitLetter(s)) == Some(s)
    ensures LowerChar(SuitLetter(s)) == SuitLetter(s) == LowerChar(UpperChar(SuitLetter(s)))
    ensures !IsWhiteSpace(SuitLetter(s)) && !IsWhiteSpace(UpperChar(SuitLetter(s)))
  {
    match s
    case Clubs => case Diamonds => case Hearts => case Spades =>
  }

  lemma ParseFaceOne(c: char)
    requires !IsWhiteSpace(c)
    ensures ParseFace([c]) == FaceOfLetter(LowerChar(c))
  {
    TrimLowerOne(c);
  }

  lemma ParseSuitOne(c: char)
    requires !IsWhiteSpace(c)
    ensures ParseSuit([c]) == SuitOfLetter(LowerChar(c))
  {
    TrimLowerOne(c);
  }

  function FaceWord(f: Face): string {
    match f
    case Two => "Two" case Three => "Three" case Four => "Four" case Five => "Five"
    case Six => "Six" case Seven => "Seven" case Eight => "Eight" case Nine => "Nine"
    case Ten => "Ten" case Jack => "Jack" case Queen => "Queen" case King => "King"
    case Ace => "Ace"
  }

  function SuitWord(s: Suit): string {
    match s
    case Clubs => "Clubs" case Diamonds => "Diamonds" case Hearts => "Hearts" case Spades => "Spades"
  }

  /** Card.ToString: for instance "Ten (t) of Hearts (h)". */
  function ToString(c: Card): string {
    FaceWord(c.face) + " (" + [FaceLetter(c.face)] + ") of " + SuitWord(c.suit) + " (" + [SuitLetter(c.suit)] + ")"
  }

  /** The two letters the computer player extracts from ToString when it discards a card:
      the first character after the first and after the second '('. */
  function LettersFromString(str: string): (r: Option<string>)
  {
    var pieces := Split(str, '(');
    if |pieces| >= 3 && |pieces[1]| >= 1 && |pieces[2]| >= 1 then Some([pieces[1][0], pieces[2][0]]) else None
  }

  /** In any string of the shape ToString produces, the letters found after the two '(' are
      the two letters written there. */
  lemma {:induction false} LettersOfShape(w1: string, fl: char, w2: string, sl: char)
    requires '(' !in w1 && '(' !in w2 && fl != '(' && sl != '('
    ensures LettersFromString(w1 + " (" + [fl] + ") of " + w2 + " (" + [sl] + ")") == Some([fl, sl])
  {
    var x := w1 + " ";
    var y1 := [fl] + ") of " + w2 + " ";
    var y2 := [sl] + ")";
    assert '(' !in x && '(' !in y1;
    assert w1 + " (" + [fl] + ") of " + w2 + " (" + [sl] + ")" == x + ['('] + (y1 + ['('] + y2);
    SplitAfter(x, '(', y1 + ['('] + y2);
    SplitAfter(y1, '(', y2);
    assert IndexOf(y2, '(') == None;
  }

  /** The letters found after the two '(' of ToString are the card's face and suit letters,
      and they parse back to the card's face and suit. */
  lemma ToStringLetters(c: Card)
    ensures LettersFromString(ToString(c)) == Some([FaceLetter(c.face), SuitLetter(c.suit)])
    ensures ParseFace([FaceLetter(c.face)]) == Some(c.face) && ParseSuit([SuitLetter(c.suit)]) == Some(c.suit)
  {
    LettersOfShape(FaceWord(c.face), FaceLetter(c.face), SuitWord(c.suit), SuitLetter(c.suit));
    ParseFaceLetter(c.face);
    ParseSuitLetter(c.suit);
  }

  /** Enumerable.ElementAtOrDefault on a string: the character at `i`, or '\0'. */
  function CharAtOrDefault(s: string, i: nat): char {
    if i < |s| then s[i] else '\0'
  }

  /** Card.ParseTwoLettersToString: the ToString of the card named by a face letter followed
      by a suit letter, or "" when the first two characters do not name a card. */
  function ParseTwoLettersToString(twoLetters: string): (r: string)
    ensures r != "" <==> ParseFace([CharAtOrDefault(twoLetters, 0)]).Some?
                         && ParseSuit([CharAtOrDefault(twoLetters, 1)]).Some?
    ensures r != "" ==> |twoLetters| >= 2
    ensures r != "" ==> r == ToString(Card(ParseFace([twoLetters[0]]).value, ParseSuit([twoLetters[1]]).value))
  {
    var maybeF := ParseFace([CharAtOrDefault(twoLetters, 0)]);
    var maybeS := ParseSuit([CharAtOrDefault(twoLetters, 1)]);
    if maybeF.Some? && maybeS.Some? then ToString(Card(maybeF.value, maybeS.value)) else ""
  }

  /** No two positions of `s` hold the same value. */
  predicate Distinct<T(==)>(s: seq<T>) {
    forall i, j :: 0 <= i < j < |s| ==> s[i] != s[j]
  }

  lemma DeckIndex(i: nat)
    requires i < 52
    ensures i == 13 * (i / 13) + i % 13 && i / 13 < 4
  {
  }

  lemma DeckPosition(c: Card)
    ensures var k := SuitOrd(c.suit) * 13 + Ord(c.face); k < 52 && k % 13 == Ord(c.face) && k / 13 == SuitOrd(c.suit)
  {
  }

  /** Card.Deck: the 52 cards, clubs then diamonds, hearts and spades, each from Two to Ace. */
  function Deck(): (d: seq<Card>)
    ensures |d| == 52
    ensures forall i :: 0 <= i < 52 ==> Ord(d[i].face) == i % 13 && SuitOrd(d[i].suit) == i / 13
    ensures forall c :: c in d
    ensures Distinct(d)
  {
    var d := seq(52, i requires 0 <= i < 52 => (DeckIndex(i); Card(FaceAt(i % 13), SuitAt(i / 13))));
    assert forall c: Card :: c in d by {
      forall c: Card ensures c in d {
        DeckPosition(c);
        var k := SuitOrd(c.suit) * 13 + Ord(c.face);
        FaceAtOrd(c.face);
        assert d[k] == c;
      }
    }
    assert Distinct(d) by {
      forall i, j | 0 <= i < j < 52 ensures d[i] != d[j] {
        DeckIndex(i);
        DeckIndex(j);
      }
    }
    d
  }

  lemma {:induction false} DistinctCount<T>(s: seq<T>, x: T)
    requires Distinct(s)
    ensures multiset(s)[x] == if x in s then 1 else 0
  {
    if s != [] {
      var t := s[..|s| - 1];
      assert s == t + [s[|s| - 1]];
      DistinctCount(t, x);
      if x == s[|s| - 1] {
        assert x !in t;
      }
    }
  }

  /** Each of the 52 cards occurs exactly once in the deck. */
  lemma DeckHasEachCardOnce(c: Card)
    ensures multiset(Deck())[c] == 1
  {
    DistinctCount(Deck(), c);
  }
}
