/** RuleSet.cs, the setup calls the controller makes while a game is chosen and configured:
    SetGame, SetNumberOfPlayers, SetPlayerTypes, SetPlayerNames, SetAnte and SetAnteDoubles.
    Each one answers whether the input was accepted. */
module Setup {
  import opened Optional
  import opened Text
  import opened Cards
  import opened Players
  import opened Table
  import opened Steps

  /** The settings LoadGame reads from a game's description: the bounds on the number of
      players, the starting money, the ante, whether it doubles, and the rounds of a deal. */
  datatype GameConfig = GameConfig(minPlayers: int, maxPlayers: int, baseMoney: int, ante: int,
                                   anteDoubles: bool, rounds: seq<Rule>)

  /** The state after a setup call, its boolean answer, and whether it threw on the way. */
  datatype Reply = Reply(t: TableState, ok: bool, threw: bool)

  // ---------------------------------------------------------------------------------------------
  // SetGame

  /** SetGame(input): the round list is emptied, then the game named by the trimmed, lower-cased
      input is loaded if it is one of the games read at construction. */
  function SetGameOf(t: TableState, games: map<string, GameConfig>, input: string): Reply {
    var name := ToLower(Trim(input));
    if name in games then
      var g := games[name];
      Reply(t.(rounds := g.rounds, minPlayers := g.minPlayers, maxPlayers := g.maxPlayers,
               baseMoney := g.baseMoney, ante := g.ante, anteDoubles := g.anteDoubles,
               gameName := name), true, false)
    else Reply(t.(rounds := []), false, false)
  }

  /** A known game is loaded whole (its rounds replace the old ones) and its name recorded; an
      unknown name only empties the round list. */
  lemma SetGameLoads(t: TableState, games: map<string, GameConfig>, input: string)
    ensures var r := SetGameOf(t, games, input); var name := ToLower(Trim(input));
      && !r.threw
      && (r.ok <==> name in games)
      && (r.ok ==> Loaded(r.t, games[name], name))
      && (!r.ok ==> r.t == t.(rounds := []))
  {
  }

  /** The settings of a game and its name are those of the table. */
  predicate Loaded(t: TableState, g: GameConfig, name: string) {
    && t.gameName == name && t.rounds == g.rounds && t.baseMoney == g.baseMoney && t.ante == g.ante
    && t.minPlayers == g.minPlayers && t.maxPlayers == g.maxPlayers && t.anteDoubles == g.anteDoubles
  }

  /** Surrounding spaces and upper-case letters in a game's name make no difference, and the
      name the game is recorded under selects it again. */
  lemma SetGameNormalizes(t: TableState, games: map<string, GameConfig>, input: string)
    ensures SetGameOf(t, games, ToLower(Trim(input))) == SetGameOf(t, games, input)
    ensures var r := SetGameOf(t, games, input);
      r.ok ==> SetGameOf(r.t, games, r.t.gameName) == r
  {
    NormalizeTwice(input);
  }

  // ---------------------------------------------------------------------------------------------
  // SetNumberOfPlayers

  /** SetNumberOfPlayers(input): the parsed number, or 0 when the text is not a number, is
      accepted when it lies within the game's bounds. */
  function SetNumberOfPlayersOf(t: TableState, input: string): Reply {
    var n := ParsedOrZero(input);
    if t.minPlayers <= n <= t.maxPlayers then Reply(t.(numberOfPlayers := n), true, false)
    else Reply(t, false, false)
  }

  /** A number written out is accepted exactly when it lies within the bounds, and becomes the
      number of players. */
  lemma PlayerCountRoundTrip(t: TableState, n: int)
    requires MinInt32 <= n <= MaxInt32
    ensures var r := SetNumberOfPlayersOf(t, IntToString(n));
      && (r.ok <==> t.minPlayers <= n <= t.maxPlayers)
      && r.t == (if r.ok then t.(numberOfPlayers := n) else t)
  {
    ParseIntToString(n);
  }

  // ---------------------------------------------------------------------------------------------
  // SetPlayerTypes

  /** The longest prefix of `t` made of 'a' (computer) and 'h' (human) letters: the players
      SetPlayerTypes creates before it meets another character and stops. */
  function TypePrefix(t: string): (r: seq<PlayerType>)
    ensures |r| <= |t|
    ensures forall k :: 0 <= k < |r| ==> (t[k] == 'a' && r[k] == AI) || (t[k] == 'h' && r[k] == Human)
    ensures |r| < |t| ==> t[|r|] != 'a' && t[|r|] != 'h'
  {
    if t == [] || (t[0] != 'a' && t[0] != 'h') then []
    else [if t[0] == 'a' then AI else Human] + TypePrefix(t[1..])
  }

  /** The letter that stands for a player type in SetPlayerTypes's input. */
  function TypeLetter(pt: PlayerType): char {
    match pt
    case AI => 'a'
    case Human => 'h'
  }

  function TypeLetters(types: seq<PlayerType>): (r: string)
    ensures |r| == |types| && forall k :: 0 <= k < |types| ==> r[k] == TypeLetter(types[k])
  {
    seq(|types|, k requires 0 <= k < |types| => TypeLetter(types[k]))
  }

  /** The seats of players just created with the given types and the starting money. */
  function NewSeats(types: seq<PlayerType>, money: int): (r: seq<Seat>)
    ensures |r| == |types|
  {
    seq(|types|, k requires 0 <= k < |types| => Seat("", [], money, types[k], In, 0))
  }

  /** SetPlayerTypes(input): when the trimmed, lower-cased input has one character per player,
      one player per leading 'a' or 'h' is appended to the list; unless the list then holds
      exactly the number of players it is emptied. On success the first player becomes the
      current one, which throws when there are no players at all. */
  function SetPlayerTypesOf(t: TableState, input: string): Reply {
    var norm := ToLower(Trim(input));
    if |norm| != t.numberOfPlayers then Reply(t, false, false)
    else SeatingOf(t.(seats := t.seats + NewSeats(TypePrefix(norm), t.baseMoney)))
  }

  /** The end of SetPlayerTypes, once the players are appended: unless the list holds exactly
      the number of players it is emptied; otherwise the first player becomes the current one,
      which throws when there are no players at all. */
  function SeatingOf(u: TableState): Reply {
    if |u.seats| != u.numberOfPlayers then Reply(u.(seats := []), false, false)
    else if u.seats == [] then Reply(u, true, true)
    else Reply(u.(current := Some(0)), true, false)
  }

  /** Reading letters back: the types spelt by TypeLetters are the types. */
  lemma {:induction false} TypePrefixLetters(types: seq<PlayerType>)
    ensures TypePrefix(TypeLetters(types)) == types
  {
    if types != [] {
      var l := TypeLetters(types);
      assert l[1..] == TypeLetters(types[1..]);
      TypePrefixLetters(types[1..]);
    }
  }

  /** On a table with no players yet, typing one letter per player of the right number creates
      exactly those players, each with the starting money, and the first one plays first. */
  lemma PlayerTypesRoundTrip(t: TableState, types: seq<PlayerType>)
    requires t.seats == [] && types != [] && |types| == t.numberOfPlayers
    ensures SetPlayerTypesOf(t, TypeLetters(types))
         == Reply(t.(seats := NewSeats(types, t.baseMoney), current := Some(0)), true, false)
  {
    var l := TypeLetters(types);
    TrimNothing(l);
    forall k | 0 <= k < |l| ensures ToLower(l)[k] == l[k] {
      assert l[k] == 'a' || l[k] == 'h';
    }
    assert ToLower(l) == l;
    TypePrefixLetters(types);
    assert [] + NewSeats(types, t.baseMoney) == NewSeats(types, t.baseMoney);
    assert SetPlayerTypesOf(t, l) == SeatingOf(t.(seats := NewSeats(types, t.baseMoney)));
  }

  /** On a table with no players yet, a letter other than 'a' or 'h' refuses the input and
      leaves no players; an input of the wrong length changes nothing. */
  lemma PlayerTypesRefused(t: TableState, input: string)
    requires t.seats == []
    ensures var norm := ToLower(Trim(input)); var r := SetPlayerTypesOf(t, input);
      && (|norm| != t.numberOfPlayers ==> r == Reply(t, false, false))
      && ((exists k :: 0 <= k < |norm| && norm[k] != 'a' && norm[k] != 'h') ==> !r.ok && r.t.seats == [])
      && (r.ok ==> |r.t.seats| == t.numberOfPlayers)
      && (r.ok ==> (r.threw <==> t.numberOfPlayers == 0))
      && (r.ok && !r.threw ==> r.t.current == Some(0))
  {
    var norm := ToLower(Trim(input));
    if |norm| == t.numberOfPlayers {
      var created := TypePrefix(norm);
      var u := t.(seats := t.seats + NewSeats(created, t.baseMoney));
      assert SetPlayerTypesOf(t, input) == SeatingOf(u);
      assert |u.seats| == |created|;
      if exists k :: 0 <= k < |norm| && norm[k] != 'a' && norm[k] != 'h' {
        assert |created| < |norm|;
      }
    }
  }

  // ---------------------------------------------------------------------------------------------
  // SetPlayerNames

  /** The name SetPlayerNames gives the player at seat k when no names are entered. */
  function DefaultName(k: nat): string {
    "Player " + IntToString(k)
  }

  /** The seats after SetPlayerNames with no names entered: seat j is named `DefaultName(j)`.
      This is the closed form the naming loop is proved to produce; the ensures gives callers
      the seat-by-seat view without unfolding the comprehension. */
  function DefaultNamed(s: seq<Seat>): (r: seq<Seat>)
    ensures |r| == |s| && forall j :: 0 <= j < |s| ==> r[j] == s[j].(name := DefaultName(j))
  {
    seq(|s|, j requires 0 <= j < |s| => s[j].(name := DefaultName(j)))
  }

  function Named(s: seq<Seat>, names: seq<string>): (r: seq<Seat>)
    requires |names| == |s|
    ensures |r| == |s| && forall j :: 0 <= j < |s| ==> r[j] == s[j].(name := names[j])
  {
    seq(|s|, j requires 0 <= j < |s| => s[j].(name := names[j]))
  }

  /** SetPlayerNames(input): the empty input names every player "Player <seat>"; otherwise the
      trimmed input split at each space must give one name per player, or nothing changes. */
  function SetPlayerNamesOf(t: TableState, input: string): Reply {
    if input == "" then Reply(t.(seats := DefaultNamed(t.seats)), true, false)
    else
      var names := Split(Trim(input), ' ');
      if |names| == |t.seats| then Reply(t.(seats := Named(t.seats, names)), true, false)
      else Reply(t, false, false)
  }

  /** Names are accepted exactly when the input is empty or holds one name per player; only the
      names change, and a refused input changes nothing. */
  lemma PlayerNamesAccepted(t: TableState, input: string)
    ensures var r := SetPlayerNamesOf(t, input);
      && !r.threw
      && (r.ok <==> input == "" || |Split(Trim(input), ' ')| == |t.seats|)
      && (!r.ok ==> r.t == t)
      && (r.ok ==> r.t == t.(seats := r.t.seats) && |r.t.seats| == |t.seats|)
      && (r.ok ==> forall j :: 0 <= j < |t.seats| ==> r.t.seats[j] == t.seats[j].(name := r.t.seats[j].name))
  {
  }

  /** Names without white space, typed one per player with single spaces between them, become
      the players' names in seat order. */
  lemma PlayerNamesRoundTrip(t: TableState, names: seq<string>)
    requires |names| == |t.seats| >= 1
    requires forall i :: 0 <= i < |names| ==> names[i] != [] && forall c :: c in names[i] ==> !IsWhiteSpace(c)
    ensures var r := SetPlayerNamesOf(t, Join(names, ' '));
      && r.ok && forall j :: 0 <= j < |t.seats| ==> r.t.seats[j].name == names[j]
  {
    var input := Join(names, ' ');
    JoinEnds(names, ' ');
    assert names[0][0] in names[0];
    var last := names[|names| - 1];
    assert last[|last| - 1] in last;
    TrimNothing(input);
    SplitJoin(names, ' ');
  }

  // ---------------------------------------------------------------------------------------------
  // SetAnte and SetAnteDoubles

  /** SetAnte(input): the empty input keeps the game's ante; otherwise the trimmed input, read
      as a number (0 when it is not one), must lie strictly between 0 and half the starting
      money. */
  function SetAnteOf(t: TableState, input: string): Reply {
    if input == "" then Reply(t, true, false)
    else
      var v := ParsedOrZero(Trim(input));
      if 0 < v < DivTrunc(t.baseMoney, 2) then Reply(t.(ante := v), true, false)
      else Reply(t, false, false)
  }

  /** An accepted ante that was typed lies strictly between 0 and half the starting money, and
      only the ante changes; a refused one changes nothing. */
  lemma AnteWithinBounds(t: TableState, input: string)
    ensures var r := SetAnteOf(t, input);
      && !r.threw
      && (!r.ok ==> r.t == t)
      && (r.ok && input == "" ==> r.t == t)
      && (r.ok && input != "" ==> r.t == t.(ante := r.t.ante) && 0 < r.t.ante < DivTrunc(t.baseMoney, 2))
  {
  }

  /** A positive number written out is accepted as the ante exactly when it is below half the
      starting money. */
  lemma AnteRoundTrip(t: TableState, a: int)
    requires 0 < a <= MaxInt32
    ensures var r := SetAnteOf(t, IntToString(a));
      && (r.ok <==> a < DivTrunc(t.baseMoney, 2))
      && r.t == (if r.ok then t.(ante := a) else t)
  {
    PositiveToString(a);
  }

  /** SetAnteDoubles(input): the empty input keeps the game's setting; otherwise the trimmed
      input must be "yes" or "no", with that case exactly. */
  function SetAnteDoublesOf(t: TableState, input: string): Reply {
    if input == "" then Reply(t, true, false)
    else if Trim(input) == "yes" then Reply(t.(anteDoubles := true), true, false)
    else if Trim(input) == "no" then Reply(t.(anteDoubles := false), true, false)
    else Reply(t, false, false)
  }

  /** The doubling is set by "yes" and cleared by "no" (surrounding spaces aside), kept by the
      empty input, and any other answer is refused without a change. */
  lemma AnteDoublesAnswers(t: TableState, input: string)
    ensures var r := SetAnteDoublesOf(t, input); var a := Trim(input);
      && !r.threw
      && (r.ok <==> input == "" || a == "yes" || a == "no")
      && (!r.ok || input == "" ==> r.t == t)
      && (r.ok && input != "" ==> r.t == t.(anteDoubles := (a == "yes")))
  {
  }
}
