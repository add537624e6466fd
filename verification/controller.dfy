/** GameController.cs: the setup dialogue and the text commands of the human player, routed to
    the RuleSet. The view only shows messages and is left out; what each answer and each command
    does to the game is stated against the functions of the modules Setup and Steps. */
module Control {
  import opened Optional
  import opened Text
  import opened Cards
  import opened Players
  import opened Table
  import opened Steps
  import opened Setup
  import opened Rules
  import Resolver

  // ---------------------------------------------------------------------------------------------
  // The setup stages

  /** The setup questions, in the order they are asked; Playing once setup is over. */
  datatype Stage = Playing | GameChoice | NumberOfPlayers | PlayerTypes | PlayerNames | Ante | AnteDoubles

  /** The value of the C# enum: Playing is -1 and the questions count up from 0. */
  function StageValue(s: Stage): int {
    match s
    case Playing => -1
    case GameChoice => 0
    case NumberOfPlayers => 1
    case PlayerTypes => 2
    case PlayerNames => 3
    case Ante => 4
    case AnteDoubles => 5
  }

  /** The stage after an accepted answer: the next question, and play after the last one. */
  function Following(s: Stage): (r: Stage)
    requires s != Playing
    ensures r == Playing <==> s == Stage.AnteDoubles
    ensures r != Playing ==> StageValue(r) == StageValue(s) + 1
  {
    match s
    case GameChoice => NumberOfPlayers
    case NumberOfPlayers => PlayerTypes
    case PlayerTypes => PlayerNames
    case PlayerNames => Stage.Ante
    case Ante => AnteDoubles
    case AnteDoubles => Playing
  }

  /** The stage after n accepted answers. */
  function AfterAnswers(s: Stage, n: nat): Stage
    decreases n
  {
    if n == 0 || s == Playing then s else AfterAnswers(Following(s), n - 1)
  }

  /** From the first question, the n-th accepted answer leads to the question of value n, and
      the sixth one to play. */
  lemma {:induction false} SetupTakesSixAnswers(n: nat)
    requires n <= 6
    ensures n < 6 ==> StageValue(AfterAnswers(GameChoice, n)) == n
    ensures n == 6 ==> AfterAnswers(GameChoice, n) == Playing
  {
    if n > 0 {
      SetupTakesSixAnswers(n - 1);
      var s := AfterAnswers(GameChoice, n - 1);
      assert s != Playing && StageValue(s) == n - 1;
      AnswerMore(GameChoice, n - 1);
    }
  }

  /** One more answer after n: the stage reached is followed once more. */
  lemma {:induction false} AnswerMore(s: Stage, n: nat)
    requires AfterAnswers(s, n) != Playing
    ensures AfterAnswers(s, n + 1) == Following(AfterAnswers(s, n))
    decreases n
  {
    if n > 0 {
      AnswerMore(Following(s), n - 1);
    }
  }

  /** The RuleSet setter that the answer at stage s goes to. */
  function SetupOf(s: Stage, t: TableState, games: map<string, GameConfig>, input: string): Reply
    requires s != Playing
  {
    match s
    case GameChoice => SetGameOf(t, games, input)
    case NumberOfPlayers => SetNumberOfPlayersOf(t, input)
    case PlayerTypes => SetPlayerTypesOf(t, input)
    case PlayerNames => SetPlayerNamesOf(t, input)
    case Ante => SetAnteOf(t, input)
    case AnteDoubles => SetAnteDoublesOf(t, input)
  }

  // ---------------------------------------------------------------------------------------------
  // The command line

  /** `input.Split(' ')[0]`: the text before the first space, or all of it. */
  function CommandWord(input: string): (w: string)
    ensures ' ' !in w
  {
    Split(input, ' ')[0]
  }

  /** The text after the first space, or "" when there is none. */
  function Arguments(input: string): string {
    match IndexOf(input, ' ')
    case None => ""
    case Some(k) => input[k + 1..]
  }

  /** The line is the command word and the arguments, with the first space between them. */
  lemma SplitAtFirstSpace(input: string)
    ensures ' ' in input ==> CommandWord(input) + " " + Arguments(input) == input
    ensures ' ' !in input ==> CommandWord(input) == input && Arguments(input) == ""
  {
    match IndexOf(input, ' ')
    case None =>
    case Some(k) =>
      assert input == input[..k] + [' '] + input[k + 1..];
      SplitAfter(input[..k], ' ', input[k + 1..]);
  }

  /** A command word with any arguments after one space is read back as that word and those
      arguments. */
  lemma CommandLineRoundTrip(w: string, a: string)
    requires ' ' !in w
    ensures CommandWord(w + " " + a) == w && Arguments(w + " " + a) == a
  {
    var line := w + " " + a;
    SplitAfter(w, ' ', a);
    assert line[..|w|] == w && line[|w|] == ' ';
    assert IndexOf(line, ' ') == Some(|w|);
    assert line[|w| + 1..] == a;
  }

  /** The commands that MakeCommands registers. */
  datatype Command = HelpCmd | AnteCmd | OutCmd | StatusCmd | BetCmd | CheckCmd | FoldCmd
                   | NextCmd | CardsCmd | DiscardCmd | QuitCmd

  /** The dictionary of commands, by their word. */
  const Commands: map<string, Command> :=
    map["help" := HelpCmd, "ante" := AnteCmd, "out" := OutCmd, "status" := StatusCmd,
        "bet" := BetCmd, "check" := CheckCmd, "fold" := FoldCmd, "next" := NextCmd,
        "cards" := CardsCmd, "discard" := DiscardCmd, "quit" := QuitCmd]

  /** The word that calls each command. */
  function Word(c: Command): (w: string)
    ensures w in Commands && Commands[w] == c
    ensures ' ' !in w
  {
    match c
    case HelpCmd => "help"
    case AnteCmd => "ante"
    case OutCmd => "out"
    case StatusCmd => "status"
    case BetCmd => "bet"
    case CheckCmd => "check"
    case FoldCmd => "fold"
    case NextCmd => "next"
    case CardsCmd => "cards"
    case DiscardCmd => "discard"
    case QuitCmd => "quit"
  }

  /** Each word of the dictionary calls a different command. */
  lemma WordsAreNames(w: string)
    requires w in Commands
    ensures Word(Commands[w]) == w
  {
  }

  /** Typing a command's word followed by arguments runs that command with those arguments. */
  lemma TypedCommand(c: Command, a: string)
    ensures var line := Word(c) + " " + a;
      CommandWord(line) in Commands && Commands[CommandWord(line)] == c && Arguments(line) == a
  {
    CommandLineRoundTrip(Word(c), a);
  }

  // ---------------------------------------------------------------------------------------------
  // What each command does

  /** The commands that first read the current round (`theRules.Round`). */
  predicate ReadsRound(c: Command) {
    c == AnteCmd || c == OutCmd || c == BetCmd || c == CheckCmd || c == FoldCmd || c == NextCmd
    || c == DiscardCmd
  }

  /** The rounds in which each command is accepted, as the help texts give them. */
  predicate Allowed(c: Command, r: Rule) {
    match c
    case AnteCmd => r == Rule.Ante
    case OutCmd => r == Rule.Bet || r == Rule.Ante
    case BetCmd => r == Rule.Bet
    case CheckCmd => r == Rule.Bet
    case FoldCmd => r == Rule.Bet
    case NextCmd => r != Rule.Ante && r != Rule.Bet && r != Rule.Showdown
    case DiscardCmd => r == MayDrawDown || r == MayDrawUp
    case _ => true
  }

  /** What a command does to the game: an exit of the program, an effect after which the
      player is still to act (a refusal, a discard, a bet refused, or an exception), or an
      action after which the turn ends with RuleSet.NextPlayerRoundOrDeal. */
  datatype Act = Exit | Done(e: Effect) | ThenNext(a: TableState)

  /** An action of the RuleSet that may throw; the turn ends only when it does not. */
  function Passed(e: Effect): Act {
    if e.threw then Done(e) else ThenNext(e.t)
  }

  /** What the command c with the arguments args does to the game t. The commands that read
      the round (`theRules.Round`) throw when its index is out of range and are refused, with a
      message, in a round that does not take them; the RuleSet actions read the current
      player, and a null one throws. */
  function CommandAct(t: TableState, c: Command, args: string): (act: Act) {
    match c
    case HelpCmd => Done(Effect(t, false))
    case StatusCmd => Done(Effect(t, !HasCurrent(t)))
    case CardsCmd => Done(Effect(t, !HasCurrent(t)))
    case QuitCmd => Exit
    case CheckCmd => CheckAct(t)
    case FoldCmd => FoldAct(t)
    case AnteCmd => AnteAct(t)
    case OutCmd => OutAct(t)
    case BetCmd => BetAct(t, args)
    case DiscardCmd => DiscardAct(t, args)
    case NextCmd => NextAct(t)
  }

  /** GameController.CheckBet. */
  function CheckAct(t: TableState): Act {
    if !RoundExists(t) then Done(Effect(t, true))
    else if Round(t) != Rule.Bet then Done(Effect(t, false))
    else if !HasCurrent(t) then Done(Effect(t, true))
    else ThenNext(CheckOf(t))
  }

  /** GameController.FoldBet. */
  function FoldAct(t: TableState): Act {
    if !RoundExists(t) then Done(Effect(t, true))
    else if Round(t) != Rule.Bet then Done(Effect(t, false))
    else if !HasCurrent(t) then Done(Effect(t, true))
    else ThenNext(FoldOf(t))
  }

  /** GameController.PlaceNecessaryAnte. */
  function AnteAct(t: TableState): Act {
    if !RoundExists(t) then Done(Effect(t, true))
    else if Round(t) != Rule.Ante then Done(Effect(t, false))
    else if !HasCurrent(t) then Done(Effect(t, true))
    else ThenNext(AnteOf(t))
  }

  /** GameController.QuitGame: in a betting or an ante round. */
  function OutAct(t: TableState): Act {
    if !RoundExists(t) then Done(Effect(t, true))
    else if Round(t) != Rule.Bet && Round(t) != Rule.Ante then Done(Effect(t, false))
    else if !HasCurrent(t) then Done(Effect(t, true))
    else ThenNext(QuitOf(t))
  }

  /** GameController.PlaceBet: refused outside a betting round, once everybody has bet (checks
      only) and without an amount; a bet that RuleSet.PlaceBet refuses leaves the player to
      act again. */
  function BetAct(t: TableState, s: string): Act {
    if !RoundExists(t) then Done(Effect(t, true))
    else if Round(t) != Rule.Bet || t.checkOnly || s == "" then Done(Effect(t, false))
    else if !HasCurrent(t) then Done(Effect(t, true))
    else if BetAsked(t, s).0 then ThenNext(BetOf(t, s))
    else Done(Effect(t, false))
  }

  /** GameController.DiscardCard: in a drawing round and with a card named. With a null current
      player, RuleSet.DiscardCard throws only once the card is well named. */
  function DiscardAct(t: TableState, card: string): Act {
    if !RoundExists(t) then Done(Effect(t, true))
    else if (Round(t) != MayDrawDown && Round(t) != MayDrawUp) || card == "" then Done(Effect(t, false))
    else if !HasCurrent(t) then Done(Effect(t, NamedCard(card).Some?))
    else Done(Effect(DiscardCardOf(t, card).0, false))
  }

  /** GameController.AcceptCurrentRound: the card of a dealing round, or the draw of a drawing
      round, then the turn ends; in any other round nothing happens. */
  function NextAct(t: TableState): Act {
    if !RoundExists(t) then Done(Effect(t, true))
    else match Round(t)
      case DealCardDown => DealtAct(t, true)
      case DealCardUp => DealtAct(t, false)
      case DealCardCommon => Passed(DealCommonOf(t))
      case MayDrawDown => if HasCurrent(t) then Passed(DrawOf(t, true)) else Done(Effect(t, true))
      case MayDrawUp => if HasCurrent(t) then Passed(DrawOf(t, false)) else Done(Effect(t, true))
      case _ => Done(Effect(t, false))
  }

  /** DealCardDown / DealCardUp pop the deck before they read the current player: with a null
      one, a card is lost from the deck before the exception. */
  function DealtAct(t: TableState, down: bool): Act {
    if HasCurrent(t) then Passed(DealOf(t, down))
    else if t.deck == [] then Done(Effect(t, true))
    else Done(Effect(t.(deck := t.deck[..|t.deck| - 1]), true))
  }

  /** The end of a turn from state a: RuleSet.NextPlayerRoundOrDeal with the showdown's verdict
      and the shuffle of a new deal. */
  predicate Turned(a: TableState, sh: Shuffle, verdict: Resolver.Outcome, r: TableState, threw: bool)
    requires ValidShuffle(sh)
  {
    && VerdictFits(a, verdict)
    && (ShowdownDue(a) ==> ShowdownResult(ContendersOf(a), verdict))
    && var e := NextOf(a, sh, verdict); r == e.t && threw == e.threw
  }

  /** The game r, the end of the turn, the exception and the exit of the act on the game t,
      before the turn ends. */
  predicate Performed(t: TableState, act: Act, r: TableState, passes: bool, threw: bool, exits: bool) {
    match act
    case Exit => exits && !passes && !threw && r == t
    case Done(e) => !exits && !passes && r == e.t && threw == e.threw
    case ThenNext(a) => !exits && passes && !threw && r == a
  }

  /** The game r, the exception and the exit that follow from the act on the game t. */
  predicate Reacted(t: TableState, act: Act, sh: Shuffle, verdict: Resolver.Outcome, r: TableState,
                    threw: bool, exits: bool)
    requires ValidShuffle(sh)
  {
    match act
    case Exit => exits && !threw && r == t
    case Done(e) => !exits && r == e.t && threw == e.threw
    case ThenNext(a) => !exits && Turned(a, sh, verdict, r, threw)
  }

  // ---------------------------------------------------------------------------------------------
  // Properties of the commands

  /** A command that reads the round is refused, leaving the game as it is, in a round that
      does not accept it; one asked with the round index out of range throws. */
  lemma RefusedOutOfRound(t: TableState, c: Command, args: string)
    requires ReadsRound(c)
    ensures !RoundExists(t) ==> CommandAct(t, c, args) == Done(Effect(t, true))
    ensures RoundExists(t) && !Allowed(c, Round(t)) ==> CommandAct(t, c, args) == Done(Effect(t, false))
  {
  }

  /** Only an accepted action ends the turn: the command reads the round, the round accepts it,
      there is a current player or a common card to deal, and a discard never does. */
  lemma TurnEndsOnlyWhenAccepted(t: TableState, c: Command, args: string)
    ensures CommandAct(t, c, args).ThenNext? ==>
      && ReadsRound(c) && c != DiscardCmd && RoundExists(t) && Allowed(c, Round(t))
      && (HasCurrent(t) || Round(t) == DealCardCommon)
  {
    if CommandAct(t, c, args).ThenNext? {
      assert c != HelpCmd && c != StatusCmd && c != CardsCmd && c != QuitCmd;
    }
  }

  /** In its round, with a current player, check, fold, ante and out always end the turn, and
      so does a bet exactly when RuleSet.PlaceBet accepts it (betting is open, the amount is
      given and valid). */
  lemma AcceptedActionsEndTurn(t: TableState, c: Command, args: string)
    requires RoundExists(t) && Allowed(c, Round(t)) && HasCurrent(t)
    ensures c in {CheckCmd, FoldCmd, AnteCmd, OutCmd} ==> CommandAct(t, c, args).ThenNext?
    ensures c == BetCmd ==>
      (CommandAct(t, c, args).ThenNext? <==> !t.checkOnly && args != "" && BetAsked(t, args).0)
  {
  }

  /** Apart from dealing, drawing and discarding, a command either ends the turn or leaves the
      game exactly as it was. */
  lemma EndsTurnOrChangesNothing(t: TableState, c: Command, args: string)
    requires c != NextCmd && c != DiscardCmd
    ensures CommandAct(t, c, args).Done? ==> CommandAct(t, c, args).e.t == t
  {
    if RoundExists(t) && Allowed(c, Round(t)) && c == BetCmd && HasCurrent(t) && !t.checkOnly && args != "" {
      assert !BetAsked(t, args).0 ==> BetOf(t, args) == t;
    }
  }

  /** A discard never ends the turn, a discard that throws changes nothing, and one that
      succeeds keeps the player to act and the seats. */
  lemma DiscardKeepsTurn(t: TableState, args: string)
    ensures CommandAct(t, DiscardCmd, args).Done?
    ensures var e := CommandAct(t, DiscardCmd, args).e;
      e.threw ==> e.t == t
    ensures var e := CommandAct(t, DiscardCmd, args).e;
      !e.threw && HasCurrent(t) ==> e.t.current == t.current && |e.t.seats| == |t.seats|
  {
    assert CommandAct(t, DiscardCmd, args) == DiscardAct(t, args);
    if RoundExists(t) && Allowed(DiscardCmd, Round(t)) && args != "" && HasCurrent(t) {
      if NamedCard(args).Some? {
        assert |MarkFirst(t, NamedCard(args).value).0.seats| == |t.seats|;
      }
    }
  }

  /** The next command in a dealing round deals exactly one card from the deck, and ends the
      turn unless the deck was empty. */
  lemma NextDealsOneCard(t: TableState)
    requires RoundExists(t) && Round(t) in {DealCardDown, DealCardUp, DealCardCommon}
    requires HasCurrent(t) || Round(t) == DealCardCommon
    ensures var act := CommandAct(t, NextCmd, "");
      && (act.ThenNext? <==> t.deck != [])
      && (act.ThenNext? ==> act.a.deck == t.deck[..|t.deck| - 1])
  {
  }

  // ---------------------------------------------------------------------------------------------
  // The controller

  class GameControl {
    var stage: Stage
    const rules: RuleSet

    /** The controller before Initialize: the static stage field holds the enum's 0, the first
        question. */
    constructor (rules: RuleSet)
      ensures this.rules == rules && stage == GameChoice
    {
      this.rules := rules;
      stage := GameChoice;
    }

    /** GameController.Initialize: the setup dialogue is skipped; play starts with a new deal. */
    method Initialize(sh: Shuffle)
      requires rules.Valid() && ValidShuffle(sh)
      modifies this`stage, rules, rules.players
      ensures rules.Valid() && stage == Playing
      ensures rules.State() == NewDealOf(old(rules.State()), sh)
    {
      StartGame(sh);
    }

    /** GameController.Interpret: during setup, the answer goes to the stage's setter and the
        next question comes only once it is accepted, with a new deal after the last one; in
        play, the first word of the line selects the command and the rest is its argument. */
    method Interpret(input: string, sh: Shuffle) returns (threw: bool, exits: bool, verdict: Resolver.Outcome)
      requires rules.Valid() && ValidShuffle(sh)
      modifies this`stage, rules, rules.players
      ensures rules.Valid()
      ensures old(stage) != Playing ==> (!exits &&
        var r := SetupOf(old(stage), old(rules.State()), rules.availableGames, input);
        && threw == r.threw
        && stage == (if r.ok && !r.threw then Following(old(stage)) else old(stage))
        && rules.State() == (if old(stage) == Stage.AnteDoubles && r.ok then NewDealOf(r.t, sh) else r.t))
      ensures old(stage) == Playing ==> (stage == Playing &&
        var w := CommandWord(input);
        if w in Commands then
          Reacted(old(rules.State()), CommandAct(old(rules.State()), Commands[w], Arguments(input)),
                  sh, verdict, rules.State(), threw, exits)
        else rules.State() == old(rules.State()) && !threw && !exits)
    {
      if stage != Playing {
        exits, verdict := false, Resolver.Returned(None);
        threw := SetupStep(input, sh);
      } else {
        threw, exits, verdict := PlayStep(input, sh);
      }
    }

    /** The command part of Interpret: an unknown word only shows the help. */
    method PlayStep(input: string, sh: Shuffle) returns (threw: bool, exits: bool, verdict: Resolver.Outcome)
      requires rules.Valid() && ValidShuffle(sh)
      modifies rules, rules.players
      ensures rules.Valid()
      ensures var w := CommandWord(input);
        if w in Commands then
          Reacted(old(rules.State()), CommandAct(old(rules.State()), Commands[w], Arguments(input)),
                  sh, verdict, rules.State(), threw, exits)
        else rules.State() == old(rules.State()) && !threw && !exits
    {
      var w := CommandWord(input);
      var args := Arguments(input);
      if w !in Commands {
        return false, false, Resolver.Returned(None);
      }
      var c := Commands[w];
      threw, exits, verdict := Execute(c, args, sh);
    }

    /** The setup switch of Interpret: the next question comes once the answer is accepted,
        and play starts after the last one. */
    method SetupStep(input: string, sh: Shuffle) returns (threw: bool)
      requires rules.Valid() && ValidShuffle(sh) && stage != Playing
      modifies this`stage, rules, rules.players
      ensures rules.Valid()
      ensures var r := SetupOf(old(stage), old(rules.State()), rules.availableGames, input);
        && threw == r.threw
        && stage == (if r.ok && !r.threw then Following(old(stage)) else old(stage))
        && rules.State() == (if old(stage) == Stage.AnteDoubles && r.ok then NewDealOf(r.t, sh) else r.t)
    {
      ghost var t0 := rules.State();
      ghost var r := SetupOf(stage, t0, rules.availableGames, input);
      if stage == Stage.AnteDoubles {
        AnteDoublesAnswers(t0, input);
      }
      var ok;
      ok, threw := Answer(stage, input);
      assert rules.State() == r.t && ok == r.ok && threw == r.threw;
      if ok && !threw {
        if stage == Stage.AnteDoubles {
          StartGame(sh);
        } else {
          stage := Following(stage);
          assert rules.State() == r.t;
        }
      }
    }

    /** DisplayGameStart, after the setup or from Initialize: play starts with a new deal. */
    method StartGame(sh: Shuffle)
      requires rules.Valid() && ValidShuffle(sh)
      modifies this`stage, rules, rules.players
      ensures rules.Valid() && stage == Playing
      ensures rules.State() == NewDealOf(old(rules.State()), sh)
    {
      stage := Playing;
      rules.NewDeal(sh);
    }

    /** The answer at the current stage goes to the stage's setter; only the player types
        replace the player objects. */
    method Answer(s: Stage, input: string) returns (ok: bool, threw: bool)
      requires rules.Valid() && s != Playing
      modifies rules, rules.players
      ensures rules.Valid() && (s != PlayerTypes ==> rules.players == old(rules.players))
      ensures var r := SetupOf(s, old(rules.State()), rules.availableGames, input);
        rules.State() == r.t && ok == r.ok && threw == r.threw
    {
      ghost var t0 := rules.State();
      ghost var games := rules.availableGames;
      threw := false;
      match s {
      case GameChoice =>
        ok := rules.SetGame(input);
        assert Reply(rules.State(), ok, threw) == SetGameOf(t0, games, input);
      case NumberOfPlayers =>
        ok := rules.SetNumberOfPlayers(input);
        assert Reply(rules.State(), ok, threw) == SetNumberOfPlayersOf(t0, input);
      case PlayerTypes =>
        ok, threw := rules.SetPlayerTypes(input);
        assert Reply(rules.State(), ok, threw) == SetPlayerTypesOf(t0, input);
      case PlayerNames =>
        ok := rules.SetPlayerNames(input);
        assert Reply(rules.State(), ok, threw) == SetPlayerNamesOf(t0, input);
      case Ante =>
        ok := rules.SetAnte(input);
        assert Reply(rules.State(), ok, threw) == SetAnteOf(t0, input);
      case AnteDoubles =>
        ok := rules.SetAnteDoubles(input);
        assert Reply(rules.State(), ok, threw) == SetAnteDoublesOf(t0, input);
      }
    }

    /** The call of a registered command: the command's action and, when it is accepted, the
        end of the turn (RuleSet.NextPlayerRoundOrDeal, which each command method of the C#
        controller calls as its last step). */
    method Execute(c: Command, args: string, sh: Shuffle) returns (threw: bool, exits: bool, verdict: Resolver.Outcome)
      requires rules.Valid() && ValidShuffle(sh)
      modifies rules, rules.players
      ensures rules.players == old(rules.players)
      ensures Reacted(old(rules.State()), CommandAct(old(rules.State()), c, args), sh, verdict,
                      rules.State(), threw, exits)
    {
      ghost var t := rules.State();
      ghost var act := CommandAct(t, c, args);
      verdict := Resolver.Returned(None);
      var passes;
      passes, threw, exits := Perform(c, args);
      if passes {
        assert act.ThenNext? && rules.State() == act.a && !exits;
        threw, verdict := rules.NextPlayerRoundOrDeal(sh);
        assert Turned(act.a, sh, verdict, rules.State(), threw);
      } else {
        assert !act.ThenNext?;
      }
    }

    /** The command's own action, up to the end of the turn; `passes` tells whether the turn is
        then to end. */
    method Perform(c: Command, args: string) returns (passes: bool, threw: bool, exits: bool)
      requires rules.Valid()
      modifies rules, rules.players
      ensures rules.players == old(rules.players)
      ensures Performed(old(rules.State()), CommandAct(old(rules.State()), c, args), rules.State(),
                        passes, threw, exits)
    {
      passes, threw, exits := false, false, false;
      match c {
      case HelpCmd =>
      case StatusCmd =>
        threw := !HasRules();
      case CardsCmd =>
        threw := !HasRules();
      case QuitCmd =>
        exits := true;
      case AnteCmd =>
        passes, threw := PlaceNecessaryAnte();
      case OutCmd =>
        passes, threw := QuitGame();
      case BetCmd =>
        passes, threw := PlaceBet(args);
      case CheckCmd =>
        passes, threw := CheckBet();
      case FoldCmd =>
        passes, threw := FoldBet();
      case NextCmd =>
        passes, threw := AcceptCurrentRound();
      case DiscardCmd =>
        threw := DiscardCard(args);
      }
    }

    /** `currentPlayer` is not null (reading its fields does not throw). */
    function HasRules(): (b: bool)
      reads rules, rules.players
      ensures b == HasCurrent(rules.State())
    {
      rules.current.Some? && rules.current.value < |rules.players|
    }

    /** `theRules.Round` can be read. */
    function HasRound(): (b: bool)
      reads rules
      ensures b == RoundExists(rules.State())
    {
      0 <= rules.currentRound < |rules.rounds|
    }

    /** GameController.CheckBet, up to the end of the turn. */
    method CheckBet() returns (passes: bool, threw: bool)
      requires rules.Valid()
      modifies rules, rules.players
      ensures rules.players == old(rules.players)
      ensures Performed(old(rules.State()), CheckAct(old(rules.State())), rules.State(),
                        passes, threw, false)
    {
      passes, threw := false, false;
      if !HasRound() {
        return false, true;
      }
      if rules.rounds[rules.currentRound] != Rule.Bet {
        return;
      }
      if !HasRules() {
        return false, true;
      }
      ghost var t0 := rules.State();
      var paid := rules.CheckBet();
      assert CheckAct(t0) == ThenNext(rules.State());
      passes := true;
    }

    /** GameController.FoldBet, up to the end of the turn. */
    method FoldBet() returns (passes: bool, threw: bool)
      requires rules.Valid()
      modifies rules, rules.players
      ensures rules.players == old(rules.players)
      ensures Performed(old(rules.State()), FoldAct(old(rules.State())), rules.State(),
                        passes, threw, false)
    {
      passes, threw := false, false;
      if !HasRound() {
        return false, true;
      }
      if rules.rounds[rules.currentRound] != Rule.Bet {
        return;
      }
      if !HasRules() {
        return false, true;
      }
      ghost var t0 := rules.State();
      rules.FoldBet();
      assert FoldAct(t0) == ThenNext(rules.State());
      passes := true;
    }

    /** GameController.PlaceBet, up to the end of the turn: refused outside a betting round,
        once everybody has bet (checks only), or without an amount; a bet RuleSet.PlaceBet
        refuses leaves the player to act again. */
    method PlaceBet(s: string) returns (passes: bool, threw: bool)
      requires rules.Valid()
      modifies rules, rules.players
      ensures rules.players == old(rules.players)
      ensures Performed(old(rules.State()), BetAct(old(rules.State()), s), rules.State(),
                        passes, threw, false)
    {
      passes, threw := false, false;
      if !HasRound() {
        return false, true;
      }
      if rules.rounds[rules.currentRound] != Rule.Bet || rules.checkOnly || s == "" {
        return;
      }
      if !HasRules() {
        return false, true;
      }
      ghost var t0 := rules.State();
      var success, amount := rules.PlaceBet(s);
      assert BetAct(t0, s) == if success then ThenNext(rules.State()) else Done(Effect(rules.State(), false));
      passes := success;
    }

    /** GameController.PlaceNecessaryAnte, up to the end of the turn. */
    method PlaceNecessaryAnte() returns (passes: bool, threw: bool)
      requires rules.Valid()
      modifies rules, rules.players
      ensures rules.players == old(rules.players)
      ensures Performed(old(rules.State()), AnteAct(old(rules.State())), rules.State(),
                        passes, threw, false)
    {
      passes, threw := false, false;
      if !HasRound() {
        return false, true;
      }
      if rules.rounds[rules.currentRound] != Rule.Ante {
        return;
      }
      if !HasRules() {
        return false, true;
      }
      ghost var t0 := rules.State();
      var ante := rules.PlaceNecessaryAnte();
      assert AnteAct(t0) == ThenNext(rules.State());
      passes := true;
    }

    /** GameController.QuitGame, up to the end of the turn: only in a betting or an ante
        round. */
    method QuitGame() returns (passes: bool, threw: bool)
      requires rules.Valid()
      modifies rules, rules.players
      ensures rules.players == old(rules.players)
      ensures Performed(old(rules.State()), OutAct(old(rules.State())), rules.State(),
                        passes, threw, false)
    {
      passes, threw := false, false;
      if !HasRound() {
        return false, true;
      }
      var round := rules.rounds[rules.currentRound];
      if round != Rule.Bet && round != Rule.Ante {
        return;
      }
      if !HasRules() {
        return false, true;
      }
      ghost var t0 := rules.State();
      var gains := rules.QuitGame();
      assert OutAct(t0) == ThenNext(rules.State());
      passes := true;
    }

    /** GameController.DiscardCard: only in a drawing round and with a card named; the turn
        does not end. */
    method DiscardCard(card: string) returns (threw: bool)
      requires rules.Valid()
      modifies rules, rules.players
      ensures rules.players == old(rules.players)
      ensures Performed(old(rules.State()), DiscardAct(old(rules.State()), card), rules.State(),
                        false, threw, false)
    {
      threw := false;
      if !HasRound() {
        return true;
      }
      var round := rules.rounds[rules.currentRound];
      if (round != MayDrawDown && round != MayDrawUp) || card == "" {
        return;
      }
      if !HasRules() {
        return NamedCard(card).Some?;
      }
      ghost var t0 := rules.State();
      var res := rules.DiscardCard(card);
      assert DiscardAct(t0, card) == Done(Effect(rules.State(), false));
    }

    /** GameController.AcceptCurrentRound, up to the end of the turn: the card or the draw of
        the round; "Cannot pass" in the other rounds. */
    method AcceptCurrentRound() returns (passes: bool, threw: bool)
      requires rules.Valid()
      modifies rules, rules.players
      ensures rules.players == old(rules.players)
      ensures Performed(old(rules.State()), NextAct(old(rules.State())), rules.State(),
                        passes, threw, false)
    {
      if !HasRound() {
        return false, true;
      }
      passes, threw := false, false;
      match rules.rounds[rules.currentRound] {
      case DealCardDown =>
        threw := DealOne(true);
      case DealCardUp =>
        threw := DealOne(false);
      case DealCardCommon =>
        threw := rules.DealCardCommon();
      case MayDrawDown =>
        if !HasRules() {
          return false, true;
        }
        threw := rules.DrawCards(true);
      case MayDrawUp =>
        if !HasRules() {
          return false, true;
        }
        threw := rules.DrawCards(false);
      case _ =>
        return;
      }
      passes := !threw;
    }

    /** DealCardDown / DealCardUp as the controller calls them: `deck.Pop()` comes first, so
        with a null current player the top card is gone when the exception is thrown. */
    method DealOne(down: bool) returns (threw: bool)
      requires rules.Valid()
      modifies rules, rules.players
      ensures rules.Valid() && rules.players == old(rules.players)
      ensures var act := DealtAct(old(rules.State()), down);
        if act.Done? then rules.State() == act.e.t && threw == act.e.threw
        else act.ThenNext? && rules.State() == act.a && !threw
    {
      if HasRules() {
        threw := rules.DealCard(down);
        return;
      }
      threw := true;
      if rules.deck != [] {
        rules.PutDeck(rules.deck[..|rules.deck| - 1]);
      }
    }
  }
}
