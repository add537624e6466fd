# Poker table and hand evaluator in Dafny

This project is a Dafny model of the game core of a console-and-WinForms poker program
(`PokerProject`). It covers four parts:

* `Card.cs`. Cards, the nine-category hand evaluator (`GetBestHand` and its `Contains*`
  detectors), `Showdown`, the face/suit parsers, `ToString`, `Equals`, `CompareTo` and the
  52-card `Deck`.
* `RuleSet.cs`. The table: setup setters, player actions, dealing and drawing, the
  computer player's decision, `NewDeal`, `NextPlayerRoundOrDeal`, `Victory` and `Loss`.
* `Player.cs`. A player's stack and hand.
* `GameController.cs`. The setup stage machine, the split of a typed line into command and
  argument, and the per-round guards in front of the table's actions.

The modules follow the program's own structure.

| module | file | models |
|---|---|---|
| `Optional`, `Text` | `text.dfy` | the .NET string operations the code relies on: `Trim`, `ToLower`, `int.TryParse`, `int.ToString`, `Split` and `IndexOf` |
| `Cards` | `cards.dfy` | `Face`, `Suit`, `Hand`, `Rule`, `Card`, `Equals`, `CompareTo`, `ToString`, `ParseFace`, `ParseSuit`, `ParseTwoLettersToString` and `Deck` |
| `Evaluator` | `evaluator.dfy` | the `GroupBy`/`Find` grouping, every `Contains*` detector, `ContainsStraight` (a method with its loop), `GetHighCard` and `GetBestHand` |
| `Resolver` | `resolver.dfy` | `Showdown`: the category loop and the two elimination passes, as methods over lists of card lists |
| `ShowdownExample` | `showdown_example.dfy` | a concrete hand pair exhibiting the showdown defect under "## Findings" |
| `Players` | `players.dfy` | class `Player`, with its stack and hand arithmetic as functions |
| `Table` | `table.dfy` | `CurrentMaxBet`, `CurrentMinBettable`, seat searches and counts, 32-bit wrap-around, truncating division, bet parsing, and the computer player's betting policy |
| `Steps` | `steps.dfy` | a value `TableState` of the table's fields and one function per table operation giving the state it leaves (`CheckOf`, `BetOf`, `NewDealOf`, `NextOf`, …), with the lemmas about them |
| `Setup` | `setup.dfy` | the setup setters as functions on `TableState` and their round trips |
| `Auto` | `auto.dfy` | `AutoPlay`'s decision logic (discards and bet) and chip conservation across it |
| `Rules` | `ruleset.dfy` | class `RuleSet`: its fields, and one method per operation |
| `Control` | `controller.dfy` | class `GameControl`: the stage field, `Interpret`, the command table and each guarded command |

### How the state is modelled

* **Table state.** `RuleSet` is a class holding the table's fields and a sequence of `Player`
  objects. Every one of its methods changes those fields in place and ensures
  `State() == XOf(old(State()))`. Here `State()` is a snapshot of the fields as a
  `Steps.TableState` value, and `XOf` is the function in `Steps`, `Setup` or `Auto` that says
  what the operation does. The properties of the operations are lemmas about those functions.
  The current player is the index `current` of its seat (`None` for `null`).
* **Exceptions.** An exception the C# code would raise is an explicit `threw` result, with the
  state left as it was at the throw. Examples:
  * `Stack.Pop` on an empty deck;
  * a `null` current player;
  * `theRounds[currentRound + 1]` past the end of the round list (RuleSet.cs:749).
  * `Effect(t, threw)` and `Reply(t, ok, threw)` carry these outcomes.
* **Randomness.** `System.Random` values are parameters:
  * the shuffle is `Shuffle(ordered, picks)`: `ordered` is the list `OrderBy` produced, and
    `picks` are the `rng.Next(0, i)` draws;
  * the computer player's draws are `AiDraws`.
* **Card identity.** Cards are values. The program's reference comparisons of cards are value
  equality here, which is sound because each deal builds one card object per face and suit.
* **Showdown.** The table compares the hands with `Resolver.ShowdownAsWritten`, which is
  Card.Showdown as the code computes it, including the defect under "## Findings".
  `Resolver.Showdown` is the corrected version; it serves only to state what was intended
  (`Steps.BestHandTakesPot`).

## Model

| member | source | states |
|---|---|---|
| Text.Trim | PokerProject/RuleSet.cs:213 | `Trim`'s result is a slice of the input that starts at the first non-space character and has no white space at either end |
| Text.TrimRemovesOnlyWhiteSpace | PokerProject/RuleSet.cs:213 | everything `Trim` removes, before and after its result, is white space |
| Text.TrimIsOnlyTrimmedSlice | PokerProject/RuleSet.cs:213 | any slice with only white space around it and none at its ends is `Trim`'s result, so the result is exactly the input without its leading and trailing white space |
| Text.ToLower | PokerProject/RuleSet.cs:213 | lower-casing keeps the length and maps every character through `LowerChar`: the ASCII capitals and the Kelvin sign U+212A, the one non-ASCII character whose lower-case form is a letter the parsers read |
| Text.TryParseInt | PokerProject/RuleSet.cs:229 | `int.TryParse` only succeeds with a value in the 32-bit range |
| Text.ParseIntToString | PokerProject/RuleSet.cs:292 | parsing the decimal text of any 32-bit integer gives that integer back |
| Text.NatToStringValue | PokerProject/RuleSet.cs:292 | the decimal digits of `n` denote `n` |
| Text.IndexOf | PokerProject/GameController.cs:320 | `IndexOf` finds the first occurrence of the character, and returns none exactly when it does not occur |
| Text.Split | PokerProject/RuleSet.cs:271 | `Split` yields at least one piece, and no piece contains the separator |
| Text.SplitJoin | PokerProject/RuleSet.cs:271 | splitting the separator-join of separator-free names gives the names back |
| Text.LowerCharStable | PokerProject/Card.cs:429 | a lower-cased character is its own lower-case form, and is white space exactly when the original was |
| Text.NormalizeTwice | PokerProject/Card.cs:429 | trimming and lower-casing are idempotent together |
| Text.PositiveToString | PokerProject/RuleSet.cs:289-292 | the text of a positive number is already trimmed and parses back to the number |
| Cards.Ord | PokerProject/Card.cs:24-39 | the face order has 13 places |
| Cards.FaceAtOrd | PokerProject/Card.cs:24-39 | face order and face lookup are inverse |
| Cards.Rank | PokerProject/Card.cs:53 | the nine hand categories are numbered below 9, in enum order |
| Cards.Equals | PokerProject/Card.cs:150-154 | two cards are equal exactly when face and suit agree, and a non-card is never equal |
| Cards.CompareTo | PokerProject/Card.cs:173-178 | the sign of the comparison is the order of the faces, and any non-card compares as 1 |
| Cards.CompareToAntisymmetric | PokerProject/Card.cs:173-178 | swapping the cards negates the comparison |
| Cards.CompareZeroIsNotEquality | PokerProject/Card.cs:173-178 | two aces of different suits compare as 0 yet are not equal |
| Cards.ParseFace | PokerProject/Card.cs:427-446 | a face is returned exactly when the trimmed, lower-cased text is that face's letter (`2`-`9 t j q k a`) |
| Cards.ParseSuit | PokerProject/Card.cs:452-462 | a suit is returned exactly when the trimmed, lower-cased text is that suit's letter (`c d h s`) |
| Cards.KelvinSignIsKing | PokerProject/Card.cs:427-446 | the Kelvin sign lower-cases to `k` and so parses as a king |
| Cards.ParseFaceLetter | PokerProject/Card.cs:427-446 | each face letter parses to its face, in lower and upper case |
| Cards.ParseSuitLetter | PokerProject/Card.cs:452-462 | each suit letter parses to its suit, in lower and upper case |
| Cards.ToStringLetters | PokerProject/Card.cs:113-141 | the letters after the first and second `(` of a card's text are its face and suit letters, and they parse back to the card |
| Cards.LettersOfShape | PokerProject/RuleSet.cs:616-617 | on text shaped like a card's name, the `Split('(')` extraction yields the two bracketed letters |
| Cards.ParseTwoLettersToString | PokerProject/Card.cs:468-478 | the result is non-empty exactly when both letters parse, and it is then the text of the card they name |
| Cards.Deck | PokerProject/Card.cs:503-560 | the deck has 52 distinct cards in suit-then-face order and contains every card |
| Cards.DeckHasEachCardOnce | PokerProject/Card.cs:503-560 | every face-and-suit pair occurs exactly once in the deck |
| Evaluator.SortByFace | PokerProject/Card.cs:240 | sorting by face yields a face-ordered permutation of the hand |
| Evaluator.SortSorted | PokerProject/Card.cs:240 | sorting a face-ordered list leaves it unchanged |
| Evaluator.Members | PokerProject/Card.cs:317 | a group holds exactly the cards of the hand with that key |
| Evaluator.Keys | PokerProject/Card.cs:317 | the group keys are distinct and cover every card of the hand |
| Evaluator.GroupBy | PokerProject/Card.cs:317 | one non-empty group per key, holding that key's members |
| Evaluator.FindIndex | PokerProject/Card.cs:206 | `Find` gives the first group passing the size test, and none exactly when no group passes |
| Evaluator.FindInGroups | PokerProject/Card.cs:206 | a group of a given size exists exactly when some card's group has that size |
| Evaluator.ContainsFourOfAKind | PokerProject/Card.cs:204-208 | a returned group is a face group of exactly 4 cards |
| Evaluator.ContainsThreeOfAKind | PokerProject/Card.cs:268-272 | a returned group is a face group of exactly 3 cards |
| Evaluator.ContainsPair | PokerProject/Card.cs:294-298 | a returned group is a face group of exactly 2 cards |
| Evaluator.ContainsFullHouse | PokerProject/Card.cs:214-219 | a full house needs both a 3-group and a 2-group, and it reports the 3-group |
| Evaluator.ContainsTwoPairs | PokerProject/Card.cs:278-288 | the first pair is the one `ContainsPair` finds, and the second is another 2-group with a card outside the first |
| Evaluator.TwoPairsFaces | PokerProject/Card.cs:278-288 | the two pairs found have different faces, each held exactly twice |
| Evaluator.TwoPairsFound | PokerProject/Card.cs:278-288 | two different faces held exactly twice each are always detected |
| Evaluator.ContainsFlush | PokerProject/Card.cs:225-231 | the flag holds exactly when some suit has at least 5 cards, and a card list is returned only for a suit with more than 5 |
| Evaluator.StraightOf | PokerProject/Card.cs:237-262 | a straight found is 5 face-ordered cards of the hand, and needs at least 5 cards |
| Evaluator.ScanRun | PokerProject/Card.cs:243-253 | the scanning loop ends with `i + start` equal to the hand size and `i` one more than the number of face steps |
| Evaluator.ContainsStraight | PokerProject/Card.cs:237-262 | the loop's result is the closed-form straight of the sorted hand, and the flag says whether there is one |
| Evaluator.StraightAtLoopExit | PokerProject/Card.cs:254-261 | after the loop, `GetRange(start, 5)` is in bounds whenever `i >= 5`, and there is no straight otherwise |
| Evaluator.StraightOfSorted | PokerProject/Card.cs:237-262 | on a sorted hand, the straight is the five cards ending at the last face step, when there are at least 4 steps |
| Evaluator.StraightAcrossGap | PokerProject/Card.cs:243-253 | sorted faces 2,3,5,6,7,8 count as containing the straight 3,5,6,7,8, because the run counter is never reset |
| Evaluator.NoWheelStraight | PokerProject/Card.cs:24-39 | A-2-3-4-5 is not a straight: the ace has no successor and does not wrap to two |
| Evaluator.ContainsStraightFlush | PokerProject/Card.cs:186-198 | a straight flush is the straight of the hand, needs a flush card list, and is all of one suit |
| Evaluator.FiveSuitedIsNoStraightFlush | PokerProject/Card.cs:225-231 | with no suit over 5 cards there is never a straight flush |
| Evaluator.GetHighCard | PokerProject/Card.cs:304-309 | the high card is in the hand, and its face is at least every face in the hand |
| Evaluator.HighCardIsLastSorted | PokerProject/Card.cs:304-309 | the high card is the last card of the face-sorted hand |
| Evaluator.GetBestHand | PokerProject/Card.cs:315-340 | the category returned matches the hand, an empty hand gives (HighCard, null), and two pairs report 4 cards |
| Evaluator.BestHandIsHighest | PokerProject/Card.cs:315-340 | no category matching the hand ranks above the one returned, so categories are tried from the top |
| Evaluator.BestCardsInHand | PokerProject/Card.cs:315-340 | every card in a returned list occurs in the hand |
| Evaluator.DetectorsWithin | PokerProject/Card.cs:186-298 | every detector returns cards of the hand only |
| Evaluator.BestHandCounts | PokerProject/Card.cs:315-340 | four of a kind, three of a kind and a pair correspond to a face held exactly 4, 3 or 2 times |
| Evaluator.FullHouseCounts | PokerProject/Card.cs:214-219 | a full house holds one face exactly 3 times and another exactly twice |
| Resolver.MaxRank | PokerProject/Card.cs:355-370 | `best` bounds the category of every hand seen |
| Resolver.LocateFinds | PokerProject/Card.cs:362 | the reversed `Find` returns the first contender whose cards all lie in the best cards, or none; it throws exactly when the best cards are null and the first contender's cards are not empty |
| Resolver.SoleTop | PokerProject/Card.cs:356-370 | when one hand's category beats all others, the loop keeps only that hand's entry |
| Resolver.RankContenders | PokerProject/Card.cs:352-370 | the category loop ends with the maximum category and with exactly the entries of that category, or reports the exception a `Find` raises |
| Resolver.Holding | PokerProject/Card.cs:385 | `FindAll` keeps exactly the tie-breakers whose high card is the best card |
| Resolver.DropBeaten | PokerProject/Card.cs:388 | a winner is dropped exactly when a tie-breaker of that player has a high card other than the round's best card (a different card, possibly of the same face, as the reference comparison at line 388 makes it) |
| Resolver.RemoveCard | PokerProject/Card.cs:390 | `RemoveAll` of one card keeps every other card and shortens a list that held it |
| Resolver.RemoveAllOf | PokerProject/Card.cs:397 | removing another list's cards keeps exactly the cards not in it |
| Resolver.TopOfIsFirstHighest | PokerProject/Card.cs:377-384 | the best card of a round (`TopOf` over the tie-breakers' high cards in order) is the first high card whose face is the highest, and no tie-breaker's high card has a higher face |
| Resolver.BestHigh | PokerProject/Card.cs:377-384 | the loop computes the round's best card `TopHigh`: the first strictly highest high card among the tie-breakers |
| Resolver.RemoveFromEach | PokerProject/Card.cs:390 | each list read by a surviving tie-breaker loses the best card, and the total size strictly decreases |
| Resolver.Eliminate | PokerProject/Card.cs:375-393 | a pass only shrinks lists, keeps winners among the winners, decides only for a tie-breaker's player, and fails on an empty or unreadable list; when one tie-breaker alone holds the first round's best card, the pass decides for the FIRST tie-breaker's player with nothing changed; a pass that runs out of cards has removed some and emptied a tie-breaker's list |
| Resolver.TopEntriesSeated | PokerProject/Card.cs:352-370 | every entry kept by the category loop names a contender |
| Resolver.TieBreak | PokerProject/Card.cs:373-418 | a player returned by the elimination passes is one of the contenders; when one winner alone holds the highest high card of the winners' best cards, the first winner's player is returned, whoever holds it |
| Resolver.SecondPass | PokerProject/Card.cs:394-418 | the second pass over the players' own hands returns only a contender's player, or null when it too runs out of cards |
| Resolver.Resolve | PokerProject/Card.cs:346-419 | no hands gives null, one hand gives its player, a returned player is a contender, and a sole best category gives what the category loop entered for it |
| Resolver.ShowdownAsWritten | PokerProject/Card.cs:346-419 | the showdown as written: null for no hands, the only player for one, a contender otherwise, and for a sole best category the player the reversed `Find` locates |
| Resolver.Showdown | PokerProject/Card.cs:346-419 | the corrected showdown of the finding below: as above, but a sole best category always returns its own player; the table does not use it |
| Resolver.FirstLeaderEntered | PokerProject/Card.cs:353-370 | a sole best category held by the first contender is reported as that contender's player, and no `Find` throws |
| Resolver.SoleLeaderLost | PokerProject/Card.cs:362 | a sole best hand at a later seat is reported as a draw when no contender's cards lie within its best cards |
| ShowdownExample.PairHand | PokerProject/Card.cs:315-340 | a pair and a kicker evaluate to one pair with the two paired cards |
| ShowdownExample.SingleCard | PokerProject/Card.cs:315-340 | a one-card hand evaluates to high card with that card |
| ShowdownExample.LostPairExample | PokerProject/Card.cs:362 | with 2♣ against 3♣ 3♦ 4♠, the pair is strictly best, yet the showdown as written reports a draw |
| Players.AfterSpend | PokerProject/Player.cs:80-87 | spending lowers the stack by exactly a positive amount and leaves it alone otherwise |
| Players.AfterGain | PokerProject/Player.cs:92-98 | gaining raises the stack by exactly a positive amount and leaves it alone otherwise |
| Players.SpendThenGain | PokerProject/Player.cs:80-98 | spending then gaining a positive amount, or the reverse, restores the stack |
| Players.WithoutDiscards | PokerProject/Player.cs:110-113 | removing discards keeps exactly the cards not marked for discard |
| Players.WithoutDiscardsSize | PokerProject/Player.cs:110-113 | kept cards plus discarded cards make up the hand |
| Players.WithoutDiscardsAppend | PokerProject/Player.cs:110-113 | removing discards works card by card, keeping the order |
| Players.Player.constructor | PokerProject/Player.cs:47-67 | a new player has no name, an empty hand, the given money and type, status `In` and bet 0 |
| Players.Player.Spend | PokerProject/Player.cs:80-87 | only the stack changes, as `AfterSpend` says, and the result says whether money is left |
| Players.Player.Gain | PokerProject/Player.cs:92-98 | only the stack changes, as `AfterGain` says |
| Players.Player.AddCard | PokerProject/Player.cs:103-106 | the card is appended and the earlier cards are unchanged |
| Players.Player.RemoveDiscards | PokerProject/Player.cs:110-113 | the hand becomes its cards not marked for discard |
| Players.Player.SetName | PokerProject/Player.cs:74 | only the name changes |
| Table.Wrap32 | PokerProject/RuleSet.cs:674-677 | 32-bit wrap-around: the result is in range, congruent to the input, and equal to it when already in range |
| Table.AnteDoublingWraps | PokerProject/RuleSet.cs:674-677 | doubling an ante of 2^30 wraps to the most negative integer |
| Table.DivTrunc | PokerProject/RuleSet.cs:764 | division truncates toward zero, as C# does |
| Table.DivTruncShare | PokerProject/RuleSet.cs:764 | each share of a split pot is at most the pot divided evenly |
| Table.MaxBet | PokerProject/RuleSet.cs:44 | `CurrentMaxBet` bounds every player's bet |
| Table.MaxBetAttained | PokerProject/RuleSet.cs:44 | some player's bet equals `CurrentMaxBet` |
| Table.MinBettable | PokerProject/RuleSet.cs:48 | the minimum bettable amount is non-negative, at least the ante and every bet, and is 0, the ante or the maximum bet |
| Table.FindFrom | PokerProject/RuleSet.cs:726 | `Find` from a seat returns the first later seat that passes, or none exactly when none passes |
| Table.CountZero | PokerProject/RuleSet.cs:711 | no seat passes exactly when the count is zero |
| Table.CountUpdate | PokerProject/RuleSet.cs:711 | changing one seat changes the count by that seat's contribution only |
| Table.Positions | PokerProject/RuleSet.cs:734 | `FindAll` lists, in order, exactly the seats that pass |
| Table.StacksUpdate | PokerProject/Player.cs:80-98 | the sum of stacks changes only by the changed seat's money |
| Table.BetRequest | PokerProject/RuleSet.cs:476-491 | `"all"` always bets the whole stack, a refused bet is 0, and an accepted one lies between the minimum and the bet plus the stack |
| Table.NumericBet | PokerProject/RuleSet.cs:484-491 | a numeric bet is accepted exactly when it lies between the minimum and the bet plus the stack, and is then that number |
| Table.Match | PokerProject/RuleSet.cs:494-497 | a player pays the raise or the whole stack, whichever is smaller |
| Table.AiChoice | PokerProject/RuleSet.cs:624-642 | the computer player checks when its stack is at most the minimum, folds below boldness 25, bets all above 95, bets only between the minimum and its stack, and never bets while only checks are allowed |
| Table.AiBetAccepted | PokerProject/RuleSet.cs:638-640 | the amount the computer player chooses is always accepted by `PlaceBet` |
| Steps.PayIntoPot | PokerProject/RuleSet.cs:374-377 | what a player pays leaves the stacks and enters the pot |
| Steps.CheckBetMatches | PokerProject/RuleSet.cs:372-383 | a check changes only the player's seat and the pot, and leaves the player's bet equal to the table's maximum bet |
| Steps.CheckBetConserves | PokerProject/RuleSet.cs:372-383 | a check pays between 0 and the stack, and conserves pot plus stacks |
| Steps.BetOf | PokerProject/RuleSet.cs:473-504 | a refused bet changes nothing |
| Steps.NumericBetAccepted | PokerProject/RuleSet.cs:473-504 | a numeric bet succeeds exactly between `max(CurrentMaxBet, ante)` and the bet plus the stack, and becomes the player's bet |
| Steps.AllInBet | PokerProject/RuleSet.cs:478-498 | `all` succeeds, the bet becomes bet plus stack, and a non-negative stack goes entirely into the pot |
| Steps.BetConserves | PokerProject/RuleSet.cs:494-497 | a bet keeps a non-negative stack non-negative and conserves pot plus stacks |
| Steps.FoldLeavesDeal | PokerProject/RuleSet.cs:508-515 | folding removes exactly one player from the deal, and moves no chips |
| Steps.QuitLeavesGame | PokerProject/RuleSet.cs:520-525 | quitting removes exactly one player from the game, reports the gains against the base money, and moves no chips |
| Steps.LossEndsGame | PokerProject/RuleSet.cs:570-580 | a loss puts only that player out of the game, and the game ends, with the one remaining player as winner, exactly when at most one player remains |
| Steps.VictoryPays | PokerProject/RuleSet.cs:776-786 | the winner gains the pot, and the game ends with that winner exactly when every player other than the current one is broke or out |
| Steps.AnteOutcome | PokerProject/RuleSet.cs:531-546 | the ante pays `min(ante, stack)` into the pot; the result is -1, with the player out of the game, exactly when nothing is left; chips are conserved |
| Steps.SplitPotShares | PokerProject/RuleSet.cs:762-766 | on a draw each player in the deal gains `pot / count` and nobody else changes |
| Steps.SplitLosesRemainder | PokerProject/RuleSet.cs:762-766 | a split pot pays out all but `pot % count` |
| Steps.SweepPutsOut | PokerProject/RuleSet.cs:660-666 | the first loop only puts broke players out of the game, and does nothing once the game is over |
| Steps.SweepEnds | PokerProject/RuleSet.cs:667-672 | the game ends in that loop only when at most one player remains |
| Steps.SweepClears | PokerProject/RuleSet.cs:660-672 | unless the game ends, every player left has money or is out of the game |
| Steps.ResetAfterSweep | PokerProject/RuleSet.cs:687-696 | after the reset, hands and bets are empty, stacks are kept, and a player is in the deal exactly when still in the game with money |
| Steps.ResetFindsPlayer | PokerProject/RuleSet.cs:697 | with two players left in the game, the first of them is found and is in the deal |
| Steps.ShuffledPermutes | PokerProject/RuleSet.cs:681-686 | the shuffle loop pushes a permutation of the ordered list |
| Steps.ShuffledDeck | PokerProject/RuleSet.cs:681-686 | shuffling the 52 cards gives 52 distinct cards, each once |
| Steps.NewDealStarts | PokerProject/RuleSet.cs:657-701 | a new deal empties the pot, restarts the rounds, doubles the ante iff `deal > 0 && anteDoubles`, fills the deck, clears hands and bets, brings back folded players, and starts with a player in the deal |
| Steps.NewDealDeck | PokerProject/RuleSet.cs:681-686 | the new deck holds each of the 52 cards exactly once |
| Steps.NewDealEnds | PokerProject/RuleSet.cs:667-672 | when the game ends at the start of a deal, only players' statuses, the end flag and the winner change |
| Steps.NewDealKeepsStacks | PokerProject/RuleSet.cs:657-701 | a new deal changes no stack |
| Steps.DealMovesTopCard | PokerProject/RuleSet.cs:443-467 | dealing throws exactly on an empty deck, and otherwise moves the top card from the deck to the player's hand |
| Steps.DiscardFindsCard | PokerProject/RuleSet.cs:349-367 | a discard succeeds exactly when the letters name a card the player holds, and changes nothing otherwise |
| Steps.MarkFirstCopy | PokerProject/RuleSet.cs:356-364 | a discard marks the first matching card of the player's hand and changes nothing else |
| Steps.LettersNameCard | PokerProject/RuleSet.cs:616-622 | the two letters taken from a card's text name that card |
| Steps.DrawReplacesDiscards | PokerProject/RuleSet.cs:388-438 | a draw pops as many cards as were discarded, keeps the hand size, leaves no discard, and shrinks the deck by that count |
| Steps.DrawRunsOut | PokerProject/RuleSet.cs:388-438 | with more discards than cards in the deck, the draw takes the whole deck and then throws |
| Steps.RunOutKeepsCards | PokerProject/RuleSet.cs:388-438 | no card is lost when the deck runs out during a draw |
| Steps.PoppedCards | PokerProject/RuleSet.cs:394 | the popped cards and the rest of the deck make up the old deck |
| Steps.ContendersIn | PokerProject/RuleSet.cs:751-760 | each player in the deal, and only those, shows a copy of its hand plus the common cards |
| Steps.ShowdownSettles | PokerProject/RuleSet.cs:749-774 | when the next round is the showdown, the end of the turn settles the deal |
| Steps.NextAfterGameOver | PokerProject/RuleSet.cs:710 | once the game is over, the end of a turn changes nothing |
| Steps.LastPlayerTakesPot | PokerProject/RuleSet.cs:711-717 | with at most one player in the deal, that player takes the pot; with none, it throws |
| Steps.TurnPasses | PokerProject/RuleSet.cs:726-748 | otherwise the turn passes to a player in the deal, and only the current player, the round and the check flag change |
| Steps.UnmatchedBetsGoAround | PokerProject/RuleSet.cs:734-740 | an unmatched betting round restarts at the first player in the deal, checks only |
| Steps.RoundEnds | PokerProject/RuleSet.cs:741-748 | a finished round that is not followed by the showdown starts the next round |
| Steps.DrawSplitsPot | PokerProject/RuleSet.cs:762-766 | a drawn showdown gives each player in the deal `pot / count` |
| Steps.FirstBestHandTakesPot | PokerProject/RuleSet.cs:749-774 | with the showdown as written, a strictly best hand held by the first player in the deal takes the whole pot and nobody else gains |
| Steps.LaterBestHandSplitsPot | PokerProject/RuleSet.cs:749-774 | with the showdown as written, a strictly best hand held by a later player in the deal, whose best cards hold no player's whole hand, is treated as a draw: every player in the deal gets `pot / count` |
| Steps.BestHandTakesPot | PokerProject/RuleSet.cs:749-774 | with the intended showdown (`Resolver.Showdown`), a strictly best hand takes the whole pot wherever it sits |
| Steps.ShowdownPaysPlayersIn | PokerProject/RuleSet.cs:749-774 | for any verdict naming nobody or a player in the deal, a showdown throws only when the resolver does, and otherwise pays only players in the deal and at most the pot |
| Setup.SetGameLoads | PokerProject/RuleSet.cs:209-220 | a game is set exactly when its normalized name is known, loading its configuration; otherwise only the round list is cleared |
| Setup.SetGameNormalizes | PokerProject/RuleSet.cs:209-220 | the name is read trimmed and lower-case, and setting the same game again gives the same state |
| Setup.PlayerCountRoundTrip | PokerProject/RuleSet.cs:226-236 | a number of players is accepted exactly within the game's bounds, and is then stored |
| Setup.TypePrefix | PokerProject/RuleSet.cs:247-253 | letters `a` and `h` make computer and human players, up to the first other letter |
| Setup.PlayerTypesRoundTrip | PokerProject/RuleSet.cs:242-261 | typing the letters of a list of player types seats exactly those players and makes the first one current |
| Setup.PlayerTypesRefused | PokerProject/RuleSet.cs:242-261 | a wrong length or letter is refused with no players seated; an accepted answer seats the stated number, and throws when that number is 0 |
| Setup.PlayerNamesAccepted | PokerProject/RuleSet.cs:267-280 | names are accepted exactly for the empty answer or one name per player, and only names change |
| Setup.PlayerNamesRoundTrip | PokerProject/RuleSet.cs:267-280 | a space-separated list of names gives each player its name |
| Setup.DefaultNamed | PokerProject/RuleSet.cs:274 | the empty answer names each player `Player <index>` |
| Setup.AnteWithinBounds | PokerProject/RuleSet.cs:286-300 | an accepted ante lies strictly between 0 and half the base money, and only the ante changes |
| Setup.AnteRoundTrip | PokerProject/RuleSet.cs:286-300 | a positive ante is accepted exactly below half the base money, and is then stored |
| Setup.AnteDoublesAnswers | PokerProject/RuleSet.cs:306-323 | `yes`, `no` and the empty answer are accepted, and only `yes`/`no` change the doubling flag |
| Auto.AiMarksMarks | PokerProject/RuleSet.cs:608-622 | the computer player's discards mark every picked card, keep the cards and the earlier marks, and mark nothing else |
| Auto.AiDiscardStep | PokerProject/RuleSet.cs:614-621 | discarding by the letters of a card's text marks that card |
| Auto.AiBetPlaced | PokerProject/RuleSet.cs:624-642 | the computer player's choice is carried out: the chosen bet, all in, a fold or a check to the maximum bet |
| Auto.AutoActionConserves | PokerProject/RuleSet.cs:597-647 | every computer action conserves pot plus stacks |
| Auto.DrawConserves | PokerProject/RuleSet.cs:608-623 | the computer player's discard and draw move no chips |
| Rules.ShuffleCards | PokerProject/RuleSet.cs:681-686 | the loop pushes the shuffled deck the picks define |
| Rules.SeatsOf | PokerProject/RuleSet.cs:25 | the table's seats are the players' states, in order |
| Rules.RuleSet.constructor | PokerProject/RuleSet.cs:131-155 | a new table has the given games, no players, no rounds and an empty pot |
| Rules.RuleSet.GameOver | PokerProject/RuleSet.cs:653 | only the game-over flag is set |
| Rules.RuleSet.LoadGame | PokerProject/RuleSet.cs:156-203 | loading a game stores its bounds, money, ante, doubling flag and rounds |
| Rules.RuleSet.SetGame | PokerProject/RuleSet.cs:209-220 | the table changes as `SetGameOf` says |
| Rules.RuleSet.SetNumberOfPlayers | PokerProject/RuleSet.cs:226-236 | the table changes as `SetNumberOfPlayersOf` says |
| Rules.RuleSet.SetPlayerTypes | PokerProject/RuleSet.cs:242-261 | the table changes as `SetPlayerTypesOf` says |
| Rules.RuleSet.AddPlayers | PokerProject/RuleSet.cs:247-254 | the loop seats one player per leading `a`/`h` letter |
| Rules.RuleSet.SetPlayerNames | PokerProject/RuleSet.cs:267-280 | the table changes as `SetPlayerNamesOf` says |
| Rules.RuleSet.SetAnte | PokerProject/RuleSet.cs:286-300 | the table changes as `SetAnteOf` says |
| Rules.RuleSet.SetAnteDoubles | PokerProject/RuleSet.cs:306-323 | the table changes as `SetAnteDoublesOf` says |
| Rules.RuleSet.CheckBet | PokerProject/RuleSet.cs:372-383 | the table changes as `CheckOf` says and the amount paid is returned |
| Rules.RuleSet.PlaceBet | PokerProject/RuleSet.cs:473-504 | the table changes as `BetOf` says and the success and amount are returned |
| Rules.RuleSet.FoldBet | PokerProject/RuleSet.cs:508-515 | the table changes as `FoldOf` says |
| Rules.RuleSet.QuitGame | PokerProject/RuleSet.cs:520-525 | the table changes as `QuitOf` says and the gains are returned |
| Rules.RuleSet.PlaceNecessaryAnte | PokerProject/RuleSet.cs:531-546 | the table changes as `AnteOf` says and the ante paid, or -1, is returned |
| Rules.RuleSet.DiscardCard | PokerProject/RuleSet.cs:349-367 | the table changes as `DiscardCardOf` says |
| Rules.RuleSet.DealCard | PokerProject/RuleSet.cs:443-467 | the table changes as `DealOf` says |
| Rules.RuleSet.DealCardCommon | PokerProject/RuleSet.cs:410-415 | the top card goes to the common cards, or it throws on an empty deck |
| Rules.RuleSet.DrawCards | PokerProject/RuleSet.cs:388-438 | the table changes as `DrawOf` says |
| Rules.RuleSet.PopCards | PokerProject/RuleSet.cs:392-401 | the loop pops the cards one by one into the hand, and runs the deck out and throws when it has too few |
| Rules.RuleSet.Loss | PokerProject/RuleSet.cs:570-580 | the table changes as `LossOf` says |
| Rules.RuleSet.Victory | PokerProject/RuleSet.cs:776-786 | the table changes as `VictoryOf` says |
| Rules.RuleSet.NewDeal | PokerProject/RuleSet.cs:657-701 | the table changes as `NewDealOf` says |
| Rules.RuleSet.Sweep | PokerProject/RuleSet.cs:660-672 | the first loop of the new deal |
| Rules.RuleSet.PrepareDeal | PokerProject/RuleSet.cs:673-696 | the pot, rounds and deck are cleared, the ante doubled when due, the deck shuffled, and the seats reset |
| Rules.RuleSet.ResetPlayers | PokerProject/RuleSet.cs:687-696 | every seat is reset for the new deal |
| Rules.RuleSet.NextPlayerRoundOrDeal | PokerProject/RuleSet.cs:708-775 | the table changes as `NextOf` says; when the showdown is due, the verdict is what Card.Showdown as written promises on the players in the deal (`ShowdownResult`) |
| Rules.RuleSet.PassOn | PokerProject/RuleSet.cs:726-748 | the table changes as `PassOf` says |
| Rules.RuleSet.LastPlayerWins | PokerProject/RuleSet.cs:711-717 | the table changes as `LastStanding` says |
| Rules.RuleSet.ShowdownAndDeal | PokerProject/RuleSet.cs:749-774 | the verdict is that of Card.Showdown as written (`ShowdownResult`), and the table settles as `Settle` says |
| Rules.RuleSet.Contenders | PokerProject/RuleSet.cs:751-760 | the hands shown are those of `ContendersOf` |
| Rules.RuleSet.SharePot | PokerProject/RuleSet.cs:764 | each player in the deal gains the share |
| Rules.RuleSet.AutoPlay | PokerProject/RuleSet.cs:597-647 | nothing happens when the game is over or the player is not a computer player in the deal; otherwise the table changes as the computer action and then `NextOf` say |
| Rules.RuleSet.AutoAction | PokerProject/RuleSet.cs:601-643 | the table changes as `AutoActionOf` says |
| Rules.RuleSet.AiDiscard | PokerProject/RuleSet.cs:608-622 | the table changes as `AiDiscards` says |
| Rules.RuleSet.AiBet | PokerProject/RuleSet.cs:624-642 | the table changes as `AiBetOf` says |
| Control.Following | PokerProject/GameController.cs:240-315 | each setup stage leads to the next one in order, and the last one leads to play |
| Control.SetupTakesSixAnswers | PokerProject/GameController.cs:240-315 | six accepted answers lead from the game choice to play |
| Control.CommandWord | PokerProject/GameController.cs:319 | the command word contains no space |
| Control.SplitAtFirstSpace | PokerProject/GameController.cs:319-320 | the command and argument, joined by a space, give back the line; a line without a space is all command |
| Control.CommandLineRoundTrip | PokerProject/GameController.cs:319-320 | a command word followed by a space and any argument splits back into the two |
| Control.Word | PokerProject/GameController.cs:49-62 | every command has a word in the command table that maps back to it |
| Control.TypedCommand | PokerProject/GameController.cs:319-329 | typing a command's word and an argument runs that command with that argument |
| Control.RefusedOutOfRound | PokerProject/GameController.cs:342-537 | a command that reads the round throws when there is no round, and changes nothing outside its rounds |
| Control.TurnEndsOnlyWhenAccepted | PokerProject/GameController.cs:392-541 | the turn ends only after an allowed action in its round, and only with a current player or in a common-card round |
| Control.AcceptedActionsEndTurn | PokerProject/GameController.cs:433-541 | an allowed check, fold, ante or quit ends the turn; a bet ends it exactly when betting is open, the argument is not empty and the table accepts the bet |
| Control.EndsTurnOrChangesNothing | PokerProject/GameController.cs:433-541 | a command other than `next` and `discard` that does not end the turn changes nothing |
| Control.DiscardKeepsTurn | PokerProject/GameController.cs:342-365 | a discard never ends the turn, changes nothing when it throws, and keeps the current player |
| Control.NextDealsOneCard | PokerProject/GameController.cs:392-431 | in a dealing round, `next` ends the turn exactly when the deck is not empty, dealing its top card |
| Control.GameControl.constructor | PokerProject/GameController.cs:28 | before `Initialize`, the stage field holds its default, the game choice |
| Control.GameControl.Initialize | PokerProject/GameController.cs:39-48 | the setup questions are skipped: the stage becomes play and a new deal starts as `NewDealOf` says |
| Control.GameControl.Interpret | PokerProject/GameController.cs:236-331 | during setup, the answer goes to the stage's setter and the stage moves on only when it is accepted, starting a deal after the last one; in play, a known command reacts as its guards say, and an unknown one changes nothing; a turn that reaches the showdown settles with the verdict of Card.Showdown as written |
| Control.GameControl.SetupStep | PokerProject/GameController.cs:240-315 | the setup half of `Interpret` |
| Control.GameControl.Answer | PokerProject/GameController.cs:242-306 | the answer goes to the setter of the stage |
| Control.GameControl.StartGame | PokerProject/GameController.cs:543-548 | play starts with a new deal |
| Control.GameControl.PlayStep | PokerProject/GameController.cs:319-329 | the play half of `Interpret`, with the showdown as written at the end of the turn |
| Control.GameControl.Execute | PokerProject/GameController.cs:324-325 | a command reacts as `CommandAct` says, and the turn ends with one end-of-turn step exactly when the action was accepted |
| Control.GameControl.Perform | PokerProject/GameController.cs:49-62 | the command table dispatches each command to its method |
| Control.GameControl.CheckBet | PokerProject/GameController.cs:433-451 | a check is refused outside a betting round, and otherwise checks |
| Control.GameControl.FoldBet | PokerProject/GameController.cs:452-463 | a fold is refused outside a betting round, and otherwise folds |
| Control.GameControl.PlaceBet | PokerProject/GameController.cs:464-498 | a bet is refused outside a betting round, while only checks are allowed, or with no amount, and otherwise goes to the table |
| Control.GameControl.PlaceNecessaryAnte | PokerProject/GameController.cs:515-530 | the ante is refused outside an ante round, and otherwise paid |
| Control.GameControl.QuitGame | PokerProject/GameController.cs:531-542 | quitting is refused outside betting and ante rounds, and otherwise quits |
| Control.GameControl.DiscardCard | PokerProject/GameController.cs:342-365 | a discard is refused outside a drawing round or with no card, and otherwise goes to the table |
| Control.GameControl.AcceptCurrentRound | PokerProject/GameController.cs:392-432 | `next` deals or draws as the round says, and does nothing in any other round |
| Control.GameControl.DealOne | PokerProject/GameController.cs:396-406 | dealing one card to the current player, or throwing |

## Left out

- All WinForms code, `Program.cs`, the `theView` writes and every `Display*` method (output only).
  The `help` command and the display-only helpers `GetUpCards`, `PossibleActions`, `DisplayHelp`
  and `HandValue` are left out too; `help` changes nothing. `status` and `cards` are modelled
  only as the exception they raise with no current player.
- The bet dialog (`ExampleBetView`) is not part of this model.
- The XML rule file. The `RuleSet` constructor and `LoadGame` read it through System.Xml; here the
  available games are a map of `GameConfig` values given to the constructor.
- `System.Random`. The shuffle (`Shuffle.ordered` and `Shuffle.picks`) and the computer player's
  draws (`AiDraws`) are parameters. `FromDeck`, saying the ordered list is a permutation of `Deck`,
  is assumed only where the deck's contents matter.
- The recursion `Prompt` → `AutoPlay` → `NextPlayerRoundOrDeal` → `Prompt`. Each operation ends
  where the code calls `Prompt`.
- `Environment.Exit` for `quit` is the `exits` result of `Interpret`; the process does not end.
- The card lists that `DealCard*`, `DrawCards*` and `DealCardCommon` return are used only for
  display and are not modelled.
- Control.GameControl.Execute: the command methods return whether the turn ended, and `Execute`
  then calls `NextPlayerRoundOrDeal` once. The C# calls it at the end of each command method; the
  effect is the same.
- Rules.RuleSet.AutoPlay: requires a current player and well-formed random draws. The program
  reaches it only through `Prompt`, which first uses the current player.
- Resolver.TieBreak: states that a returned player is a contender and, through
  `Resolver.Eliminate`, how a round with a sole holder of the best card ends. It does not name the
  winner of a tie that takes several rounds or reaches the second pass.
- Resolver.SecondPass: removes cards from copies of the players' hands (Card.cs:396-397, 413). The
  C# removes them from the players' own `Hand` lists. That removal stays visible when:
  - the showdown's victory ends the game (RuleSet.cs:781-785), as no new deal clears the hands;
  - the new deal ends the game in its first loop (RuleSet.cs:667-671), as it returns before
    clearing the hands at line 693;
  - the second pass throws part way, where the model leaves every hand untouched.
- Text.TryParseInt: refuses trailing `'\0'` characters after the digits, which .NET's `int.TryParse`
  accepts ("12\0" reads as 12). Console answers do not carry them.
- Text.ToLower: maps only the ASCII capitals and the Kelvin sign. .NET's culture-aware `ToLower`
  also maps other non-ASCII capitals (`Ä` to `ä`, and `I` to a dotless `ı` under a Turkish culture).
  This matters only for game names (RuleSet.cs:213), player-type answers (RuleSet.cs:245) and the
  `all` bet (RuleSet.cs:477), which the model then compares as typed. No other character
  lower-cases to a face or suit letter.
- Integer width. Only the ante doubling (`Table.Wrap32`) and the range of `int.TryParse` are 32-bit.
  Stacks, bets and the pot are unbounded integers elsewhere.
- Evaluator.GetHighCard: .NET's `List.Sort` is not stable, so which of several cards of the top
  face it returns is unspecified. The model returns the last one in input order.
- Reference comparison of cards (`==` at Card.cs:385-413) is value equality. Each deal creates
  each card once, and the common cards are shared by every hand.
- Three behaviours of the code are modelled as written:
  - `CheckBet` sets the player's bet to `CurrentMaxBet` even when the stack cannot cover it
    (RuleSet.cs:372-383);
  - the computer player discards `rng.Next(count)` of its discardable cards, so never all of them
    (RuleSet.cs:611);
  - `Victory` ends the game by testing the players other than the current player, not other than
    the winner (RuleSet.cs:781).
- Control.GameControl.Initialize: skips the setup questions, as the code does (GameController.cs:44-46),
  so `SetupStep` is not reached from it; the setup stage machine is modelled from the constructor's
  game choice.

## Findings

| source | as written | input that shows it | evidently intended | confidence | as-written member | corrected member |
|---|---|---|---|---|---|---|
| PokerProject/Card.cs:362,367 | a contender after the first is entered with the player of `theHands.Find(cp => cp.cards.All(c => best.Contains(c)))`. That finds a player whose whole hand lies inside the best cards, usually nobody, so the entry gets a `null` player. | seat 0 holds 2♣; seat 1 holds 3♣ 3♦ 4♠. Seat 1's pair is the only best hand, yet no hand lies within {3♣, 3♦}, so `Showdown` returns `null` and the table splits the pot as a draw. | the contender's own player is entered, so seat 1 wins | not executed | ShowdownExample.LostPairExample, Resolver.ShowdownAsWritten, Steps.LaterBestHandSplitsPot | Resolver.Showdown, Steps.BestHandTakesPot |
