# Uno for Telegram group chats: a Dafny model of the rules engine and the lobby

The bot runs a game of Uno in a Telegram group chat. Users open a lobby with `/newgame`
and join under a nickname. Once enough players have joined, `/startgame` seats them in
the order they joined, deals seven cards each and turns up a starting card. From then on
the `Game` object enforces the turn rules:
- playing a card that matches the top of the discard pile by colour or value, or any wild card;
- Skip, Reverse, Draw Two and Wild Draw Four;
- choosing a wild colour;
- drawing a card;
- calling Uno;
- moving the turn on, with the pending penalty cards dealt to the next player.

The model has seven modules:

- `Wrappers`: the `Option` type.
- `Cards`: a card's value and colour (`Card` in uno.py).
- `Players`: a player's hand, and the list operations `pop(i)` and `insert(i, c)` on it
  (`Player` in uno.py).
- `Decks`: the card sets a deck is built from, the draw and discard piles, and the class
  `Deck` with its loops (`Deck` in uno.py).
- `Rules`: the state-changing operations of `Game` as pure step functions on a value
  `State`, and lemmas stating what each step promises. `set_skip_pending` and
  `set_uno_pending` have no step function: they only set flags, and their methods state
  the new state directly.
- `Games`: the class `Game`. Each of its methods with a step function is proved to move
  the game's state (`Snapshot()`) exactly as that `Rules` step does.
- `Lobby`: nickname validation and the class `ChatData`. `ChatData` holds the chat's
  pending flag, its pending players and the running game, and its methods are the
  lobby commands of telegram_interaction.py. The pending players are a sequence in
  insertion order, as the source's dictionary keeps it, because that order becomes the
  seat order.

The model keeps the behaviour of the code as written, including these quirks:
- Every card of an extra set (more than ten players) takes the set number as its value.
- A pending Uno call only prints a message and blocks neither a play nor a draw.
- `play_card` and `return_card` silently drop a card without a valid colour.
- With more than ten players, the starting card can be the uncoloured numeral of an extra set. `play_card` drops it, so the game starts with an empty discard pile, on which any card may be played.
- `double_deck` refills only when both piles are empty.
- `draw_and_continue` answers `None`, not `False`, while a wild colour is pending.

## Model

| member | source | states |
|---|---|---|
| Cards.Card.IsWild | uno.py:74-77 | a Wild (13) or Wild Draw Four (14); a wild card is never a numeral |
| Cards.Card.HasValidColour | uno.py:68-69 | the colour is R, Y, G or B; a valid colour is one letter, so an uncoloured wild has none |
| Cards.Card.HasValidValue | uno.py:71-72 | the value is not negative; every wild card has a valid value |
| Cards.Card.SetColour | uno.py:80-82 | a wild card takes the new colour and keeps its value; any other card is unchanged |
| Cards.SetColourTwice | uno.py:80-82 | recolouring keeps a card wild or not wild, and a second recolouring overrides the first |
| Players.RemovedAtCards | uno.py:29-32 | taking card `i` out of a hand loses exactly that card and no other |
| Players.InsertAt | uno.py:43-44 | `list.insert` grows the hand by one and puts the card at Python's clamped insert position |
| Players.InsertAtCards | uno.py:43-44 | inserting adds exactly the inserted card |
| Players.InsertUndoesRemove | uno.py:288-291 | putting a removed card back at its index restores the hand exactly, so a rejected play is undone |
| Players.RemoveUndoesInsert | uno.py:29-32 | removing at an in-range index what was just inserted there gives the hand back |
| Players.Player.constructor | uno.py:19-21 | a player keeps its seat number and hand |
| Players.Player.RemoveCard | uno.py:29-32 | an index inside the hand returns that card and removes it; any other index returns None and changes nothing |
| Players.Player.AddCard | uno.py:40-41 | the card is appended to the hand |
| Players.Player.InsertCard | uno.py:43-44 | the hand becomes `InsertAt` of the old hand |
| Decks.NewPileSize | uno.py:102-125 | a new deck holds 100 cards plus 100 for every player beyond ten |
| Decks.StandardSetWellFormed | uno.py:105-113 | every standard card has a value 0-14; wild cards are uncoloured; the others carry one of R, Y, G, B |
| Decks.ExtraSetValues | uno.py:116-125 | every card of extra set `i` has value `i` |
| Decks.ExtraSetHasUncolouredCard | uno.py:116-125 | each extra set holds an uncoloured card of value `i` |
| Decks.NewPileNumerals | uno.py:102-125 | a new deck holds 80 cards of value below 10, plus 100 for each of the first ten extra sets |
| Decks.NumeralsOfPermutation | uno.py:127 | shuffling keeps the number of cards of value below 10 |
| Decks.DrawNAt | uno.py:154-158 | the `i`-th card drawn is the `i`-th card from the top of the draw pile |
| Decks.DrawNSplit | uno.py:154-158 | drawing `a` and then `b` cards draws the same cards as drawing `a + b` at once |
| Decks.DrawNConserves | uno.py:154-158 | the drawn cards and the cards left make up the old draw pile |
| Decks.Top | uno.py:160-163 | there is a top card exactly when the discard pile is not empty, and it is the last card played |
| Decks.WildAlwaysPlayable | uno.py:179-185 | a wild card may be played on anything |
| Decks.Playable | uno.py:179-185 | any card may start an empty discard pile and a wild card may always be played; any other accepted card shares the top card's colour or value |
| Decks.PlayableSymmetric | uno.py:179-185 | between two non-wild cards, `a` may follow `b` exactly when `b` may follow `a` |
| Decks.WildSet | uno.py:191-193 | `set_wild` changes at most the top card's colour, never its value or any other card |
| Decks.WildSetColours | uno.py:191-193 | a valid colour on a wild top card recolours it, and a card of that colour then matches it |
| Decks.BuildStandardSet | uno.py:105-113 | the loop builds exactly the standard set |
| Decks.AppendExtraSets | uno.py:116-125 | the loop appends exactly the extra sets, in order |
| Decks.Shuffle | uno.py:127 | the result is a permutation of its input |
| Decks.BuildNewPile | uno.py:102-127 | the new draw pile is a permutation of the standard set plus the extra sets |
| Decks.Deck.constructor | uno.py:102-127 | a new deck has the shuffled new pile and an empty discard pile |
| Decks.Deck.DoubleDeck | uno.py:129-140 | when both piles are empty, the draw pile becomes a shuffled standard set; otherwise nothing changes |
| Decks.Deck.DrawCard | uno.py:147-152 | a non-empty draw pile loses its top card, which is returned; with both piles empty, the card comes from a shuffled standard set |
| Decks.Deck.DrawNCards | uno.py:154-158 | `n` cards are drawn (none for negative `n`); they are the top `n` cards in the order popped when the pile holds them |
| Decks.Deck.DrawHand | uno.py:165-169 | seven cards are drawn, the top seven when the pile holds them |
| Decks.Deck.TopmostCard | uno.py:160-163 | the top of the discard pile, or None when it is empty |
| Decks.Deck.PlayCard | uno.py:171-177 | a wild card, or one with a valid colour and value, goes on the discard pile; any other card is dropped |
| Decks.Deck.CheckValidPlay | uno.py:179-185 | true exactly on an empty discard pile, on a colour or value match with the top card, or for a wild card |
| Decks.Deck.ReturnCard | uno.py:187-189 | a card with a valid colour and value goes to the bottom of the draw pile; any other card is dropped |
| Decks.Deck.SetWild | uno.py:191-193 | the discard pile becomes `WildSet` of the old pile; the draw pile is unchanged |
| Rules.SeatOf | uno.py:264-266 | the position of the first occurrence of a user id, or None exactly when the user is not in the game |
| Rules.SeatOfAt | uno.py:213-217 | with distinct ids, the user added `k`-th sits at seat `k` |
| Rules.Wrap | uno.py:340 | Python's `%` by the number of players lands on a seat |
| Rules.PlayStep | uno.py:263-308 | `play_card` as a step: it never draws, never moves the turn and never touches a pending Uno call; it plays at most one card and keeps the number of seats |
| Rules.PlayRejectedChangesNothing | uno.py:263-291 | an unknown user, a player not on turn, a pending wild colour, a bad index or a non-matching card leaves the whole game unchanged |
| Rules.PlayAcceptedEffects | uno.py:293-306 | an accepted play takes the card from the hand; a wild card waits for its colour; a Skip sets skip and ignores the rest; a Reverse flips direction; a Draw Two or Wild Draw Four adds one to its counter |
| Rules.PlayAcceptedStep | uno.py:282-306 | an accepted play is removal from the hand, then the discard pile, then the card's effects |
| Rules.PlayConservesCards | uno.py:282-293 | a play loses no card, except a card the discard pile drops, which is the only one lost |
| Rules.PlayKeepsInv | uno.py:263-308 | a play keeps the seats, the turn on a seat and a pending wild colour only over a wild top card |
| Rules.NextTurnStep | uno.py:338-357 | `next_turn` as a step: the turn lands on a seat of the game, both penalty counters are cleared, and the direction and the discard pile are kept |
| Rules.NextTurnPlain | uno.py:338-340 | with no penalty pending, the turn moves `step` seats in the current direction modulo the number of players, and nothing else changes |
| Rules.NextTurnPenalty | uno.py:341-357 | the player at the landing seat draws 2 cards per Draw Two and 4 per Wild Draw Four from the top of the pile; no other hand changes; both counters end at 0 |
| Rules.NextTurnTurn | uno.py:338-357 | the turn ends `step` seats on, plus one more seat for each non-zero penalty counter |
| Rules.NextTurnKeepsInv | uno.py:338-357 | the turn always ends on a seat of the game |
| Rules.NextTurnConservesCards | uno.py:343-357 | penalty cards move from the draw pile to a hand; none is created or lost |
| Rules.DrawStep | uno.py:359-379 | `draw_and_continue` as a step: the answer is True exactly when the user may draw; the turn and the discard pile are kept |
| Rules.DrawEffects | uno.py:359-379 | the draw succeeds exactly when the user is in the game, on turn and no wild colour is pending; it then moves the top card of the draw pile to that hand and changes nothing else, keeping every card; the answer is None exactly for the player on turn while a wild colour is pending; a refused draw changes nothing |
| Rules.WildColourStep | uno.py:381-402 | `set_wild_color` as a step: hands, draw pile, turn and the number of cards played are kept |
| Rules.WildColourEffects | uno.py:381-402 | the colour is accepted exactly for the player on turn who played the wild card, with a valid colour; then the top card takes it and the wait ends; otherwise nothing changes |
| Rules.UnoCallStep | uno.py:322-336 | `check_uno_caller` as a step: the answer is -1, 0 or 1, and -1 exactly for a user not in the game; the turn and the discard pile are kept |
| Rules.UnoCallEffects | uno.py:322-336 | -1 and no change for a non-member; 0 when another player calls: the pending player draws the top card of the draw pile onto the end of the hand, nothing else changes but the cleared call, and no card is created or lost; 1 when the pending player calls; both clear the call |
| Rules.UnoCallByOther | uno.py:327-332 | when another player calls, the pending player's hand keeps its cards and gains one, and no card is created or lost |
| Rules.Cut | uno.py:229-231 | the loop stops on a card of value below 10 |
| Rules.CutKeepsCards | uno.py:229-231 | the loop only moves cards: the starting card and the pile left over come from the cards it began with |
| Rules.InitialCardStep | uno.py:226-234 | `play_initial_card` as a step: with a card already played nothing changes; otherwise at most one card ends up played; hands and turn are kept |
| Rules.InitialCardEffects | uno.py:226-232 | at most one card is played, and a played starting card is a coloured numeral; an uncoloured numeral of an extra set is turned up and dropped, leaving the discard pile empty; hands, turn and flags are unchanged |
| Rules.UncolouredStarterDropped | uno.py:226-232 | an uncoloured numeral on top of the draw pile is taken off it and dropped, so the game starts with an empty discard pile |
| Rules.InitialCardConservesCards | uno.py:226-232 | turning up the starting card creates no card |
| Games.DealFits | uno.py:201-217 | a new deck always holds enough cards for the seven-card hands |
| Games.DrawInto | uno.py:343-345 | the penalty loop moves the top `times * size` cards of the draw pile into the player's hand |
| Games.DealtPileHasNumeral | uno.py:226-231 | after dealing for at most 154 players, the draw pile still holds a card of value below 10, so the starting-card loop ends |
| Games.Deal | uno.py:213-217 | each seat in order gets a fresh player with seven cards from the top of the pile; no card is lost |
| Games.NewPlayer | uno.py:216 | a fresh player at the given seat receives the top seven cards |
| Games.TakeTop | uno.py:147-152 | a draw from a non-empty pile returns its top card |
| Games.TurnUpNumeral | uno.py:228-231 | the loop returns the card and leaves the pile that `TurnUp` specifies |
| Games.GiveAll | uno.py:344-345 | every drawn card is appended to the hand, in order |
| Games.PenaltyDraws | uno.py:343-357 | the Draw Two penalties, then the Wild Draw Four penalties, each into the same hand, together make one `PenaltyStep` |
| Games.Game.constructor | uno.py:197-218 | seats follow the order of the ids; each hand has seven cards; hands and draw pile together are a shuffled new deck; all flags and counters start cleared |
| Games.Game.PlayInitialCard | uno.py:226-234 | the state moves as `InitialCardStep` says, and the game stays valid |
| Games.Game.CheckForWin | uno.py:236-240 | returns the first player in seat order with an empty hand, unless a wild colour is pending; None exactly when there is none |
| Games.Game.GetPlayerByNum | uno.py:256-261 | returns a player at that seat, or None exactly when no player has that seat |
| Games.Game.PlayerAtSeat | uno.py:256-261 | in a valid game, seat `n` holds `players[n]` |
| Games.Game.PlayCard | uno.py:263-308 | the state moves as `PlayStep` says, and the game stays valid |
| Games.Game.PlayFromHand | uno.py:282-308 | for the player on turn, the state moves as `PlayStep` says |
| Games.Game.PlayOnDiscard | uno.py:293-306 | the discard pile gets the card when it keeps it, then the card's effects apply |
| Games.Game.ApplyEffects | uno.py:294-306 | the state moves as `PlayEffects` says |
| Games.Game.RemoveFromSeat | uno.py:282 | only the hand at seat `k` changes: it loses card `cardId`, which is returned |
| Games.Game.InsertIntoSeat | uno.py:290 | only the hand at seat `k` changes: the card is inserted at `i` |
| Games.Game.DrawToSeat | uno.py:378 | only the hand at seat `k` changes: it gets the top card of the draw pile |
| Games.Game.PenaltyToSeat | uno.py:343-345 | only the hand at seat `k` changes: it gets the top `times * size` cards |
| Games.Game.SetSkipPending | uno.py:316-320 | only the skip flag changes |
| Games.Game.SetUnoPending | uno.py:404-410 | only the Uno flag and the pending id change |
| Games.Game.CheckUnoCaller | uno.py:322-336 | the result and the new state are as `UnoCallStep` says |
| Games.Game.NextTurn | uno.py:338-357 | the state moves as `NextTurnStep` says, and the game stays valid |
| Games.Game.DrawPenalties | uno.py:341-357 | after the turn has moved, the state moves as `PenaltyStep` says |
| Games.Game.DrawTwos | uno.py:343-349 | two cards per pending Draw Two; a non-zero counter moves the turn on one seat and is reset |
| Games.Game.DrawFours | uno.py:351-357 | four cards per pending Wild Draw Four; a non-zero counter moves the turn on one seat and is reset |
| Games.Game.DrawAndContinue | uno.py:359-379 | the result and the new state are as `DrawStep` says |
| Games.Game.SetWildColour | uno.py:381-402 | the result and the new state are as `WildColourStep` says |
| Lobby.AssignedLookup | telegram_interaction.py:88 | after a join, the user's nickname is the new one and every other lookup is unchanged; ids stay distinct; a new user is added last |
| Lobby.RemovedLookup | telegram_interaction.py:109 | after a leave, the user is gone, every other lookup is unchanged, ids stay distinct and the lobby has one entry fewer |
| Lobby.NameTakenIff | telegram_interaction.py:63-65 | the scan finds the name exactly when some pending player's nickname matches it ignoring case |
| Lobby.IsNicknameValid | telegram_interaction.py:55-71 | a valid nickname is 3-15 characters long; a pending player's nickname is accepted only from its own user; a new user's name must be free and not a number |
| Lobby.NicknameValidIff | telegram_interaction.py:55-71 | a nickname is valid exactly when it is 3-15 characters long and is either the user's own nickname ignoring case, or matches no pending nickname and is not a number |
| Lobby.JoinKeepsNamesDistinct | telegram_interaction.py:55-89 | accepting only valid nicknames keeps all pending nicknames distinct ignoring case |
| Lobby.RemovedKeepsNamesDistinct | telegram_interaction.py:103-109 | a leave keeps the nicknames distinct |
| Lobby.ChatData.constructor | telegram_interaction.py:37-41 | a fresh chat has no pending game, no pending players and no game |
| Lobby.ChatData.ResetChatData | telegram_interaction.py:31-34 | clears the pending flag, the pending players and the game |
| Lobby.ChatData.NewGame | telegram_interaction.py:37-52 | with no game pending or running, opens an empty pending game; otherwise nothing changes |
| Lobby.ChatData.Join | telegram_interaction.py:74-96 | while a game is pending, records the user under the requested nickname (the words or the first name) exactly when it is valid; otherwise nothing changes |
| Lobby.ChatData.Leave | telegram_interaction.py:99-111 | while a game is pending, removes a pending user; otherwise nothing changes |
| Lobby.NewStartedGame | telegram_interaction.py:166-172 | the new game seats the given users in order, deals seven cards each, plays at most one starting card, which is then a coloured numeral (an uncoloured numeral of an extra set is turned up and dropped, leaving the discard pile empty), has no penalty, skip, wild colour or Uno call pending, and holds no card the new deck did not |
| Lobby.ChatData.StartGame | telegram_interaction.py:146-177 | starts exactly when a game is pending, there are at least two players and every one can be messaged; then seats them in joining order, deals seven cards each, plays at most one starting card, which is then a coloured numeral (an uncoloured numeral of an extra set is turned up and dropped, leaving the discard pile empty), with turn 0, forward direction and no penalty, skip, wild colour or Uno call pending, and holds only cards of the new deck; otherwise nothing changes |
| Lobby.ChatData.EndGame | telegram_interaction.py:180-197 | cancels a pending game but keeps its players; ends a running game and clears the lobby; with neither, nothing changes |

## Left out

- Messages to the chat and to players, and the texts read from `static_responses/`, are not modelled. This includes `send_message`, `get_state`, `__str__`, `get_formatted_hand` and `list_players`.
- The bot token, the Telegram API and chat ids are not modelled. A failed private message at game start is the parameter `reachable` of `StartGame`.
- The display names of the players are not modelled: `players_and_names`, `waiting_for_wild_name` and `get_player_name_by_num`. The game keeps only the ordered user ids.
- The game's reference to the lobby's pending dictionary is not modelled. The game copies the ids when it is created; the dictionary cannot change while a game runs, since leaving needs a pending game.
- `get_player_id_by_num` and the trivial getters are not modelled. `is_uno_pending`, `is_skip_pending` and `is_wild_pending` read a field; `get_hand` and `get_id` read a field of `Player`.
- `random.shuffle` is modelled as some permutation; which one is not modelled.
- Decks.Deck.DrawCard, Decks.Deck.DrawNCards and Decks.Deck.DrawHand: `reshuffle` is excluded by the precondition (for the last two, `played != [] ==> n <= |deck|`, with n = 7 for `DrawHand`). With an empty draw pile and a non-empty discard pile, it assigns the `None` returned by `random.shuffle` to the draw pile, and the `pop` that follows fails.
- Games.Game.NextTurn, Games.Game.DrawAndContinue and Games.Game.CheckUnoCaller require the draw pile to hold the cards drawn. An empty pile during a game leads to the failing `reshuffle`. The refill by `double_deck`, which needs both piles empty, is not modelled at game level.
- Games.Game.SetSkipPending and Games.Game.SetUnoPending take a `bool`, so the source's check that the value is a Boolean is not modelled.
- Games.Game.CheckUnoCaller requires a card to draw and a pending id that names a player when another player calls. Otherwise the source fails on `players[""]` or on the draw.
- Games.Game.SetWildColour requires the id to be in the game. For any other id the source fails on `None.get_id()`.
- Games.Game.NextTurn requires at least one player. The source divides by the number of players.
- Decks.WildSet and Decks.Deck.SetWild require a non-empty discard pile when the colour is valid. On an empty pile uno.py:192 fails on `None.is_wild()`. `set_wild_color` calls `set_wild` only while a wild colour is pending, and the game's invariant then keeps a wild card on top.
- An empty `waiting_for_wild_id` or `uno_pending_id` (`""`) is modelled as `None`.
- Lobby.NewStartedGame requires at most 154 players, for the same reason as `StartGame`.
- Lobby.ChatData.StartGame requires at most 154 players when it would start. With more, the dealt hands can hold every card of value below 10, and the loop of `play_initial_card` then never returns.
- Lobby.IsNicknameValid: Python's `float(name)` is the parameter `numeric`. Python float parsing is not modelled.
- Lobby.Lower folds only the ASCII letters A-Z. Unicode case folding of `str.lower` is not modelled.
- The other command handlers of telegram_interaction.py and the webhook set-up are not modelled.
