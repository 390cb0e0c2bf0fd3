/** One game of Uno (`Game` in uno.py): the players in seat order, the deck and the flags
    that carry a turn's effects over to the next. Every operation is proved to follow its
    step function in module `Rules`. */
module Games {
  import opened Wrappers
  import opened Cards
  import opened Players
  import opened Decks
  import opened Rules

  /** Number of cards `draw_hand` deals. */
  const HandSize := 7

  /** The cards of a new deck for `n` players always cover the seven-card hands. */
  lemma DealFits(n: nat)
    ensures HandSize * n <= 100 + 100 * ExtraSetCount(n)
  {
  }

  /** The loop `for i in range(times): for c in deck.draw_n_cards(size): player.add_card(c)`
      of `next_turn`. */
  method DrawInto(player: Player, deck: Deck, times: nat, size: nat)
    requires times * size <= |deck.deck|
    modifies player, deck
    ensures deck.deck == old(deck.deck)[..|old(deck.deck)| - times * size]
    ensures player.hand == old(player.hand) + DrawN(old(deck.deck), times * size)
    ensures deck.played == old(deck.played)
  {
    var i := 0;
    while i < times
      invariant 0 <= i <= times
      invariant i * size <= times * size
      invariant deck.deck == old(deck.deck)[..|old(deck.deck)| - i * size]
      invariant player.hand == old(player.hand) + DrawN(old(deck.deck), i * size)
      invariant deck.played == old(deck.played)
    {
      MulLe(i + 1, times, size);
      assert (i + 1) * size == i * size + size;
      var cards := deck.DrawNCards(size);
      DrawNSplit(old(deck.deck), i * size, size);
      assert old(deck.deck)[..|old(deck.deck)| - i * size][..|old(deck.deck)| - i * size - size]
          == old(deck.deck)[..|old(deck.deck)| - (i + 1) * size];
      GiveAll(player, cards);
      i := i + 1;
    }
  }

  /** The most players for which the cards left after dealing always include a card of
      value below 10: the 80 numerals of the standard set and the 100 of each of the first
      ten extra sets outnumber the seven-card hands up to here. With more players
      `play_initial_card` can find no such card and never returns. */
  const MaxPlayers := 154

  /** Seven cards per hand. */
  lemma {:induction false} FlattenSize(hs: seq<seq<Card>>)
    requires forall k :: 0 <= k < |hs| ==> |hs[k]| == HandSize
    ensures |Flatten(hs)| == HandSize * |hs|
  {
    if hs != [] {
      FlattenSize(hs[..|hs| - 1]);
    }
  }

  /** Once the hands are dealt from a new deck for at most `MaxPlayers` players, the draw
      pile still holds a numeral, so `play_initial_card` ends. */
  lemma DealtPileHasNumeral(pile: seq<Card>, hs: seq<seq<Card>>)
    requires IsPermutation(pile + Flatten(hs), NewPile(|hs|)) && |hs| <= MaxPlayers
    requires forall k :: 0 <= k < |hs| ==> |hs[k]| == HandSize
    ensures HasNumeral(pile)
  {
    FlattenSize(hs);
    NumeralsOfPermutation(pile + Flatten(hs), NewPile(|hs|));
    NumeralsConcat(pile, Flatten(hs));
    NewPileNumerals(|hs|);
    NumeralsWitness(pile);
  }

  /** The loop of `Game.__init__`: one player with a seven-card hand per seat. */
  method Deal(d: Deck, n: nat) returns (ps: seq<Player>, ghost hs: seq<seq<Card>>)
    requires d.played == [] && HandSize * n <= |d.deck|
    modifies d
    ensures |ps| == n && |hs| == n
    ensures forall j :: 0 <= j < n ==> fresh(ps[j]) && ps[j].seat == j && ps[j].hand == hs[j] && |hs[j]| == HandSize
    ensures d.played == []
    ensures d.deck == old(d.deck)[..|old(d.deck)| - HandSize * n]
    ensures multiset(d.deck) + multiset(Flatten(hs)) == multiset(old(d.deck))
  {
    ps, hs := [], [];
    var count := 0;
    while count < n
      invariant 0 <= count <= n && |ps| == count && |hs| == count
      invariant forall j :: 0 <= j < count ==> fresh(ps[j]) && ps[j].seat == j
      invariant forall j :: 0 <= j < count ==> ps[j].hand == hs[j] && |hs[j]| == HandSize
      invariant d.played == []
      invariant d.deck == old(d.deck)[..|old(d.deck)| - HandSize * count]
      invariant multiset(d.deck) + multiset(Flatten(hs)) == multiset(old(d.deck))
    {
      var before := d.deck;
      var p, hand := NewPlayer(d, count);
      assert forall j :: 0 <= j < count ==> ps[j].hand == hs[j];
      DealOne(old(d.deck), before, hs, hand, d.deck);
      assert d.deck == old(d.deck)[..|old(d.deck)| - HandSize * (count + 1)];
      ps := ps + [p];
      hs := hs + [hand];
      count := count + 1;
    }
  }

  /** `Player(num, deck.draw_hand())`: a new player at seat `seat` with the top seven cards. */
  method NewPlayer(d: Deck, seat: nat) returns (p: Player, ghost hand: seq<Card>)
    requires d.played == [] && HandSize <= |d.deck|
    modifies d
    ensures fresh(p) && p.seat == seat && p.hand == hand && |hand| == HandSize
    ensures d.played == [] && d.deck == old(d.deck)[..|old(d.deck)| - HandSize]
    ensures multiset(hand) + multiset(d.deck) == multiset(old(d.deck))
  {
    var h := d.DrawHand();
    DrawNConserves(old(d.deck), HandSize);
    p := new Player(seat, h);
    hand := h;
  }

  /** `draw_card` on a draw pile that is not empty: the top card. */
  method TakeTop(d: Deck) returns (c: Card)
    requires d.deck != []
    modifies d
    ensures c == Last(old(d.deck)) && d.deck == old(d.deck)[..|old(d.deck)| - 1]
    ensures d.played == old(d.played)
  {
    c := d.DrawCard();
  }

  /** The loop of `play_initial_card`: draw until a card below 10 turns up, putting each
      other card drawn back underneath the draw pile. */
  method TurnUpNumeral(d: Deck) returns (card: Card)
    requires d.played == [] && HasNumeral(d.deck)
    modifies d
    ensures (card, d.deck) == TurnUp(old(d.deck))
    ensures d.played == []
  {
    NumeralInPrefix(d.deck);
    ghost var init, last := d.deck[..|d.deck| - 1], Last(d.deck);
    ghost var front: seq<Card> := [];
    ghost var back := init;
    card := TakeTop(d);
    while card.value >= 10
      invariant d.deck == front + back && d.played == []
      invariant card.value < 10 || HasNumeral(back)
      invariant Cut(front, back, card) == Cut([], init, last)
      decreases |back|
    {
      NumeralInPrefix(back);
      d.ReturnCard(card);
      PutBackThenDraw(Returned(card), front, back);
      front := Returned(card) + front;
      card := TakeTop(d);
      back := back[..|back| - 1];
    }
  }

  /** A card put back underneath the draw pile is not the next one drawn. */
  lemma PutBackThenDraw(r: seq<Card>, front: seq<Card>, back: seq<Card>)
    requires back != []
    ensures var p := r + (front + back);
      Last(p) == Last(back) && p[..|p| - 1] == (r + front) + back[..|back| - 1]
  {
    var p := r + (front + back);
    assert p == (r + front) + back[..|back| - 1] + [Last(back)];
  }

  /** Dealing one more hand keeps every card of the new deck. */
  lemma DealOne(pile: seq<Card>, before: seq<Card>, hs: seq<seq<Card>>, hand: seq<Card>, after: seq<Card>)
    requires multiset(before) + multiset(Flatten(hs)) == multiset(pile)
    requires multiset(hand) + multiset(after) == multiset(before)
    ensures multiset(after) + multiset(Flatten(hs + [hand])) == multiset(pile)
  {
    assert (hs + [hand])[..|hs|] == hs;
    assert Flatten(hs + [hand]) == Flatten(hs) + hand;
  }

  /** `for c in cards: player.add_card(c)`. */
  method GiveAll(player: Player, cards: seq<Card>)
    modifies player
    ensures player.hand == old(player.hand) + cards
  {
    for j := 0 to |cards|
      invariant player.hand == old(player.hand) + cards[..j]
    {
      player.AddCard(cards[j]);
      assert cards[..j + 1] == cards[..j] + [cards[j]];
    }
    assert cards[..|cards|] == cards;
  }

  /** One of the two penalty draws of `next_turn`: hand `k` draws `size` cards for each of
      `count` pending cards, and a non-zero count moves the turn on one seat in direction
      `dir`. */
  function CounterDraw(s: State, k: nat, count: nat, size: nat, dir: int): State
    requires k < |s.hands| && size * count <= |s.pile|
  {
    s.(hands := s.hands[k := s.hands[k] + DrawN(s.pile, size * count)],
       pile := s.pile[..|s.pile| - size * count],
       turn := if count > 0 then Wrap(s.turn + dir, |s.hands|) else s.turn)
  }

  /** Drawing the Draw Two penalty and resetting its counter, then doing the same for the
      Wild Draw Four penalty, both into the hand whose turn it was, ends where
      `PenaltyStep` does. */
  lemma PenaltyDraws(s: State)
    requires 0 <= s.turn < |s.hands| && Penalty(s) <= |s.pile|
    ensures var s1 := CounterDraw(s, s.turn, s.twos, 2, Direction(s)).(twos := 0);
      CounterDraw(s1, s.turn, s.fours, 4, Direction(s)).(fours := 0) == PenaltyStep(s)
  {
    var r := PenaltyStep(s);
    var s1 := CounterDraw(s, s.turn, s.twos, 2, Direction(s)).(twos := 0);
    var s2 := CounterDraw(s1, s.turn, s.fours, 4, Direction(s)).(fours := 0);
    assert s2.hands == r.hands && s2.pile == r.pile by {
      DrawsCompose(s.hands, s.pile, s.turn, 2 * s.twos, 4 * s.fours);
    }
  }

  /** Drawing `x` cards and then `y` more into hand `k` is drawing `x + y` at once. */
  lemma DrawsCompose(hs: seq<seq<Card>>, pile: seq<Card>, k: nat, x: nat, y: nat)
    requires k < |hs| && x + y <= |pile|
    ensures var h1, p1 := hs[k := hs[k] + DrawN(pile, x)], pile[..|pile| - x];
      && h1[k := h1[k] + DrawN(p1, y)] == hs[k := hs[k] + DrawN(pile, x + y)]
      && p1[..|p1| - y] == pile[..|pile| - (x + y)]
  {
    DrawNSplit(pile, x, y);
    assert hs[k] + DrawN(pile, x) + DrawN(pile[..|pile| - x], y) == hs[k] + DrawN(pile, x + y);
  }

  class Game {
    /** The players by seat: `players[k]` has seat `k`. */
    const players: seq<Player>
    /** The user ids in the order the players were added, which is their seat order. */
    const ids: seq<UserId>
    const deck: Deck
    var turn: int
    var reversed: bool
    var drawTwosPending: nat
    var drawFoursPending: nat
    var skipPending: bool
    var waitingForWild: bool
    var waitingForWildId: Option<UserId>
    var unoPending: bool
    var unoPendingId: Option<UserId>

    /** The hands, by seat. */
    function Hands(): (hs: seq<seq<Card>>)
      reads players
      ensures |hs| == |players|
    {
      seq(|players|, k reads players requires 0 <= k < |players| => players[k].hand)
    }

    /** The game's state as a value. */
    function Snapshot(): State
      reads this, players, deck
    {
      State(Hands(), deck.deck, deck.played, turn, reversed, drawTwosPending, drawFoursPending,
            skipPending, waitingForWild, waitingForWildId, unoPending, unoPendingId)
    }

    /** One player per user id, seated in order; the turn on a seat; a pending wild colour
        only with a wild card on top of the discard pile. */
    predicate Valid()
      reads this, players, deck
    {
      Seated() && Distinct(ids) && Inv(Snapshot(), |ids|)
    }

    /** One player per user id, and `players[k]` sits at seat `k`. */
    predicate Seated() {
      |players| == |ids| && forall k :: 0 <= k < |players| ==> players[k].seat == k
    }

    /** `remove_card(card_id)` on the player at seat `k`. */
    method RemoveFromSeat(k: nat, cardId: int) returns (card: Option<Card>)
      requires Seated() && k < |players|
      modifies players[k]
      ensures 0 <= cardId < |old(Hands())[k]| ==>
                (card == Some(old(Hands())[k][cardId]) && Hands() == old(Hands())[k := RemovedAt(old(Hands())[k], cardId)])
      ensures !(0 <= cardId < |old(Hands())[k]|) ==> card == None && Hands() == old(Hands())
    {
      ghost var hs := Hands();
      card := players[k].RemoveCard(cardId);
      assert Hands() == hs[k := players[k].hand] by {
        forall j | 0 <= j < |players| && j != k ensures players[j].hand == hs[j] {
          assert players[j].seat == j;
        }
      }
    }

    /** `insert_card(c, card_id)` on the player at seat `k`. */
    method InsertIntoSeat(k: nat, c: Card, i: int)
      requires Seated() && k < |players|
      modifies players[k]
      ensures Hands() == old(Hands())[k := InsertAt(old(Hands())[k], c, i)]
    {
      ghost var hs := Hands();
      players[k].InsertCard(c, i);
      assert Hands() == hs[k := players[k].hand] by {
        forall j | 0 <= j < |players| && j != k ensures players[j].hand == hs[j] {
          assert players[j].seat == j;
        }
      }
    }

    /** `add_card(deck.draw_card())` for the player at seat `k`, with cards left to draw. */
    method DrawToSeat(k: nat)
      requires Seated() && k < |players| && deck.deck != []
      modifies players[k], deck
      ensures Hands() == old(Hands())[k := old(Hands())[k] + [Last(old(deck.deck))]]
      ensures deck.deck == old(deck.deck)[..|old(deck.deck)| - 1] && deck.played == old(deck.played)
    {
      ghost var hs := Hands();
      var c := TakeTop(deck);
      players[k].AddCard(c);
      assert Hands() == hs[k := players[k].hand] by {
        forall j | 0 <= j < |players| && j != k ensures players[j].hand == hs[j] {
          assert players[j].seat == j;
        }
      }
    }

    /** The penalty draws of `next_turn` for the player at seat `k`. */
    method PenaltyToSeat(player: Player, ghost k: nat, times: nat, size: nat)
      requires Seated() && k < |players| && player == players[k] && times * size <= |deck.deck|
      modifies players[k], deck
      ensures Hands() == old(Hands())[k := old(Hands())[k] + DrawN(old(deck.deck), times * size)]
      ensures deck.deck == old(deck.deck)[..|old(deck.deck)| - times * size] && deck.played == old(deck.played)
    {
      ghost var hs := Hands();
      DrawInto(player, deck, times, size);
      assert Hands() == hs[k := players[k].hand] by {
        forall j | 0 <= j < |players| && j != k ensures players[j].hand == hs[j] {
          assert players[j].seat == j;
        }
      }
    }

    /** `Game(chat_id, players)`: a new deck for the number of users, and a player with a
        seven-card hand for each user, seated in order. */
    constructor (ids: seq<UserId>)
      requires Distinct(ids)
      ensures Valid()
      ensures this.ids == ids
      ensures forall k :: 0 <= k < |ids| ==> |Hands()[k]| == HandSize
      ensures IsPermutation(deck.deck + Flatten(Hands()), NewPile(|ids|))
      ensures |deck.deck| == 100 + 100 * ExtraSetCount(|ids|) - HandSize * |ids|
      ensures deck.played == [] && turn == 0 && !reversed && drawTwosPending == 0 && drawFoursPending == 0
      ensures !skipPending && !waitingForWild && waitingForWildId == None && !unoPending && unoPendingId == None
      ensures fresh(deck) && forall k :: 0 <= k < |ids| ==> fresh(players[k])
    {
      var d := new Deck(|ids|);
      ghost var pile := d.deck;
      DealFits(|ids|);
      var ps, hs := Deal(d, |ids|);
      players := ps;
      this.ids := ids;
      deck := d;
      turn := 0;
      reversed := false;
      drawTwosPending := 0;
      drawFoursPending := 0;
      skipPending := false;
      waitingForWild := false;
      waitingForWildId := None;
      unoPending := false;
      unoPendingId := None;
      new;
      assert Hands() == hs;
      assert forall k :: 0 <= k < |players| ==> players[k].seat == k;
      assert Inv(Snapshot(), |ids|);
    }

    /** `play_initial_card`: when nothing has been played, turn up a card of value below 10
        and play it, putting the other cards drawn back underneath. When the draw pile
        holds no such card but some card `return_card` keeps, the source loops forever;
        a card of value below 10 in the draw pile rules that out. */
    method PlayInitialCard()
      requires Valid()
      requires deck.played == [] ==> HasNumeral(deck.deck)
      modifies deck
      ensures Valid()
      ensures Snapshot() == InitialCardStep(old(Snapshot()))
    {
      ghost var s := Snapshot();
      if deck.TopmostCard().None? {
        var card := TurnUpNumeral(deck);
        deck.PlayCard(card);
        assert Hands() == s.hands;
      }
    }

    /** `check_for_win`: the first user, in seat order, whose hand is empty, unless a wild
        colour is still to be set. */
    method CheckForWin() returns (w: Option<UserId>)
      requires Valid()
      ensures w.Some? ==> (!waitingForWild
        && exists k :: 0 <= k < |ids| && ids[k] == w.value && players[k].hand == []
                       && forall j :: 0 <= j < k ==> players[j].hand != [])
      ensures w.None? ==> waitingForWild || forall k :: 0 <= k < |ids| ==> players[k].hand != []
    {
      var k := 0;
      while k < |ids|
        invariant 0 <= k <= |ids|
        invariant waitingForWild || forall j :: 0 <= j < k ==> players[j].hand != []
      {
        if |players[k].hand| <= 0 && !waitingForWild {
          return Some(ids[k]);
        }
        k := k + 1;
      }
      return None;
    }

    /** `get_player_by_num(n)`: the first player whose seat is `n`, if any. */
    method GetPlayerByNum(n: int) returns (p: Option<Player>)
      ensures p.Some? ==> exists k :: 0 <= k < |players| && players[k] == p.value && players[k].seat == n
                                     && forall j :: 0 <= j < k ==> players[j].seat != n
      ensures p.None? ==> forall k :: 0 <= k < |players| ==> players[k].seat != n
    {
      var k := 0;
      while k < |players|
        invariant 0 <= k <= |players|
        invariant forall j :: 0 <= j < k ==> players[j].seat != n
      {
        if players[k].seat == n {
          return Some(players[k]);
        }
        k := k + 1;
      }
      return None;
    }

    /** In a valid game, seat `n` holds `players[n]`. */
    lemma PlayerAtSeat(n: int, p: Option<Player>)
      requires Valid()
      requires p.Some? ==> exists k :: 0 <= k < |players| && players[k] == p.value && players[k].seat == n
      requires p.None? ==> forall k :: 0 <= k < |players| ==> players[k].seat != n
      ensures p == if 0 <= n < |players| then Some(players[n]) else None
    {
      if 0 <= n < |players| {
        assert players[n].seat == n;
      }
    }

    /** `play_card(id, card_id)`. */
    method PlayCard(id: UserId, cardId: int)
      requires Valid()
      modifies this, players, deck
      ensures Valid()
      ensures Snapshot() == PlayStep(old(Snapshot()), ids, id, cardId)
    {
      ghost var s := Snapshot();
      PlayKeepsInv(s, ids, id, cardId);
      var seat := SeatOf(ids, id);
      if seat.None? {
        return;
      }
      var player := players[seat.value];
      if player.seat != turn {
        return;
      }
      if waitingForWild {
        return;
      }
      PlayFromHand(id, cardId);
    }

    /** The part of `play_card` after the checks on the player: take the card out of the
        hand, put it back if it does not match the discard pile, and otherwise play it. */
    method PlayFromHand(id: UserId, cardId: int)
      requires Seated() && |players| == |Hands()| && 0 <= turn < |players|
      requires SeatOf(ids, id) == Some(turn) && !waitingForWild
      modifies this, players, deck
      ensures Snapshot() == PlayStep(old(Snapshot()), ids, id, cardId)
    {
      ghost var s := Snapshot();
      var card := RemoveFromSeat(turn, cardId);
      if card.None? {
        assert Snapshot() == s;
        return;
      }
      var c := card.value;
      if !deck.CheckValidPlay(c) {
        InsertIntoSeat(turn, c, cardId);
        PlayRejectedChangesNothing(s, ids, id, cardId);
        return;
      }
      PlayAcceptedStep(s, ids, id, cardId);
      PlayOnDiscard(id, c);
    }

    /** `deck.play_card(card)` followed by the card's effects. */
    method PlayOnDiscard(id: UserId, c: Card)
      modifies this, deck
      ensures Snapshot() == PlayEffects(old(Snapshot()).(played := old(deck.played) + (if KeptOnDiscard(c) then [c] else [])), id, c)
    {
      ghost var s := Snapshot();
      deck.PlayCard(c);
      assert Snapshot() == s.(played := s.played + (if KeptOnDiscard(c) then [c] else []));
      ApplyEffects(id, c);
    }

    /** The tail of `play_card` once the card is on the discard pile: a wild card waits for
        its colour, then a Skip sets the skip flag and ends the play; otherwise a Reverse
        turns the direction round and a Draw Two or Wild Draw Four adds to its count. */
    method ApplyEffects(id: UserId, c: Card)
      modifies this
      ensures Snapshot() == PlayEffects(old(Snapshot()), id, c)
    {
      if c.IsWild() {
        waitingForWild := true;
        waitingForWildId := Some(id);
      }
      if c.value == 10 {
        skipPending := true;
        return;
      }
      if c.value == 11 {
        reversed := !reversed;
      }
      if c.value == 12 {
        drawTwosPending := drawTwosPending + 1;
      }
      if c.value == 14 {
        drawFoursPending := drawFoursPending + 1;
      }
    }

    /** `set_skip_pending(val)`. */
    method SetSkipPending(val: bool)
      requires Valid()
      modifies this
      ensures Valid()
      ensures Snapshot() == old(Snapshot()).(skip := val)
    {
      skipPending := val;
    }

    /** `set_uno_pending(val, id)`. */
    method SetUnoPending(val: bool, id: UserId)
      requires Valid()
      modifies this
      ensures Valid()
      ensures Snapshot() == old(Snapshot()).(unoPending := val, unoId := Some(id))
    {
      unoPending := val;
      unoPendingId := Some(id);
    }

    /** `check_uno_caller(id)`. */
    method CheckUnoCaller(id: UserId) returns (code: int)
      requires Valid() && UnoCallDefined(Snapshot(), ids, id)
      modifies this, players, deck
      ensures Valid()
      ensures (code, Snapshot()) == UnoCallStep(old(Snapshot()), ids, id)
    {
      ghost var s := Snapshot();
      if id !in ids {
        return -1;
      }
      if Some(id) != unoPendingId {
        var seat := SeatOf(ids, unoPendingId.value).value;
        DrawToSeat(seat);
        unoPending := false;
        unoPendingId := None;
        return 0;
      }
      unoPending := false;
      unoPendingId := None;
      return 1;
    }

    /** `next_turn(step)`. The source divides by the number of players. */
    method NextTurn(step: int)
      requires Valid() && |players| > 0 && Penalty(Snapshot()) <= |deck.deck|
      modifies this, players, deck
      ensures Valid()
      ensures Snapshot() == NextTurnStep(old(Snapshot()), step)
    {
      ghost var s := Snapshot();
      NextTurnKeepsInv(s, step);
      var moved := if reversed then -step else step;  // step * dir
      turn := Wrap(turn + moved, |players|);
      assert turn == Landing(s, step);
      assert Snapshot() == s.(turn := Landing(s, step));
      var next := GetPlayerByNum(turn);
      PlayerAtSeat(turn, next);
      DrawPenalties(next.value);
    }

    /** The rest of `next_turn`: `player`, whose turn it now is, draws the pending
        penalties, and each non-zero counter moves the turn on and is reset. */
    method DrawPenalties(player: Player)
      requires Seated() && 0 <= turn < |players| && player == players[turn]
      requires Penalty(Snapshot()) <= |deck.deck|
      modifies this, players, deck
      ensures Snapshot() == PenaltyStep(old(Snapshot()))
    {
      ghost var s := Snapshot();
      ghost var k := turn;
      var dir := if reversed then -1 else 1;
      DrawTwos(player, turn, dir);
      DrawFours(player, k, dir);
      PenaltyDraws(s);
    }

    /** `player` (at seat `k`) draws two cards per pending Draw Two; a non-zero counter
        moves the turn on one seat in direction `dir` and is reset. */
    method DrawTwos(player: Player, ghost k: nat, dir: int)
      requires Seated() && k < |players| && player == players[k] && 2 * drawTwosPending <= |deck.deck|
      modifies this, players[k], deck
      ensures Snapshot() == CounterDraw(old(Snapshot()), k, old(drawTwosPending), 2, dir).(twos := 0)
    {
      PenaltyToSeat(player, k, drawTwosPending, 2);
      if drawTwosPending > 0 {
        turn := Wrap(turn + dir, |players|);
        drawTwosPending := 0;
      }
    }

    /** The same for the Wild Draw Four counter, four cards each. */
    method DrawFours(player: Player, ghost k: nat, dir: int)
      requires Seated() && k < |players| && player == players[k] && 4 * drawFoursPending <= |deck.deck|
      modifies this, players[k], deck
      ensures Snapshot() == CounterDraw(old(Snapshot()), k, old(drawFoursPending), 4, dir).(fours := 0)
    {
      PenaltyToSeat(player, k, drawFoursPending, 4);
      if drawFoursPending > 0 {
        turn := Wrap(turn + dir, |players|);
        drawFoursPending := 0;
      }
    }

    /** `draw_and_continue(id)`. */
    method DrawAndContinue(id: UserId) returns (r: Option<bool>)
      requires Valid() && (MayDraw(Snapshot(), ids, id) ==> deck.deck != [])
      modifies players, deck
      ensures Valid()
      ensures (r, Snapshot()) == DrawStep(old(Snapshot()), ids, id)
    {
      ghost var s := Snapshot();
      var seat := SeatOf(ids, id);
      if seat.None? {
        return Some(false);
      }
      var player := players[seat.value];
      if player.seat != turn {
        return Some(false);
      }
      if waitingForWild {
        return None;
      }
      DrawToSeat(turn);
      return Some(true);
    }

    /** `set_wild_color(id, c)`. The source fails on an id that is not in the game. */
    method SetWildColour(id: UserId, c: string) returns (ok: bool)
      requires Valid() && id in ids
      modifies this, deck
      ensures Valid()
      ensures (ok, Snapshot()) == WildColourStep(old(Snapshot()), ids, id, c)
    {
      var player := players[SeatOf(ids, id).value];
      if player.seat != turn {
        return false;
      }
      if !waitingForWild {
        return false;
      }
      if Some(id) != waitingForWildId {
        return false;
      }
      if c !in Colours {
        return false;
      }
      deck.SetWild(c);
      waitingForWild := false;
      waitingForWildId := None;
      return true;
    }
  }
}
