/** The turn rules of `Game` in uno.py, as functions from one game state to the next.
    The class `Games.Game` is proved to follow them; the lemmas here say what they promise. */
module Rules {
  import opened Wrappers
  import opened Cards
  import opened Players
  import opened Decks

  /** A Telegram user id. */
  type UserId = int

  /** Everything `Game` keeps that its operations change: the hands by seat, the draw pile,
      the discard pile, whose turn it is and the pending flags and counters.
      An empty `wildId` or `unoId` stands for the source's `""`. */
  datatype State = State(
    hands: seq<seq<Card>>,
    pile: seq<Card>,
    played: seq<Card>,
    turn: int,
    reversed: bool,
    twos: nat,
    fours: nat,
    skip: bool,
    waitingForWild: bool,
    wildId: Option<UserId>,
    unoPending: bool,
    unoId: Option<UserId>)

  /** What holds between operations for a game of `n` seats. */
  predicate Inv(s: State, n: nat) {
    |s.hands| == n
    && 0 <= s.turn && (s.turn < n || s.turn == 0)
    && (s.waitingForWild ==> s.played != [] && Last(s.played).IsWild())
  }

  // ---------------------------------------------------------------------------
  // Seats
  // ---------------------------------------------------------------------------

  predicate Distinct(ids: seq<UserId>) {
    forall i, j :: 0 <= i < j < |ids| ==> ids[i] != ids[j]
  }

  /** The seat of user `id`: its position in the order players were added. */
  function SeatOf(ids: seq<UserId>, id: UserId): (r: Option<nat>)
    ensures r.None? <==> id !in ids
    ensures r.Some? ==> r.value < |ids| && ids[r.value] == id
    ensures r.Some? ==> forall j :: 0 <= j < r.value ==> ids[j] != id
  {
    if ids == [] then None
    else if ids[0] == id then Some(0)
    else match SeatOf(ids[1..], id)
      case None => None
      case Some(k) => Some(k + 1)
  }

  /** With distinct ids, the seat of the user at seat `k` is `k`. */
  lemma SeatOfAt(ids: seq<UserId>, k: nat)
    requires Distinct(ids) && k < |ids|
    ensures SeatOf(ids, ids[k]) == Some(k)
  {
  }

  /** `(a % n)` with Python's floor semantics, which for a positive `n` is Dafny's. */
  function Wrap(a: int, n: int): (r: int)
    requires n > 0
    ensures 0 <= r < n
  {
    a % n
  }

  /** The source's `dir`: 1, or -1 once the direction is reversed. */
  function Direction(s: State): int {
    if s.reversed then -1 else 1
  }

  // ---------------------------------------------------------------------------
  // Counting cards
  // ---------------------------------------------------------------------------

  /** All hands, one after the other. */
  function Flatten(hs: seq<seq<Card>>): seq<Card> {
    if hs == [] then [] else Flatten(hs[..|hs| - 1]) + hs[|hs| - 1]
  }

  /** Every card the state holds: draw pile, discard pile and hands. */
  function AllCards(s: State): multiset<Card> {
    multiset(s.pile) + multiset(s.played) + multiset(Flatten(s.hands))
  }

  /** Replacing one hand changes the cards in all hands by exactly that hand's change. */
  lemma {:induction false} FlattenUpdate(hs: seq<seq<Card>>, k: nat, h: seq<Card>)
    requires k < |hs|
    ensures multiset(Flatten(hs[k := h])) + multiset(hs[k]) == multiset(Flatten(hs)) + multiset(h)
  {
    var n := |hs|;
    var hs' := hs[k := h];
    assert Flatten(hs) == Flatten(hs[..n - 1]) + hs[n - 1];
    assert Flatten(hs') == Flatten(hs'[..n - 1]) + hs'[n - 1];
    if k == n - 1 {
      assert hs'[..n - 1] == hs[..n - 1];
    } else {
      assert hs'[..n - 1] == hs[..n - 1][k := h];
      assert hs[..n - 1][k] == hs[k];
      FlattenUpdate(hs[..n - 1], k, h);
      var a, b := Flatten(hs[..n - 1][k := h]), Flatten(hs[..n - 1]);
      assert Flatten(hs') == a + hs[n - 1];
      assert Flatten(hs) == b + hs[n - 1];
      assert multiset(a) + multiset(hs[k]) == multiset(b) + multiset(h);
      assert multiset(Flatten(hs')) == multiset(a) + multiset(hs[n - 1]);
      assert multiset(Flatten(hs)) == multiset(b) + multiset(hs[n - 1]);
      calc {
        multiset(Flatten(hs')) + multiset(hs[k]);
        (multiset(a) + multiset(hs[k])) + multiset(hs[n - 1]);
        (multiset(b) + multiset(h)) + multiset(hs[n - 1]);
        multiset(Flatten(hs)) + multiset(h);
      }
    }
  }

  /** Adding cards to one hand adds exactly those cards to all hands. */
  lemma FlattenGrow(hs: seq<seq<Card>>, k: nat, x: seq<Card>)
    requires k < |hs|
    ensures multiset(Flatten(hs[k := hs[k] + x])) == multiset(Flatten(hs)) + multiset(x)
  {
    FlattenUpdate(hs, k, hs[k] + x);
    calc {
      multiset(Flatten(hs[k := hs[k] + x])) + multiset(hs[k]);
      multiset(Flatten(hs)) + multiset(hs[k] + x);
      (multiset(Flatten(hs)) + multiset(x)) + multiset(hs[k]);
    }
    Cancel(multiset(Flatten(hs[k := hs[k] + x])), multiset(Flatten(hs)) + multiset(x), multiset(hs[k]));
  }

  lemma Cancel(a: multiset<Card>, b: multiset<Card>, c: multiset<Card>)
    requires a + c == b + c
    ensures a == b
  {
    forall e: Card ensures a[e] == b[e] {
      assert (a + c)[e] == (b + c)[e];
    }
  }

  /** A step that moves the cards `x` from the draw pile into hand `k` keeps every card. */
  lemma MoveToHand(s: State, r: State, k: nat, x: seq<Card>)
    requires k < |s.hands|
    requires r.hands == s.hands[k := s.hands[k] + x]
    requires multiset(r.pile) + multiset(x) == multiset(s.pile) && r.played == s.played
    ensures AllCards(r) == AllCards(s)
  {
    FlattenGrow(s.hands, k, x);
  }

  // ---------------------------------------------------------------------------
  // play_card
  // ---------------------------------------------------------------------------

  /** The card-value effects of an accepted play, in the source's order; a Skip returns
      before the others are looked at. */
  function PlayEffects(s: State, id: UserId, c: Card): State {
    var s1 := if c.IsWild() then s.(waitingForWild := true, wildId := Some(id)) else s;
    if c.value == 10 then s1.(skip := true)
    else
      s1.(reversed := if c.value == 11 then !s1.reversed else s1.reversed,
          twos := if c.value == 12 then s1.twos + 1 else s1.twos,
          fours := if c.value == 14 then s1.fours + 1 else s1.fours)
  }

  /** `Game.play_card(id, card_id)`. A pending Uno call does not stop the play. A play
      never draws, never moves the turn, leaves a pending Uno call alone and puts at most
      one card on the discard pile. */
  function PlayStep(s: State, ids: seq<UserId>, id: UserId, cardId: int): (r: State)
    requires |s.hands| == |ids|
    ensures |r.hands| == |s.hands| && r.pile == s.pile && r.turn == s.turn
    ensures r.unoPending == s.unoPending && r.unoId == s.unoId
    ensures |s.played| <= |r.played| <= |s.played| + 1
  {
    match SeatOf(ids, id)
    case None => s
    case Some(seat) =>
      if seat != s.turn || s.waitingForWild then s
      else
        var hand := s.hands[seat];
        if !(0 <= cardId < |hand|) then s
        else
          var c := hand[cardId];
          var rest := RemovedAt(hand, cardId);
          if !Playable(s.played, c) then
            s.(hands := s.hands[seat := InsertAt(rest, c, cardId)])
          else
            PlayEffects(s.(hands := s.hands[seat := rest],
                           played := s.played + (if KeptOnDiscard(c) then [c] else [])), id, c)
  }

  /** When a play is accepted. */
  predicate PlayAccepted(s: State, ids: seq<UserId>, id: UserId, cardId: int)
    requires |s.hands| == |ids|
  {
    id in ids && SeatOf(ids, id).value == s.turn && !s.waitingForWild
    && 0 <= cardId < |s.hands[s.turn]| && Playable(s.played, s.hands[s.turn][cardId])
  }

  /** A rejected play (unknown user, not their turn, a wild colour pending, an index out of
      range or a card that does not match) leaves the whole state as it was: in the last
      case the card goes back exactly where it came from. */
  lemma PlayRejectedChangesNothing(s: State, ids: seq<UserId>, id: UserId, cardId: int)
    requires |s.hands| == |ids|
    requires !PlayAccepted(s, ids, id, cardId)
    ensures PlayStep(s, ids, id, cardId) == s
  {
    if id in ids && SeatOf(ids, id).value == s.turn && !s.waitingForWild && 0 <= cardId < |s.hands[s.turn]| {
      InsertUndoesRemove(s.hands[s.turn], cardId);
      assert s.hands[s.turn := s.hands[s.turn]] == s.hands;
    }
  }

  /** An accepted play takes the card out of the player's hand and, when the discard pile
      keeps it, puts it on top; a wild waits for its colour from this player; a Skip sets
      the skip flag, a Reverse flips the direction, a Draw Two or Wild Draw Four adds one
      to its counter. A pending Uno call plays no part. */
  lemma PlayAcceptedEffects(s: State, ids: seq<UserId>, id: UserId, cardId: int)
    requires |s.hands| == |ids|
    requires PlayAccepted(s, ids, id, cardId)
    ensures var c := s.hands[s.turn][cardId];
      var r := PlayStep(s, ids, id, cardId);
      && r.hands == s.hands[s.turn := RemovedAt(s.hands[s.turn], cardId)]
      && r.played == s.played + (if KeptOnDiscard(c) then [c] else [])
      && (KeptOnDiscard(c) ==> Last(r.played) == c)
      && r.pile == s.pile && r.turn == s.turn
      && (c.IsWild() ==> r.waitingForWild && r.wildId == Some(id))
      && (!c.IsWild() ==> r.waitingForWild == s.waitingForWild && r.wildId == s.wildId)
      && r.skip == (s.skip || c.value == 10)
      && r.reversed == (if c.value == 11 then !s.reversed else s.reversed)
      && r.twos == s.twos + (if c.value == 12 then 1 else 0)
      && r.fours == s.fours + (if c.value == 14 then 1 else 0)
      && r.unoPending == s.unoPending && r.unoId == s.unoId
  {
  }

  /** An accepted play takes the card out of the hand, puts it on the discard pile and
      applies its effects. */
  lemma PlayAcceptedStep(s: State, ids: seq<UserId>, id: UserId, cardId: int)
    requires |s.hands| == |ids|
    requires PlayAccepted(s, ids, id, cardId)
    ensures var c := s.hands[s.turn][cardId];
      PlayStep(s, ids, id, cardId)
      == PlayEffects(s.(hands := s.hands[s.turn := RemovedAt(s.hands[s.turn], cardId)],
                        played := s.played + (if KeptOnDiscard(c) then [c] else [])), id, c)
  {
  }

  /** A play moves cards and creates none: an accepted card the discard pile keeps is
      still counted, one it drops (a non-wild card without a valid colour) is lost. */
  lemma PlayConservesCards(s: State, ids: seq<UserId>, id: UserId, cardId: int)
    requires |s.hands| == |ids|
    ensures PlayAccepted(s, ids, id, cardId) && !KeptOnDiscard(s.hands[s.turn][cardId])
      ==> AllCards(PlayStep(s, ids, id, cardId)) + multiset{s.hands[s.turn][cardId]} == AllCards(s)
    ensures !(PlayAccepted(s, ids, id, cardId) && !KeptOnDiscard(s.hands[s.turn][cardId]))
      ==> AllCards(PlayStep(s, ids, id, cardId)) == AllCards(s)
  {
    if PlayAccepted(s, ids, id, cardId) {
      var c := s.hands[s.turn][cardId];
      var x := if KeptOnDiscard(c) then [c] else [];
      PlayAcceptedEffects(s, ids, id, cardId);
      var r := PlayStep(s, ids, id, cardId);
      MoveFromHand(s, r, s.turn, cardId, x);
      if KeptOnDiscard(c) {
        Cancel(AllCards(r), AllCards(s), multiset{c});
      } else {
        assert multiset(x) == multiset{};
      }
    } else {
      PlayRejectedChangesNothing(s, ids, id, cardId);
    }
  }

  /** A step that takes card `i` out of hand `k` and puts `x` on the discard pile. */
  lemma MoveFromHand(s: State, r: State, k: nat, i: nat, x: seq<Card>)
    requires k < |s.hands| && i < |s.hands[k]|
    requires r.hands == s.hands[k := RemovedAt(s.hands[k], i)]
    requires r.pile == s.pile && r.played == s.played + x
    ensures AllCards(r) + multiset{s.hands[k][i]} == AllCards(s) + multiset(x)
  {
    var hand := s.hands[k];
    var rest := RemovedAt(hand, i);
    RemovedAtCards(hand, i);
    FlattenUpdate(s.hands, k, rest);
    calc {
      (multiset(Flatten(r.hands)) + multiset{hand[i]}) + multiset(rest);
      multiset(Flatten(r.hands)) + multiset(hand);
      multiset(Flatten(s.hands)) + multiset(rest);
    }
    Cancel(multiset(Flatten(r.hands)) + multiset{hand[i]}, multiset(Flatten(s.hands)), multiset(rest));
  }

  lemma PlayKeepsInv(s: State, ids: seq<UserId>, id: UserId, cardId: int)
    requires Inv(s, |ids|)
    ensures Inv(PlayStep(s, ids, id, cardId), |ids|)
  {
    if PlayAccepted(s, ids, id, cardId) {
      PlayAcceptedEffects(s, ids, id, cardId);
    } else {
      PlayRejectedChangesNothing(s, ids, id, cardId);
    }
  }

  // ---------------------------------------------------------------------------
  // next_turn
  // ---------------------------------------------------------------------------

  /** The number of penalty cards `next_turn` deals. */
  function Penalty(s: State): nat {
    2 * s.twos + 4 * s.fours
  }

  /** The seat `next_turn` moves to before any penalty. */
  function Landing(s: State, step: int): int
    requires |s.hands| > 0
  {
    Wrap(s.turn + step * Direction(s), |s.hands|)
  }

  /** `Game.next_turn(step)`: move `step` seats in the current direction; the player there
      draws two cards for each pending Draw Two and four for each pending Wild Draw Four,
      and for each non-zero counter the turn moves on one more seat; both counters end at 0.
      The turn always ends on a seat; the direction and the discard pile stay as they are. */
  function NextTurnStep(s: State, step: int): (r: State)
    requires |s.hands| > 0 && Penalty(s) <= |s.pile|
    ensures |r.hands| == |s.hands| && 0 <= r.turn < |s.hands|
    ensures r.twos == 0 && r.fours == 0
    ensures r.reversed == s.reversed && r.played == s.played
  {
    PenaltyStep(s.(turn := Landing(s, step)))
  }

  /** The second half of `next_turn`, once the turn has moved: the penalty draws for the
      player whose turn it is, each non-zero counter moving the turn on one more seat. */
  function PenaltyStep(s: State): State
    requires 0 <= s.turn < |s.hands| && Penalty(s) <= |s.pile|
  {
    var n := |s.hands|;
    var dir := Direction(s);
    var t2 := if s.twos > 0 then Wrap(s.turn + dir, n) else s.turn;
    var t3 := if s.fours > 0 then Wrap(t2 + dir, n) else t2;
    var k := Penalty(s);
    s.(hands := s.hands[s.turn := s.hands[s.turn] + DrawN(s.pile, k)],
       pile := s.pile[..|s.pile| - k],
       turn := t3, twos := 0, fours := 0)
  }

  /** With nothing pending, the turn moves `step` seats forwards, or backwards when
      reversed, modulo the number of players, and nothing else changes. */
  lemma NextTurnPlain(s: State, step: int)
    requires |s.hands| > 0 && s.twos == 0 && s.fours == 0
    ensures NextTurnStep(s, step) == s.(turn := (s.turn + (if s.reversed then -step else step)) % |s.hands|)
  {
    var t := Landing(s, step);
    assert DrawN(s.pile, 0) == [];
    assert s.hands[t] + [] == s.hands[t];
    assert s.hands[t := s.hands[t]] == s.hands;
    assert s.pile[..|s.pile| - 0] == s.pile;
  }

  lemma WrapAdd(a: int, b: int, n: int)
    requires n > 0
    ensures Wrap(Wrap(a, n) + b, n) == Wrap(a + b, n)
  {
    var q := a / n;
    assert a == q * n + a % n;
    assert a % n + b == (a + b) - q * n;
    ModShift(a + b, -q, n);
  }

  lemma ModShift(x: int, q: int, n: int)
    requires n > 0
    ensures (x + q * n) % n == x % n
  {
    var r := x % n;
    var d := x / n;
    assert x == d * n + r;
    assert x + q * n == (d + q) * n + r;
    DivModUnique(x + q * n, d + q, r, n);
  }

  lemma DivModUnique(x: int, d: int, r: int, n: int)
    requires n > 0 && 0 <= r < n && x == d * n + r
    ensures x % n == r
  {
    var d', r' := x / n, x % n;
    assert x == d' * n + r';
    if d' < d {
      MulLe(d' + 1, d, n);
    } else if d < d' {
      MulLe(d + 1, d', n);
    }
  }

  lemma MulLe(a: int, b: int, n: int)
    requires a <= b && n >= 0
    ensures a * n <= b * n
  {
    assert b * n - a * n == (b - a) * n;
  }

  /** With penalties pending, the player at the landing seat gains exactly 2 cards per Draw
      Two and 4 per Wild Draw Four, taken from the top of the draw pile; no other hand
      changes; both counters end at 0. */
  lemma NextTurnPenalty(s: State, step: int)
    requires |s.hands| > 0 && Penalty(s) <= |s.pile|
    ensures var r := NextTurnStep(s, step);
      var t := Landing(s, step);
      && |r.hands| == |s.hands|
      && r.hands[t] == s.hands[t] + DrawN(s.pile, 2 * s.twos + 4 * s.fours)
      && |r.hands[t]| == |s.hands[t]| + 2 * s.twos + 4 * s.fours
      && (forall k :: 0 <= k < |s.hands| && k != t ==> r.hands[k] == s.hands[k])
      && |r.pile| == |s.pile| - 2 * s.twos - 4 * s.fours
      && r.twos == 0 && r.fours == 0
  {
  }

  /** The turn ends `step` seats on in the current direction, plus one more seat in that
      direction for each penalty counter that was non-zero, modulo the number of players. */
  lemma NextTurnTurn(s: State, step: int)
    requires |s.hands| > 0 && Penalty(s) <= |s.pile|
    ensures var dir := if s.reversed then -1 else 1;
      NextTurnStep(s, step).turn
        == (s.turn + step * dir + (if s.twos > 0 then dir else 0) + (if s.fours > 0 then dir else 0)) % |s.hands|
  {
    var n := |s.hands|;
    var dir := Direction(s);
    var a := s.turn + step * dir;
    if s.twos > 0 {
      WrapAdd(a, dir, n);
      if s.fours > 0 {
        WrapAdd(a + dir, dir, n);
      }
    } else if s.fours > 0 {
      WrapAdd(a, dir, n);
    }
  }

  /** `next_turn` always lands on a seat of the game. */
  lemma NextTurnKeepsInv(s: State, step: int)
    requires Inv(s, |s.hands|) && |s.hands| > 0 && Penalty(s) <= |s.pile|
    ensures Inv(NextTurnStep(s, step), |s.hands|)
    ensures 0 <= NextTurnStep(s, step).turn < |s.hands|
  {
  }

  /** The penalty cards move from the draw pile to a hand: no card is created or lost. */
  lemma NextTurnConservesCards(s: State, step: int)
    requires |s.hands| > 0 && Penalty(s) <= |s.pile|
    ensures AllCards(NextTurnStep(s, step)) == AllCards(s)
  {
    var t := Landing(s, step);
    var k := Penalty(s);
    var r := NextTurnStep(s, step);
    DrawNConserves(s.pile, k);
    MoveToHand(s, r, t, DrawN(s.pile, k));
  }

  // ---------------------------------------------------------------------------
  // draw_and_continue
  // ---------------------------------------------------------------------------

  /** The player may draw: known, on turn and no wild colour pending. */
  predicate MayDraw(s: State, ids: seq<UserId>, id: UserId)
    requires |s.hands| == |ids|
  {
    id in ids && SeatOf(ids, id).value == s.turn && !s.waitingForWild
  }

  /** `Game.draw_and_continue(id)`: `False` for an unknown user or one not on turn, `None`
      while a wild colour is pending, and otherwise one card from the top of the draw pile
      into the player's hand and `True`. A pending Uno call does not stop the draw. The
      answer is `True` exactly when the player may draw; the turn and the discard pile
      never change. */
  function DrawStep(s: State, ids: seq<UserId>, id: UserId): (r: (Option<bool>, State))
    requires |s.hands| == |ids|
    requires MayDraw(s, ids, id) ==> s.pile != []
    ensures r.0 == Some(true) <==> MayDraw(s, ids, id)
    ensures r.1.turn == s.turn && r.1.played == s.played
  {
    match SeatOf(ids, id)
    case None => (Some(false), s)
    case Some(seat) =>
      if seat != s.turn then (Some(false), s)
      else if s.waitingForWild then (None, s)
      else (Some(true), s.(hands := s.hands[seat := s.hands[seat] + [Last(s.pile)]],
                           pile := s.pile[..|s.pile| - 1]))
  }

  /** The draw succeeds exactly when the player may draw; it then adds exactly one card,
      the top of the draw pile, to that hand and to no other, and conserves the cards. */
  lemma DrawEffects(s: State, ids: seq<UserId>, id: UserId)
    requires |s.hands| == |ids|
    requires MayDraw(s, ids, id) ==> s.pile != []
    ensures var (ok, r) := DrawStep(s, ids, id);
      && (ok == Some(true) <==> MayDraw(s, ids, id))
      && (ok.None? <==> id in ids && SeatOf(ids, id).value == s.turn && s.waitingForWild)
      && (ok != Some(true) ==> r == s)
      && (ok == Some(true) ==>
            && r.hands == s.hands[s.turn := s.hands[s.turn] + [Last(s.pile)]]
            && |r.hands[s.turn]| == |s.hands[s.turn]| + 1
            && |r.pile| == |s.pile| - 1
            && AllCards(r) == AllCards(s)
            && r.(hands := s.hands, pile := s.pile) == s)
  {
    if MayDraw(s, ids, id) {
      var r := DrawStep(s, ids, id).1;
      assert r.hands == s.hands[s.turn := s.hands[s.turn] + [Last(s.pile)]];
      assert r.pile == s.pile[..|s.pile| - 1] && r.played == s.played;
      assert s.pile == r.pile + [Last(s.pile)];
      MoveToHand(s, r, s.turn, [Last(s.pile)]);
    }
  }

  // ---------------------------------------------------------------------------
  // set_wild_color
  // ---------------------------------------------------------------------------

  /** When `set_wild_color` accepts the colour. */
  predicate WildColourAccepted(s: State, ids: seq<UserId>, id: UserId, c: string)
    requires |s.hands| == |ids| && id in ids
  {
    SeatOf(ids, id).value == s.turn && s.waitingForWild && s.wildId == Some(id) && c in Colours
  }

  /** `Game.set_wild_color(id, c)`: only the player on turn for whom a wild colour is
      pending may set it, and only to R, Y, G or B; the top card takes the colour and the
      wait ends. The source fails on an id that is not in the game. No hand, no card of
      the draw pile and not the turn changes, and the discard pile keeps its size. */
  function WildColourStep(s: State, ids: seq<UserId>, id: UserId, c: string): (r: (bool, State))
    requires |s.hands| == |ids| && id in ids
    requires s.waitingForWild ==> s.played != []
    ensures r.1.hands == s.hands && r.1.pile == s.pile && r.1.turn == s.turn
    ensures |r.1.played| == |s.played|
  {
    var seat := SeatOf(ids, id).value;
    if seat != s.turn then (false, s)
    else if !s.waitingForWild then (false, s)
    else if s.wildId != Some(id) then (false, s)
    else if c !in Colours then (false, s)
    else (true, s.(played := WildSet(s.played, c), waitingForWild := false, wildId := None))
  }

  /** The colour is accepted exactly under the four conditions; then the top wild card
      takes that colour and nothing else but the wait changes; otherwise nothing changes. */
  lemma WildColourEffects(s: State, ids: seq<UserId>, id: UserId, c: string)
    requires Inv(s, |ids|) && id in ids
    ensures var (ok, r) := WildColourStep(s, ids, id, c);
      && (ok <==> WildColourAccepted(s, ids, id, c))
      && (!ok ==> r == s)
      && (ok ==> && r.played[..|r.played| - 1] == s.played[..|s.played| - 1]
                 && Last(r.played) == Card(Last(s.played).value, c)
                 && !r.waitingForWild && r.wildId == None
                 && r.(played := s.played, waitingForWild := true, wildId := Some(id)) == s)
      && Inv(r, |ids|)
  {
  }

  // ---------------------------------------------------------------------------
  // check_uno_caller
  // ---------------------------------------------------------------------------

  /** What `check_uno_caller` needs to avoid failing: when another player makes the call,
      the pending id names a player of the game and there is a card to draw. */
  predicate UnoCallDefined(s: State, ids: seq<UserId>, id: UserId) {
    id in ids && s.unoId != Some(id) ==> s.unoId.Some? && s.unoId.value in ids && s.pile != []
  }

  /** `Game.check_uno_caller(id)`: -1 for a user not in the game; 0 when someone else calls
      it first, in which case the player with Uno draws one card; 1 on a self-call. The
      call is cleared in both of the last two cases. The turn and the discard pile never
      change. */
  function UnoCallStep(s: State, ids: seq<UserId>, id: UserId): (r: (int, State))
    requires |s.hands| == |ids|
    requires UnoCallDefined(s, ids, id)
    ensures -1 <= r.0 <= 1 && (r.0 == -1 <==> id !in ids)
    ensures r.1.turn == s.turn && r.1.played == s.played
  {
    if id !in ids then (-1, s)
    else if s.unoId != Some(id) then
      var seat := SeatOf(ids, s.unoId.value).value;
      (0, s.(hands := s.hands[seat := s.hands[seat] + [Last(s.pile)]],
             pile := s.pile[..|s.pile| - 1],
             unoPending := false, unoId := None))
    else (1, s.(unoPending := false, unoId := None))
  }

  /** The three result codes and their effects: nothing for a non-member; one penalty card
      for the player with Uno and nothing else when another member calls; only the call
      cleared on a self-call. */
  lemma UnoCallEffects(s: State, ids: seq<UserId>, id: UserId)
    requires |s.hands| == |ids| && Distinct(ids)
    requires UnoCallDefined(s, ids, id)
    ensures var (code, r) := UnoCallStep(s, ids, id);
      && (code == -1 <==> id !in ids)
      && (code == 0 <==> id in ids && s.unoId != Some(id))
      && (code == 1 <==> id in ids && s.unoId == Some(id))
      && (code == -1 ==> r == s)
      && (code != -1 ==> !r.unoPending && r.unoId == None)
      && (code == 1 ==> r == s.(unoPending := false, unoId := None))
      && (code == 0 ==>
            var seat := SeatOf(ids, s.unoId.value).value;
            && ids[seat] == s.unoId.value
            && |r.hands[seat]| == |s.hands[seat]| + 1
            && r.hands[seat][..|s.hands[seat]|] == s.hands[seat]
            && Last(r.hands[seat]) == Last(s.pile)
            && (forall k :: 0 <= k < |s.hands| && k != seat ==> r.hands[k] == s.hands[k])
            && r.pile == s.pile[..|s.pile| - 1]
            && r.(hands := s.hands, pile := s.pile, unoPending := s.unoPending, unoId := s.unoId) == s
            && AllCards(r) == AllCards(s))
  {
    if id in ids && s.unoId != Some(id) {
      UnoCallByOther(s, ids, id);
    }
  }

  lemma UnoCallByOther(s: State, ids: seq<UserId>, id: UserId)
    requires |s.hands| == |ids|
    requires UnoCallDefined(s, ids, id) && id in ids && s.unoId != Some(id)
    ensures var r := UnoCallStep(s, ids, id).1;
      var seat := SeatOf(ids, s.unoId.value).value;
      && |r.hands[seat]| == |s.hands[seat]| + 1
      && r.hands[seat][..|s.hands[seat]|] == s.hands[seat]
      && AllCards(r) == AllCards(s)
  {
    var r := UnoCallStep(s, ids, id).1;
    var seat := SeatOf(ids, s.unoId.value).value;
    assert r.hands == s.hands[seat := s.hands[seat] + [Last(s.pile)]];
    assert r.pile == s.pile[..|s.pile| - 1] && r.played == s.played;
    assert s.pile == r.pile + [Last(s.pile)];
    MoveToHand(s, r, seat, [Last(s.pile)]);
  }

  // ---------------------------------------------------------------------------
  // play_initial_card
  // ---------------------------------------------------------------------------

  /** Where `return_card` leaves card `c`: at the bottom, or nowhere. */
  function Returned(c: Card): seq<Card> {
    if KeptOnReturn(c) then [c] else []
  }

  lemma NumeralInPrefix(back: seq<Card>)
    requires HasNumeral(back)
    ensures Last(back).value < 10 || HasNumeral(back[..|back| - 1])
  {
    var i :| 0 <= i < |back| && back[i].value < 10;
    if i < |back| - 1 {
      assert back[..|back| - 1][i] == back[i];
    }
  }

  /** The loop of `play_initial_card`: `card` is the card just drawn, `back` what is left of
      the original draw pile, `front` the cards already put back underneath it. Returns the
      first numeral drawn and the draw pile left over. */
  function Cut(front: seq<Card>, back: seq<Card>, card: Card): (r: (Card, seq<Card>))
    requires card.value < 10 || HasNumeral(back)
    decreases |back|
    ensures r.0.value < 10
  {
    if card.value < 10 then (card, front + back)
    else
      NumeralInPrefix(back);
      Cut(Returned(card) + front, back[..|back| - 1], Last(back))
  }

  /** The loop only moves cards: what it returns, with the pile left over, is drawn from the
      cards it started with (fewer when `return_card` drops a card). */
  lemma {:induction false} CutKeepsCards(front: seq<Card>, back: seq<Card>, card: Card)
    requires card.value < 10 || HasNumeral(back)
    decreases |back|
    ensures var r := Cut(front, back, card);
      multiset(r.1) + multiset{r.0} <= multiset(front) + multiset(back) + multiset{card}
  {
    if card.value >= 10 {
      NumeralInPrefix(back);
      CutKeepsCards(Returned(card) + front, back[..|back| - 1], Last(back));
      assert back == back[..|back| - 1] + [Last(back)];
    }
  }

  /** `Game.play_initial_card`: when nothing has been played, draw until a card of value
      below 10 turns up, putting the others back underneath (or dropping them when
      `return_card` refuses them), and play it. */
  function InitialCardStep(s: State): (r: State)
    requires s.played == [] ==> HasNumeral(s.pile)
    ensures s.played != [] ==> r == s
    ensures |r.played| <= 1 || r.played == s.played
    ensures r.hands == s.hands && r.turn == s.turn
  {
    if s.played != [] then s
    else
      var cut := TurnUp(s.pile);
      s.(pile := cut.1, played := if KeptOnDiscard(cut.0) then [cut.0] else [])
  }

  /** The whole loop of `play_initial_card` on a draw pile holding a numeral: the first
      card drawn is its top card. */
  function TurnUp(pile: seq<Card>): (Card, seq<Card>)
    requires HasNumeral(pile)
  {
    NumeralInPrefix(pile);
    Cut([], pile[..|pile| - 1], Last(pile))
  }

  /** The starting card is a numeral with a valid colour, the only card on the discard pile;
      when `play_card` refuses it (an uncoloured numeral from an extra set) nothing is on the
      discard pile. No hand or flag changes. */
  lemma InitialCardEffects(s: State)
    requires s.played == [] && HasNumeral(s.pile)
    ensures var r := InitialCardStep(s);
      && |r.played| <= 1
      && (r.played != [] ==> 0 <= r.played[0].value < 10 && r.played[0].HasValidColour() && !r.played[0].IsWild())
      && r.(pile := s.pile, played := s.played) == s
  {
  }

  /** An uncoloured numeral on top of the draw pile (the uncoloured card of an extra set
      below 10) is turned up and dropped by `play_card`: the game then starts with an empty
      discard pile, on which any card may be played. */
  lemma UncolouredStarterDropped(s: State)
    requires s.played == [] && s.pile != []
    requires Last(s.pile).value < 10 && !Last(s.pile).HasValidColour()
    ensures HasNumeral(s.pile)
    ensures InitialCardStep(s).played == []
    ensures InitialCardStep(s).pile == s.pile[..|s.pile| - 1]
  {
    assert s.pile[|s.pile| - 1].value < 10;
  }

  /** Drawing the starting card moves cards between the piles and creates none. */
  lemma InitialCardConservesCards(s: State)
    requires s.played == [] && HasNumeral(s.pile)
    ensures AllCards(InitialCardStep(s)) <= AllCards(s)
  {
    var init := s.pile[..|s.pile| - 1];
    NumeralInPrefix(s.pile);
    var cut := Cut([], init, Last(s.pile));
    CutKeepsCards([], init, Last(s.pile));
    var r := InitialCardStep(s);
    assert r == s.(pile := cut.1, played := if KeptOnDiscard(cut.0) then [cut.0] else []);
    CutFromPile(s, r, [], init, cut.0, cut.1);
  }

  lemma CutFromPile(s: State, r: State, front: seq<Card>, init: seq<Card>, c: Card, rest: seq<Card>)
    requires s.played == [] && s.pile != [] && front == [] && init == s.pile[..|s.pile| - 1]
    requires multiset(rest) + multiset{c} <= multiset(front) + multiset(init) + multiset{Last(s.pile)}
    requires r.pile == rest && r.hands == s.hands && multiset(r.played) <= multiset{c}
    ensures AllCards(r) <= AllCards(s)
  {
    assert s.pile == init + [Last(s.pile)];
    forall e: Card ensures AllCards(r)[e] <= AllCards(s)[e] {
      assert (multiset(rest) + multiset{c})[e] <= (multiset(init) + multiset{Last(s.pile)})[e];
      assert multiset(r.played)[e] <= multiset{c}[e];
    }
  }
}
