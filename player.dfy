/** A participant's hand (`Player` in uno.py). */
module Players {
  import opened Wrappers
  import opened Cards

  /** The hand with position `i` taken out (`list.pop(i)` for an index in range). */
  function RemovedAt(s: seq<Card>, i: int): (r: seq<Card>)
    requires 0 <= i < |s|
    ensures |r| == |s| - 1
  {
    s[..i] + s[i + 1..]
  }

  /** Taking a card out of a hand loses exactly that card. */
  lemma RemovedAtCards(s: seq<Card>, i: int)
    requires 0 <= i < |s|
    ensures multiset(RemovedAt(s, i)) + multiset{s[i]} == multiset(s)
  {
    assert s == s[..i] + [s[i]] + s[i + 1..];
  }

  /** Where Python's `list.insert(i, x)` puts `x` in a list of length `n`: a negative
      index counts from the end, and the result is clamped into 0..n. */
  function InsertPosition(n: nat, i: int): (p: nat)
    ensures p <= n
    ensures 0 <= i <= n ==> p == i
  {
    if i < 0 then (if i + n < 0 then 0 else i + n)
    else if i > n then n
    else i
  }

  /** The hand after `list.insert(i, c)`. */
  function InsertAt(s: seq<Card>, c: Card, i: int): (r: seq<Card>)
    ensures |r| == |s| + 1
    ensures r[InsertPosition(|s|, i)] == c
  {
    var p := InsertPosition(|s|, i);
    s[..p] + [c] + s[p..]
  }

  /** Inserting a card into a hand adds exactly that card. */
  lemma InsertAtCards(s: seq<Card>, c: Card, i: int)
    ensures multiset(InsertAt(s, c, i)) == multiset(s) + multiset{c}
  {
    var p := InsertPosition(|s|, i);
    assert s == s[..p] + s[p..];
  }

  /** Putting a removed card back at the index it came from restores the hand exactly:
      this is how a rejected play is rolled back. */
  lemma InsertUndoesRemove(s: seq<Card>, i: int)
    requires 0 <= i < |s|
    ensures InsertAt(RemovedAt(s, i), s[i], i) == s
  {
    assert RemovedAt(s, i)[..i] == s[..i];
    assert RemovedAt(s, i)[i..] == s[i + 1..];
  }

  /** Removing what was just inserted at an in-range index gives the hand back. */
  lemma RemoveUndoesInsert(s: seq<Card>, c: Card, i: int)
    requires 0 <= i <= |s|
    ensures RemovedAt(InsertAt(s, c, i), i) == s
  {
    assert InsertAt(s, c, i)[..i] == s[..i];
    assert InsertAt(s, c, i)[i + 1..] == s[i..];
  }

  class Player {
    /** The seat number (`Player.id`), fixed when the game deals the hand. */
    const seat: int
    var hand: seq<Card>

    constructor (seat: int, hand: seq<Card>)
      ensures this.seat == seat && this.hand == hand
    {
      this.seat := seat;
      this.hand := hand;
    }

    /** `remove_card`: takes out and returns the card at `i` when `i` indexes the hand,
        and otherwise answers `None` and leaves the hand alone. */
    method RemoveCard(i: int) returns (c: Option<Card>)
      modifies this
      ensures 0 <= i < |old(hand)| ==> c == Some(old(hand)[i]) && hand == RemovedAt(old(hand), i)
      ensures !(0 <= i < |old(hand)|) ==> c == None && hand == old(hand)
    {
      if 0 <= i < |hand| {
        c := Some(hand[i]);
        hand := hand[..i] + hand[i + 1..];
      } else {
        c := None;
      }
    }

    /** `add_card`: appends a card. */
    method AddCard(c: Card)
      modifies this
      ensures hand == old(hand) + [c]
    {
      hand := hand + [c];
    }

    /** `insert_card`: `list.insert(i, c)` on the hand. */
    method InsertCard(c: Card, i: int)
      modifies this
      ensures hand == InsertAt(old(hand), c, i)
    {
      var p := InsertPosition(|hand|, i);
      hand := hand[..p] + [c] + hand[p..];
    }
  }
}
