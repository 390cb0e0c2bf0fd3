/** The draw and discard piles (`Deck` in uno.py) and the card sets they are built from. */
module Decks {
  import opened Wrappers
  import opened Cards

  /** From this many players on, every further player adds one more set of cards. */
  const ThresholdPlayers := 10

  /** The loops of `__init__` and `double_deck` run over card indices 0 to 14: ten numeral
      values, three action cards (Skip, Reverse, Draw Two) and two wild cards. */
  const NumeralRows: nat := 10
  const ActionRows: nat := 3
  const WildRows: nat := 2
  const RowCount: nat := NumeralRows + ActionRows + WildRows

  /** A shuffle: same cards, any order. */
  predicate IsPermutation(a: seq<Card>, b: seq<Card>) {
    multiset(a) == multiset(b)
  }

  lemma PermutationSize(a: seq<Card>, b: seq<Card>)
    requires IsPermutation(a, b)
    ensures |a| == |b|
  {
    assert |a| == |multiset(a)| && |b| == |multiset(b)|;
  }

  function Last(s: seq<Card>): Card
    requires s != []
  {
    s[|s| - 1]
  }

  // ---------------------------------------------------------------------------
  // The card sets built by `__init__` and `double_deck`
  // ---------------------------------------------------------------------------

  /** What one pass of the innermost loop appends for loop index `j`, card value `v`
      and colour `c`: two numerals, one action card, or one uncoloured card. */
  function CardsFor(j: int, v: int, c: string): seq<Card> {
    if j < 10 then [Card(v, c), Card(v, c)]
    else if j < 13 then [Card(v, c)]
    else [Card(v, "")]
  }

  /** The cards appended for index `j` and value `v` over the first `k` colours. */
  function RowPrefix(j: int, v: int, k: nat): seq<Card>
    requires k <= |Colours|
  {
    if k == 0 then [] else RowPrefix(j, v, k - 1) + CardsFor(j, v, Colours[k - 1])
  }

  /** The cards appended for index `j` and value `v` over all four colours. */
  function Row(j: int, v: int): seq<Card> {
    RowPrefix(j, v, |Colours|)
  }

  /** The first `m` rows of the standard set: row `j` holds cards of value `j`. */
  function StandardPrefix(m: nat): seq<Card> {
    if m == 0 then [] else StandardPrefix(m - 1) + Row(m - 1, m - 1)
  }

  /** The standard set of `__init__` and `double_deck`. */
  function StandardSet(): seq<Card> {
    StandardPrefix(RowCount)
  }

  /** The first `m` rows of extra set number `i`. As uno.py:116-125 is written, every card of
      extra set `i` takes the set number `i` as its value, not the row index. */
  function ExtraPrefix(i: int, m: nat): seq<Card> {
    if m == 0 then [] else ExtraPrefix(i, m - 1) + Row(m - 1, i)
  }

  function ExtraSet(i: int): seq<Card> {
    ExtraPrefix(i, RowCount)
  }

  /** Extra sets 0 .. k-1, in order. */
  function ExtraSets(k: nat): seq<Card> {
    if k == 0 then [] else ExtraSets(k - 1) + ExtraSet(k - 1)
  }

  /** `max(0, num_players - THRESHOLD_PLAYERS)`. */
  function ExtraSetCount(numPlayers: int): nat {
    if numPlayers > ThresholdPlayers then numPlayers - ThresholdPlayers else 0
  }

  /** The draw pile of a new deck, before it is shuffled. */
  function NewPile(numPlayers: int): seq<Card> {
    StandardSet() + ExtraSets(ExtraSetCount(numPlayers))
  }

  lemma RowSize(j: int, v: int)
    ensures |Row(j, v)| == if j < 10 then 8 else 4
  {
    assert |RowPrefix(j, v, 1)| == |CardsFor(j, v, "R")|;
    assert |RowPrefix(j, v, 2)| == 2 * |CardsFor(j, v, "R")|;
    assert |RowPrefix(j, v, 3)| == 3 * |CardsFor(j, v, "R")|;
  }

  lemma {:induction false} StandardPrefixSize(m: nat)
    requires m <= RowCount
    ensures |StandardPrefix(m)| == if m <= 10 then 8 * m else 80 + 4 * (m - 10)
  {
    if m > 0 {
      StandardPrefixSize(m - 1);
      RowSize(m - 1, m - 1);
    }
  }

  lemma {:induction false} ExtraPrefixSize(i: int, m: nat)
    requires m <= RowCount
    ensures |ExtraPrefix(i, m)| == if m <= 10 then 8 * m else 80 + 4 * (m - 10)
  {
    if m > 0 {
      ExtraPrefixSize(i, m - 1);
      RowSize(m - 1, i);
    }
  }

  lemma {:induction false} ExtraSetsSize(k: nat)
    ensures |ExtraSets(k)| == 100 * k
  {
    if k > 0 {
      ExtraSetsSize(k - 1);
      ExtraPrefixSize(k - 1, RowCount);
    }
  }

  /** A new deck for `n` players holds 100 cards plus 100 for every player beyond ten. */
  lemma NewPileSize(numPlayers: int)
    ensures |StandardSet()| == 100
    ensures |NewPile(numPlayers)| == 100 + 100 * ExtraSetCount(numPlayers)
  {
    StandardSetSize();
    var k := ExtraSetCount(numPlayers);
    ExtraSetsSize(k);
    assert |NewPile(numPlayers)| == |StandardSet()| + |ExtraSets(k)|;
  }

  lemma StandardSetSize()
    ensures |StandardSet()| == 100
  {
    StandardPrefixSize(RowCount);
  }

  /** Every card of row `j` of the standard set is well formed: its value is `j`, a
      non-wild card carries one of the four colours and a wild card carries none. */
  lemma StandardRowWellFormed(j: int, k: nat, c: Card)
    requires 0 <= j < RowCount && k <= |Colours|
    requires c in RowPrefix(j, j, k)
    ensures c.value == j
    ensures c.IsWild() ==> c.color == ""
    ensures !c.IsWild() ==> c.HasValidColour()
  {
    if k > 0 && c !in RowPrefix(j, j, k - 1) {
      assert c in CardsFor(j, j, Colours[k - 1]);
    } else if k > 0 {
      StandardRowWellFormed(j, k - 1, c);
    }
  }

  lemma {:induction false} StandardSetWellFormed(m: nat, c: Card)
    requires m <= RowCount
    requires c in StandardPrefix(m)
    ensures 0 <= c.value < m
    ensures c.IsWild() ==> c.color == ""
    ensures !c.IsWild() ==> c.HasValidColour()
  {
    if c in StandardPrefix(m - 1) {
      StandardSetWellFormed(m - 1, c);
    } else {
      assert c in Row(m - 1, m - 1) by {
        assert StandardPrefix(m) == StandardPrefix(m - 1) + Row(m - 1, m - 1);
      }
      StandardRowWellFormed(m - 1, |Colours|, c);
    }
  }

  /** Every card of extra set `i` has value `i`: the set number, not the row index. */
  lemma {:induction false} ExtraSetValues(i: int, m: nat, c: Card)
    requires m <= RowCount
    requires c in ExtraPrefix(i, m)
    ensures c.value == i
  {
    if c in ExtraPrefix(i, m - 1) {
      ExtraSetValues(i, m - 1, c);
    } else {
      RowValues(m - 1, i, |Colours|, c);
    }
  }

  /** Every card of a row carries the row's value. */
  lemma RowValues(j: int, v: int, k: nat, c: Card)
    requires k <= |Colours|
    requires c in RowPrefix(j, v, k)
    ensures c.value == v
  {
    if k > 0 && c !in RowPrefix(j, v, k - 1) {
      assert c in CardsFor(j, v, Colours[k - 1]);
    } else if k > 0 {
      RowValues(j, v, k - 1, c);
    }
  }

  /** Each extra set holds an uncoloured card of value `i`, which `return_card` drops and
      which is not a wild card unless `i` is 13 or 14. */
  lemma ExtraSetHasUncolouredCard(i: int)
    ensures Card(i, "") in ExtraSet(i)
  {
    assert Row(14, i) == RowPrefix(14, i, 3) + [Card(i, "")];
    assert ExtraSet(i) == ExtraPrefix(i, 14) + Row(14, i);
  }

  // ---------------------------------------------------------------------------
  // Numeral cards: what `play_initial_card` looks for
  // ---------------------------------------------------------------------------

  /** The number of cards whose value is below 10. */
  function Numerals(s: seq<Card>): (r: nat)
    ensures r <= |s|
  {
    if s == [] then 0 else Numerals(s[..|s| - 1]) + (if Last(s).value < 10 then 1 else 0)
  }

  predicate HasNumeral(s: seq<Card>) {
    exists i :: 0 <= i < |s| && s[i].value < 10
  }

  lemma {:induction false} NumeralsConcat(a: seq<Card>, b: seq<Card>)
    ensures Numerals(a + b) == Numerals(a) + Numerals(b)
  {
    if b != [] {
      assert (a + b)[..|a + b| - 1] == a + b[..|b| - 1];
      assert Last(a + b) == Last(b);
      assert Numerals(a + b) == Numerals(a + b[..|b| - 1]) + (if Last(b).value < 10 then 1 else 0);
      NumeralsConcat(a, b[..|b| - 1]);
    } else {
      assert a + b == a;
    }
  }

  lemma {:induction false} NumeralsWitness(s: seq<Card>)
    requires Numerals(s) > 0
    ensures HasNumeral(s)
  {
    if Last(s).value >= 10 {
      NumeralsWitness(s[..|s| - 1]);
      var i :| 0 <= i < |s| - 1 && s[..|s| - 1][i].value < 10;
      assert s[i].value < 10;
    }
  }

  /** A shuffle keeps the number of numerals. */
  lemma {:induction false} NumeralsOfPermutation(a: seq<Card>, b: seq<Card>)
    requires IsPermutation(a, b)
    ensures Numerals(a) == Numerals(b)
    decreases |a|
  {
    if a == [] {
      assert |b| == |multiset(b)| == 0;
    } else {
      var x := Last(a);
      assert x in multiset(b);
      var i :| 0 <= i < |b| && b[i] == x;
      assert b == b[..i] + [x] + b[i + 1..];
      assert a == a[..|a| - 1] + [x];
      assert multiset(a) == multiset(a[..|a| - 1]) + multiset{x};
      assert multiset(b) == multiset(b[..i] + b[i + 1..]) + multiset{x};
      assert multiset(a[..|a| - 1]) == multiset(a) - multiset{x};
      assert multiset(b[..i] + b[i + 1..]) == multiset(b) - multiset{x};
      NumeralsOfPermutation(a[..|a| - 1], b[..i] + b[i + 1..]);
      NumeralsConcat(b[..i], b[i + 1..]);
      NumeralsConcat(b[..i] + [x], b[i + 1..]);
      NumeralsConcat(b[..i], [x]);
      assert [x][..0] == [];
    }
  }

  lemma {:induction false} NumeralsUniform(s: seq<Card>, v: int)
    requires forall c :: c in s ==> c.value == v
    ensures Numerals(s) == if v < 10 then |s| else 0
  {
    if s != [] {
      assert forall c :: c in s[..|s| - 1] ==> c in s;
      NumeralsUniform(s[..|s| - 1], v);
    }
  }

  lemma RowNumerals(j: int, v: int)
    ensures Numerals(Row(j, v)) == if v < 10 then |Row(j, v)| else 0
  {
    forall c | c in Row(j, v) ensures c.value == v {
      RowValues(j, v, |Colours|, c);
    }
    NumeralsUniform(Row(j, v), v);
  }

  lemma {:induction false} StandardPrefixNumerals(m: nat)
    requires m <= RowCount
    ensures Numerals(StandardPrefix(m)) == if m <= 10 then 8 * m else 80
  {
    if m > 0 {
      StandardPrefixNumerals(m - 1);
      NumeralsOfNextRow(m - 1);
    }
  }

  lemma NumeralsOfNextRow(j: nat)
    ensures Numerals(StandardPrefix(j + 1)) == Numerals(StandardPrefix(j)) + (if j < 10 then 8 else 0)
  {
    NumeralsConcat(StandardPrefix(j), Row(j, j));
    RowNumerals(j, j);
    RowSize(j, j);
  }

  lemma {:induction false} ExtraSetsNumerals(k: nat)
    ensures Numerals(ExtraSets(k)) == 100 * (if k <= 10 then k else 10)
  {
    if k > 0 {
      ExtraSetsNumerals(k - 1);
      NumeralsOfNextSet(k - 1);
    }
  }

  lemma NumeralsOfNextSet(i: nat)
    ensures Numerals(ExtraSets(i + 1)) == Numerals(ExtraSets(i)) + (if i < 10 then 100 else 0)
  {
    NumeralsConcat(ExtraSets(i), ExtraSet(i));
    forall c | c in ExtraSet(i) ensures c.value == i {
      ExtraSetValues(i, RowCount, c);
    }
    NumeralsUniform(ExtraSet(i), i);
    ExtraPrefixSize(i, RowCount);
  }

  lemma StandardSetNumerals()
    ensures Numerals(StandardSet()) == 80
  {
    StandardPrefixNumerals(RowCount);
  }

  /** A new deck holds 80 numerals of its own and 100 for each of the first ten extra sets,
      whose cards all take their set number, 0 to 9, as value. */
  lemma NewPileNumerals(numPlayers: int)
    ensures Numerals(NewPile(numPlayers))
         == 80 + 100 * (if ExtraSetCount(numPlayers) <= 10 then ExtraSetCount(numPlayers) else 10)
  {
    var k := ExtraSetCount(numPlayers);
    StandardSetNumerals();
    ExtraSetsNumerals(k);
    NumeralsConcat(StandardSet(), ExtraSets(k));
  }

  // ---------------------------------------------------------------------------
  // Drawing from the end of the pile
  // ---------------------------------------------------------------------------

  /** The cards that `k` successive pops take from the end of `p`, in the order drawn. */
  function DrawN(p: seq<Card>, k: nat): (r: seq<Card>)
    requires k <= |p|
    ensures |r| == k
  {
    if k == 0 then [] else [Last(p)] + DrawN(p[..|p| - 1], k - 1)
  }

  /** The `i`-th card drawn is the `i`-th card from the top. */
  lemma {:induction false} DrawNAt(p: seq<Card>, k: nat, i: nat)
    requires i < k <= |p|
    ensures DrawN(p, k)[i] == p[|p| - 1 - i]
  {
    if i > 0 {
      DrawNAt(p[..|p| - 1], k - 1, i - 1);
    }
  }

  /** Drawing `a` and then `b` cards draws the same as drawing `a + b` at once. */
  lemma DrawNSplit(p: seq<Card>, a: nat, b: nat)
    requires a + b <= |p|
    ensures DrawN(p, a + b) == DrawN(p, a) + DrawN(p[..|p| - a], b)
  {
    var whole, parts := DrawN(p, a + b), DrawN(p, a) + DrawN(p[..|p| - a], b);
    forall i | 0 <= i < a + b ensures whole[i] == parts[i] {
      DrawNAt(p, a + b, i);
      if i < a {
        DrawNAt(p, a, i);
      } else {
        DrawNAt(p[..|p| - a], b, i - a);
      }
    }
  }

  /** Drawing moves cards and loses none: drawn and left-over cards make up the pile. */
  lemma {:induction false} DrawNConserves(p: seq<Card>, k: nat)
    requires k <= |p|
    ensures multiset(DrawN(p, k)) + multiset(p[..|p| - k]) == multiset(p)
  {
    if k > 0 {
      var q := p[..|p| - 1];
      DrawNConserves(q, k - 1);
      assert q[..|q| - (k - 1)] == p[..|p| - k];
      assert p == q + [Last(p)];
      assert DrawN(p, k) == [Last(p)] + DrawN(q, k - 1);
      assert multiset(DrawN(p, k)) == multiset{Last(p)} + multiset(DrawN(q, k - 1));
      assert multiset(p) == multiset(q) + multiset{Last(p)};
    } else {
      assert p[..|p| - k] == p;
    }
  }

  // ---------------------------------------------------------------------------
  // The discard pile
  // ---------------------------------------------------------------------------

  /** The top card of the discard pile, if any (`get_topmost_card`). */
  function Top(played: seq<Card>): (r: Option<Card>)
    ensures r.Some? <==> played != []
    ensures r.Some? ==> r.value == Last(played)
  {
    if played != [] then Some(Last(played)) else None
  }

  /** `check_valid_play`: any card on an empty discard pile; otherwise a card of the top
      card's colour or value, or a wild card. */
  predicate Playable(played: seq<Card>, c: Card): (b: bool)
    ensures played == [] || c.IsWild() ==> b
    ensures b && played != [] && !c.IsWild() ==> Last(played).color == c.color || Last(played).value == c.value
  {
    match Top(played)
    case None => true
    case Some(top) => top.color == c.color || top.value == c.value || c.IsWild()
  }

  /** What `Deck.play_card` keeps: wild cards, and other cards with a valid colour and value. */
  predicate KeptOnDiscard(c: Card) {
    c.IsWild() || (c.HasValidColour() && c.HasValidValue())
  }

  /** What `Deck.return_card` keeps. */
  predicate KeptOnReturn(c: Card) {
    c.HasValidColour() && c.HasValidValue()
  }

  /** A wild card can be played on anything. */
  lemma WildAlwaysPlayable(played: seq<Card>, c: Card)
    requires c.IsWild()
    ensures Playable(played, c)
  {
  }

  /** Between two non-wild cards, playability is symmetric: `a` may follow `b` exactly
      when `b` may follow `a`. */
  lemma PlayableSymmetric(a: Card, b: Card, rest: seq<Card>)
    requires !a.IsWild() && !b.IsWild()
    ensures Playable(rest + [b], a) == Playable(rest + [a], b)
  {
  }

  /** `set_wild`: gives the top card colour `c` when `c` is one of the four colours and the
      top card is wild; otherwise the discard pile stays as it is. */
  function WildSet(played: seq<Card>, c: string): (r: seq<Card>)
    requires c in Colours ==> played != []
    ensures |r| == |played|
    ensures r != [] ==> r[..|r| - 1] == played[..|played| - 1] && Last(r).value == Last(played).value
  {
    if c in Colours && Last(played).IsWild() then played[..|played| - 1] + [Last(played).SetColour(c)]
    else played
  }

  /** After `set_wild` with a valid colour on a wild top card, the top card is that colour,
      and any card of that colour may follow it. */
  lemma WildSetColours(played: seq<Card>, c: string, v: int)
    requires c in Colours && played != [] && Last(played).IsWild()
    ensures Last(WildSet(played, c)) == Card(Last(played).value, c)
    ensures Playable(WildSet(played, c), Card(v, c))
  {
  }

  // ---------------------------------------------------------------------------
  // Building the piles: the loops of `__init__` and `double_deck`
  // ---------------------------------------------------------------------------

  /** One pass of the colour loop for index `j` and value `v`. */
  method AppendRow(pile: seq<Card>, j: int, v: int) returns (r: seq<Card>)
    ensures r == pile + Row(j, v)
  {
    r := pile;
    var k := 0;
    while k < |Colours|
      invariant 0 <= k <= |Colours|
      invariant r == pile + RowPrefix(j, v, k)
    {
      var c := Colours[k];
      if j < 10 {
        r := r + [Card(v, c)];
        r := r + [Card(v, c)];
      } else if j < 13 {
        r := r + [Card(v, c)];
      } else {
        r := r + [Card(v, "")];
      }
      k := k + 1;
    }
  }

  /** The first loop of `__init__` (and the loop of `double_deck`). */
  method BuildStandardSet() returns (s: seq<Card>)
    ensures s == StandardSet()
  {
    s := [];
    var j := 0;
    while j < RowCount
      invariant 0 <= j <= RowCount
      invariant s == StandardPrefix(j)
    {
      s := AppendRow(s, j, j);
      j := j + 1;
    }
  }

  /** The second loop of `__init__`: `count` extra sets appended to `pile`. */
  method AppendExtraSets(pile: seq<Card>, count: nat) returns (s: seq<Card>)
    ensures s == pile + ExtraSets(count)
  {
    s := pile;
    var i := 0;
    while i < count
      invariant 0 <= i <= count
      invariant s == pile + ExtraSets(i)
    {
      var j := 0;
      while j < RowCount
        invariant 0 <= j <= RowCount
        invariant s == pile + ExtraSets(i) + ExtraPrefix(i, j)
      {
        s := AppendRow(s, j, i);
        j := j + 1;
      }
      i := i + 1;
    }
  }

  /** `random.shuffle`: the cards come back in some order; which one is not modelled. */
  method Shuffle(s: seq<Card>) returns (r: seq<Card>)
    ensures IsPermutation(r, s)
  {
    assert IsPermutation(s, s);
    r :| IsPermutation(r, s);
  }

  /** The loops of `__init__` followed by its shuffle. */
  method BuildNewPile(numPlayers: int) returns (pile: seq<Card>)
    ensures IsPermutation(pile, NewPile(numPlayers))
    ensures |pile| == 100 + 100 * ExtraSetCount(numPlayers)
  {
    pile := BuildStandardSet();
    pile := AppendExtraSets(pile, ExtraSetCount(numPlayers));
    pile := Shuffle(pile);
    NewPileSize(numPlayers);
    PermutationSize(pile, NewPile(numPlayers));
  }

  /** `Deck`: a draw pile `deck` whose top is its last card, and a discard pile `played`
      whose top is its last card. */
  class Deck {
    var deck: seq<Card>
    var played: seq<Card>

    /** `Deck(num_players)`: the standard set and the extra sets, shuffled; nothing played. */
    constructor (numPlayers: int)
      ensures IsPermutation(deck, NewPile(numPlayers))
      ensures |deck| == 100 + 100 * ExtraSetCount(numPlayers)
      ensures played == []
    {
      var pile := BuildNewPile(numPlayers);
      deck := pile;
      played := [];
    }

    /** `double_deck`: refills the draw pile with a shuffled standard set, but only when
        both piles are empty. */
    method DoubleDeck()
      modifies this
      ensures old(deck) == [] && old(played) == [] ==> IsPermutation(deck, StandardSet()) && |deck| == 100
      ensures !(old(deck) == [] && old(played) == []) ==> deck == old(deck)
      ensures played == old(played)
    {
      if |deck| <= 0 && |played| <= 0 {
        var pile := BuildStandardSet();
        pile := Shuffle(pile);
        NewPileSize(0);
        PermutationSize(pile, StandardSet());
        deck := pile;
      }
    }

    /** `draw_card`: pops the top of the draw pile, after a refill when both piles are
        empty. The source's `reshuffle` branch (empty draw pile, non-empty discard pile)
        replaces the draw pile by `None` and fails, so it is excluded here. */
    method DrawCard() returns (c: Card)
      requires deck != [] || played == []
      modifies this
      ensures old(deck) != [] ==> c == Last(old(deck)) && deck == old(deck)[..|old(deck)| - 1]
      ensures old(deck) == [] ==> IsPermutation(deck + [c], StandardSet())
      ensures played == old(played)
    {
      if |deck| <= 0 && |played| <= 0 {
        DoubleDeck();
      }
      ghost var full := deck;
      c := deck[|deck| - 1];
      deck := deck[..|deck| - 1];
      assert full == deck + [c];
    }

    /** `draw_n_cards`: `n` successive draws (none for a negative `n`). When the draw pile
        holds them, they are its top `n` cards, in the order popped. */
    method DrawNCards(n: int) returns (cards: seq<Card>)
      requires played != [] ==> n <= |deck|
      modifies this
      ensures |cards| == if n < 0 then 0 else n
      ensures 0 <= n <= |old(deck)| ==> cards == DrawN(old(deck), n) && deck == old(deck)[..|old(deck)| - n]
      ensures played == old(played)
    {
      cards := [];
      var i := 0;
      while i < n
        invariant 0 <= i && (n >= 0 ==> i <= n) && (n < 0 ==> i == 0)
        invariant |cards| == i
        invariant played == old(played)
        invariant played != [] ==> n - i <= |deck|
        invariant n <= |old(deck)| ==> cards == DrawN(old(deck), i) && deck == old(deck)[..|old(deck)| - i]
      {
        var c := DrawCard();
        if n <= |old(deck)| {
          DrawNSplit(old(deck), i, 1);
        }
        cards := cards + [c];
        i := i + 1;
      }
    }

    /** `draw_hand`: seven successive draws. */
    method DrawHand() returns (hand: seq<Card>)
      requires played != [] ==> 7 <= |deck|
      modifies this
      ensures |hand| == 7
      ensures 7 <= |old(deck)| ==> hand == DrawN(old(deck), 7) && deck == old(deck)[..|old(deck)| - 7]
      ensures played == old(played)
    {
      hand := DrawNCards(7);
    }

    /** `get_topmost_card`. */
    function TopmostCard(): (r: Option<Card>)
      reads this
      ensures r.Some? <==> played != []
      ensures r.Some? ==> r.value == played[|played| - 1]
    {
      Top(played)
    }

    /** `play_card`: puts `c` on the discard pile when it is wild or has a valid colour and
        value; any other card is dropped. */
    method PlayCard(c: Card)
      modifies this
      ensures played == old(played) + (if KeptOnDiscard(c) then [c] else [])
      ensures deck == old(deck)
    {
      if c.IsWild() {
        played := played + [c];
        return;
      }
      if c.HasValidColour() && c.HasValidValue() {
        played := played + [c];
      }
    }

    /** `check_valid_play`. */
    function CheckValidPlay(c: Card): (b: bool)
      reads this
      ensures b <==> played == [] || Last(played).color == c.color || Last(played).value == c.value || c.IsWild()
    {
      Playable(played, c)
    }

    /** `return_card`: puts `c` at the bottom of the draw pile when its colour and value are
        valid; any other card (an uncoloured wild, say) is dropped. */
    method ReturnCard(c: Card)
      modifies this
      ensures deck == (if KeptOnReturn(c) then [c] else []) + old(deck)
      ensures played == old(played)
    {
      if c.HasValidColour() && c.HasValidValue() {
        deck := [c] + deck;
      }
    }

    /** `set_wild`. */
    method SetWild(c: string)
      requires c in Colours ==> played != []
      modifies this
      ensures played == WildSet(old(played), c)
      ensures deck == old(deck)
    {
      if c in Colours && played[|played| - 1].IsWild() {
        played := played[..|played| - 1] + [played[|played| - 1].SetColour(c)];
      }
    }
  }
}
