/** A playing card of the Uno engine (`Card` in uno.py). */
module Cards {

  /** The four colours a non-wild card carries; Python keeps them as one-letter strings. */
  const Colours: seq<string> := ["R", "Y", "G", "B"]

  /** A card's face value and colour. Values 0-9 are numerals, 10 Skip, 11 Reverse,
      12 Draw Two, 13 Wild, 14 Wild Draw Four. An uncoloured wild has colour "". */
  datatype Card = Card(value: int, color: string) {

    /** `is_wild`: the card is a Wild or a Wild Draw Four, never a numeral. */
    predicate IsWild(): (b: bool)
      ensures b ==> value >= 10
    {
      value == 13 || value == 14
    }

    /** `check_valid_color`: the colour is one of R, Y, G, B, so one letter long. */
    predicate HasValidColour(): (b: bool)
      ensures b ==> |color| == 1
    {
      color in Colours
    }

    /** `check_valid_value`: the value is not negative, as for every wild card. */
    predicate HasValidValue(): (b: bool)
      ensures IsWild() ==> b
    {
      value >= 0
    }

    /** `set_color`: recolours a wild card; any other card is left as it was. */
    function SetColour(c: string): (r: Card)
      ensures r.value == value
      ensures IsWild() ==> r.color == c
      ensures !IsWild() ==> r == this
    {
      if IsWild() then Card(value, c) else this
    }
  }

  /** Recolouring keeps a card wild or non-wild and a second recolouring overrides the first. */
  lemma SetColourTwice(card: Card, c1: string, c2: string)
    ensures card.SetColour(c1).IsWild() == card.IsWild()
    ensures card.SetColour(c1).SetColour(c2) == card.SetColour(c2)
  {
  }
}
