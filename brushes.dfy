/**
  The colours of a tile. Selection is not stored anywhere else: a tile is
  selected when its background is LightGoldenrodYellow (the test the delete
  handler makes), and the click handler decides by the border brush.
 */
module Brushes {

  /**
    The brushes the tile code reads or writes. ThemeDefault stands for the
    border a new Button gets from its style, which CreateTile does not set.
   */
  datatype Brush = White | Black | LightGoldenrodYellow | Goldenrod | ThemeDefault

  /** A tile's Background and BorderBrush. */
  datatype Look = Look(background: Brush, border: Brush)

  /** The colours CreateTile gives a new tile. */
  const Initial: Look := Look(White, ThemeDefault)

  /** The delete handler's test. */
  predicate ShowsSelected(l: Look) {
    l.background == LightGoldenrodYellow
  }

  /** The two colour pairs a tile can have: unselected or selected. */
  predicate Consistent(l: Look) {
    (l.background == White && l.border != Goldenrod) ||
    (l.background == LightGoldenrodYellow && l.border == Goldenrod)
  }

  /**
    The colours after a click. From a consistent pair the click keeps the pair
    consistent and flips selection, so the border test it makes agrees with
    the background test of the delete handler.
   */
  function AfterClick(l: Look): (r: Look)
    ensures Consistent(r)
    ensures Consistent(l) ==> (ShowsSelected(r) <==> !ShowsSelected(l))
    ensures Consistent(l) ==> (l.border == Goldenrod <==> ShowsSelected(l))
  {
    if l.border == Goldenrod then Look(White, Black)
    else Look(LightGoldenrodYellow, Goldenrod)
  }

  /** A new tile is unselected and consistent. */
  lemma InitialUnselected()
    ensures Consistent(Initial) && !ShowsSelected(Initial)
  {
  }

  /**
    A double click restores the selection but not the colours of a new tile:
    its border ends Black instead of the theme's default.
   */
  lemma DoubleClick(l: Look)
    requires Consistent(l)
    ensures ShowsSelected(AfterClick(AfterClick(l))) == ShowsSelected(l)
    ensures AfterClick(AfterClick(Initial)) == Look(White, Black) != Initial
  {
  }
}
