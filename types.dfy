/**
 * The colour-holder data model of the game: an RGB triple, the three cell
 * variants that share it (Blank, Tile, Source), the record the game-parameter
 * provider returns, and the constructors and colour setter of the cells.
 *
 * The program's cells are objects whose `rgb` and `isClosest` fields are
 * assigned in place; here a cell is a value and each assignment is a function
 * returning the updated value, which the board then stores back.
 */
module Types {

  datatype Option<T> = None | Some(value: T)

  /** An RGB colour; channels are exact rationals (no floating point). */
  datatype RGB = RGB(red: real, green: real, blue: real)

  const Black := RGB(0.0, 0.0, 0.0)
  const Red := RGB(255.0, 0.0, 0.0)
  const Green := RGB(0.0, 255.0, 0.0)
  const Blue := RGB(0.0, 0.0, 255.0)
  const White := RGB(255.0, 255.0, 255.0)

  /**
   * Every cell is exactly one of the three variants. A Blank carries nothing
   * beyond its colour; a Tile carries the closest-match marker; a Source
   * carries the row and column it was created for.
   */
  datatype Cell =
    | Blank(rgb: RGB)
    | Tile(rgb: RGB, isClosest: bool)
    | Source(rgb: RGB, row: int, col: int)

  /** The provider's answer: interior dimensions, move budget and target. */
  datatype GameInfo = GameInfo(userId: string, maxMoves: nat, width: nat, height: nat, target: seq<real>)

  /** The base constructor's optional colour argument: absent means black. */
  function ColorOrBlack(rgb: Option<RGB>): (c: RGB)
    ensures rgb.None? ==> c == Black
    ensures rgb.Some? ==> c == rgb.value
  {
    match rgb
    case None => Black
    case Some(v) => v
  }

  function NewBlank(rgb: Option<RGB>): (c: Cell)
    ensures c.Blank?
    ensures c.rgb == ColorOrBlack(rgb)
  {
    Blank(ColorOrBlack(rgb))
  }

  /** A new Tile is never marked as the closest match. */
  function NewTile(rgb: Option<RGB>): (c: Cell)
    ensures c.Tile? && !c.isClosest
    ensures c.rgb == ColorOrBlack(rgb)
  {
    Tile(ColorOrBlack(rgb), false)
  }

  /** A new Source keeps the row and column it is given. */
  function NewSource(row: int, col: int, rgb: Option<RGB>): (c: Cell)
    ensures c.Source? && c.row == row && c.col == col
    ensures c.rgb == ColorOrBlack(rgb)
  {
    Source(ColorOrBlack(rgb), row, col)
  }

  /** Cells `a` and `b` are the same variant and agree on everything but colour. */
  predicate SameExceptColor(a: Cell, b: Cell)
  {
    match a
    case Blank(_) => b.Blank?
    case Tile(_, m) => b.Tile? && b.isClosest == m
    case Source(_, r, k) => b.Source? && b.row == r && b.col == k
  }

  /** `setColors`: the colour becomes `rgb`, nothing else about the cell changes. */
  function SetColors(c: Cell, rgb: RGB): (r: Cell)
    ensures r.rgb == rgb
    ensures SameExceptColor(c, r)
  {
    match c
    case Blank(_) => Blank(rgb)
    case Tile(_, m) => Tile(rgb, m)
    case Source(_, row, col) => Source(rgb, row, col)
  }

  /** Assigning a Tile's `isClosest` marker; its colour is untouched. */
  function SetClosest(c: Cell, flag: bool): (r: Cell)
    requires c.Tile?
    ensures r.Tile? && r.isClosest == flag && r.rgb == c.rgb
  {
    Tile(c.rgb, flag)
  }

  /** Two cells that agree on colour and on everything else are equal. */
  lemma SameExceptColorEq(a: Cell, b: Cell)
    requires SameExceptColor(a, b) && a.rgb == b.rgb
    ensures a == b
  {
  }

  /** Setting colours keeps the variant fields, and the last colour set wins. */
  lemma {:induction false} SetColorsTwice(c: Cell, x: RGB, y: RGB)
    ensures SetColors(SetColors(c, x), y) == SetColors(c, y)
    ensures SetColors(c, c.rgb) == c
  {
    SameExceptColorEq(SetColors(SetColors(c, x), y), SetColors(c, y));
    SameExceptColorEq(SetColors(c, c.rgb), c);
  }
}
