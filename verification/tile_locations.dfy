/** The coordinate algebra of the hex grid: a location is a (column, row)
    pair, locations are ordered row first, and the six neighbours of a
    location are found with an offset rule that depends on the parity of
    its row (odd rows are shifted half a tile to the right). */
module TileLocations {
  import opened Basics

  datatype TileLocation = TileLocation(column: int, row: int)

  /** The centre of every map, where the player's base stands. */
  const Origin: TileLocation := TileLocation(0, 0)

  /** Reference ordering: an earlier row comes first, and within one row an
      earlier column comes first. */
  predicate Precedes(a: TileLocation, b: TileLocation) {
    a.row < b.row || (a.row == b.row && a.column < b.column)
  }

  /** The comparer used to key the map's sorted dictionary. */
  function Compare(lhs: TileLocation, rhs: TileLocation): (r: int)
    ensures r == -1 || r == 0 || r == 1
    ensures r == 0 <==> lhs == rhs
    ensures r == -1 <==> Precedes(lhs, rhs)
    ensures r == 1 <==> Precedes(rhs, lhs)
  {
    if lhs.row < rhs.row then -1
    else if lhs.row > rhs.row then 1
    else if lhs.column < rhs.column then -1
    else if lhs.column > rhs.column then 1
    else 0
  }

  lemma CompareAntisymmetric(a: TileLocation, b: TileLocation)
    ensures Compare(a, b) == -Compare(b, a)
  {
  }

  /** Compare is a total order: it is transitive on both its strict and its
      non-strict reading, and any two locations are comparable. */
  lemma CompareTotalOrder(a: TileLocation, b: TileLocation, c: TileLocation)
    ensures Compare(a, b) <= 0 && Compare(b, c) <= 0 ==> Compare(a, c) <= 0
    ensures Compare(a, b) < 0 && Compare(b, c) < 0 ==> Compare(a, c) < 0
    ensures Compare(a, b) <= 0 || Compare(b, a) <= 0
  {
  }

  /** `Mathf.Abs(row % 2)` with C#'s truncating `%`: 0 on even rows and 1 on
      odd rows, negative rows included. */
  function RowOffset(row: int): (o: int)
    ensures o == row % 2
    ensures o == 0 || o == 1
  {
    Abs(TruncatedRem(row, 2))
  }

  /** A negative odd row is shifted exactly like a positive odd row. */
  lemma RowOffsetIgnoresSign(row: int)
    ensures RowOffset(-row) == RowOffset(row)
    ensures RowOffset(row + 1) == 1 - RowOffset(row)
  {
  }

  /** The six neighbour candidates of a location, in the order the map
      lists them: left, upper-left, upper-right, right, lower-right,
      lower-left. */
  function NeighborLocations(loc: TileLocation): seq<TileLocation> {
    var c := loc.column;
    var r := loc.row;
    var o := RowOffset(r);
    [ TileLocation(c - 1, r),
      TileLocation(c - 1 + o, r - 1),
      TileLocation(c + o, r - 1),
      TileLocation(c + 1, r),
      TileLocation(c + o, r + 1),
      TileLocation(c - 1 + o, r + 1) ]
  }

  /** Hex adjacency: `b` is one of the six candidates around `a`. */
  predicate Adjacent(a: TileLocation, b: TileLocation) {
    b in NeighborLocations(a)
  }

  /** Every location has six distinct neighbours, none of them itself. */
  lemma NeighborLocationsShape(loc: TileLocation)
    ensures |NeighborLocations(loc)| == 6
    ensures Distinct(NeighborLocations(loc))
    ensures !Adjacent(loc, loc)
  {
  }

  /** Spelled out: `b` is adjacent to `a` when it sits beside it in the same
      row, or one row up or down in one of the two columns that the row
      parity of `a` selects. */
  lemma AdjacentByParity(a: TileLocation, b: TileLocation)
    ensures Adjacent(a, b) <==>
      (b.row == a.row && (b.column == a.column - 1 || b.column == a.column + 1)) ||
      ((b.row == a.row - 1 || b.row == a.row + 1) &&
       (b.column == a.column - 1 + a.row % 2 || b.column == a.column + a.row % 2))
  {
  }

  /** Adjacency is symmetric, although the candidate offsets differ between
      even and odd rows. */
  lemma {:induction false} AdjacentSymmetric(a: TileLocation, b: TileLocation)
    ensures Adjacent(a, b) <==> Adjacent(b, a)
  {
    AdjacentByParity(a, b);
    AdjacentByParity(b, a);
    RowOffsetIgnoresSign(a.row);
    RowOffsetIgnoresSign(a.row - 1);
  }
}
