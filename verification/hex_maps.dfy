/** The world map: a dictionary from locations to tiles covering the square
    of columns and rows -size..size, with the base at the centre.  Tiles are
    only ever added; the map grows by one ring at a time. */
module HexMaps {
  import opened Basics
  import opened Kinds
  import opened TileLocations
  import opened Parameters
  import opened Tiles
  import B = Buildings

  datatype HexMap = HexMap(id: MapId, size: int, tiles: map<TileLocation, Tile>)

  /** The terrain generator: it stands in for the source's random choice. */
  type Terrain = TileLocation -> BackgroundType

  predicate InSquare(l: TileLocation, s: int) {
    -s <= l.column <= s && -s <= l.row <= s
  }

  /** Every tile sits under its own location and points back to this map. */
  predicate WellFormed(h: HexMap) {
    forall l :: l in h.tiles ==> h.tiles[l].location == l && h.tiles[l].parentMap == Some(h.id)
  }

  /** A well-formed map whose locations are exactly the square of its size. */
  ghost predicate Shaped(h: HexMap) {
    WellFormed(h) && forall l :: l in h.tiles <==> InSquare(l, h.size)
  }

  /** (col, lo), (col, lo + 1), ..., (col, hi). */
  function ColumnRun(col: int, lo: int, hi: int): (r: seq<TileLocation>)
    ensures |r| == if lo <= hi then hi - lo + 1 else 0
    ensures forall l :: l in r <==> l.column == col && lo <= l.row <= hi
    ensures Distinct(r)
    decreases hi - lo
  {
    if lo > hi then []
    else
      var rest := ColumnRun(col, lo + 1, hi);
      DistinctConcat([TileLocation(col, lo)], rest);
      [TileLocation(col, lo)] + rest
  }

  /** Columns col..s of the square of size s, column by column, each from
      the top row down: the order of the creation loops. */
  function SquareFrom(s: int, col: int): (r: seq<TileLocation>)
    ensures forall l :: l in r <==> col <= l.column <= s && -s <= l.row <= s
    ensures Distinct(r)
    ensures s >= 0 && col <= s + 1 ==> |r| == Sum(s + 1 - col, 2 * s + 1)
    decreases s - col
  {
    if col > s then []
    else
      var run := ColumnRun(col, -s, s);
      var rest := SquareFrom(s, col + 1);
      DistinctConcat(run, rest);
      run + rest
  }

  function SquareLocs(s: int): (r: seq<TileLocation>)
    ensures forall l :: l in r <==> InSquare(l, s)
    ensures Distinct(r)
  {
    SquareFrom(s, -s)
  }

  /** The pairs (-s-1, row), (s+1, row) for row = from..s: the two new
      columns of a growth step. */
  function SideColumns(s: int, from: int): (r: seq<TileLocation>)
    ensures |r| == if from <= s then 2 * (s - from + 1) else 0
    ensures forall l :: l in r <==> (l.column == -s - 1 || l.column == s + 1) && from <= l.row <= s
    ensures s != -1 ==> Distinct(r)
    decreases s - from
  {
    if from > s then []
    else
      var rest := SideColumns(s, from + 1);
      var pair := [TileLocation(-s - 1, from), TileLocation(s + 1, from)];
      assert s != -1 ==> Distinct(pair + rest) by {
        if s != -1 {
          DistinctConcat(pair, rest);
        }
      }
      pair + rest
  }

  /** The pairs (col, -s-1), (col, s+1) for col = from..s+1: the two new
      rows of a growth step, corners included. */
  function SideRows(s: int, from: int): (r: seq<TileLocation>)
    ensures |r| == if from <= s + 1 then 2 * (s + 1 - from + 1) else 0
    ensures forall l :: l in r <==> (l.row == -s - 1 || l.row == s + 1) && from <= l.column <= s + 1
    ensures s != -1 ==> Distinct(r)
    decreases s + 1 - from
  {
    if from > s + 1 then []
    else
      var rest := SideRows(s, from + 1);
      var pair := [TileLocation(from, -s - 1), TileLocation(from, s + 1)];
      assert s != -1 ==> Distinct(pair + rest) by {
        if s != -1 {
          DistinctConcat(pair, rest);
        }
      }
      pair + rest
  }

  /** The locations a growth step of a map of size s adds, in loop order. */
  function GrowLocs(s: int): (r: seq<TileLocation>)
    ensures s >= 0 ==> Distinct(r) && |r| == 8 * (s + 1)
    ensures s >= 0 ==> forall l :: l in r <==> InSquare(l, s + 1) && !InSquare(l, s)
  {
    var cols := SideColumns(s, -s);
    var rows := SideRows(s, -s - 1);
    assert s >= 0 ==> Distinct(cols + rows) by {
      if s >= 0 {
        DistinctConcat(cols, rows);
      }
    }
    cols + rows
  }

  /** Growing a map of size -1 would add the centre twice. */
  lemma GrowLocsRepeatsCentre()
    ensures GrowLocs(-1) == [Origin, Origin]
  {
  }

  /** Adds a new tile at each location in turn; like a dictionary `Add`,
      it fails (None) on a location that is already taken. */
  function PlaceTiles(tiles: map<TileLocation, Tile>, locs: seq<TileLocation>, terrain: Terrain, id: MapId)
    : (r: Option<map<TileLocation, Tile>>)
    ensures r.Some? <==> Distinct(locs) && forall i :: 0 <= i < |locs| ==> locs[i] !in tiles
    ensures r.Some? ==> r.value.Keys == tiles.Keys + Elems(locs)
    ensures r.Some? ==> forall l :: l in tiles ==> r.value[l] == tiles[l]
    ensures r.Some? ==> forall l :: l in r.value && l !in tiles ==> r.value[l] == NewTile(l, terrain(l), Some(id))
    decreases |locs|
  {
    if |locs| == 0 then Some(tiles)
    else
      var l := locs[0];
      var rest := locs[1..];
      assert Distinct(locs) <==> l !in rest && Distinct(rest) by {
        if l !in rest && Distinct(rest) {
          forall i, j | 0 <= i < j < |locs| ensures locs[i] != locs[j] {
            assert locs[j] == rest[j - 1];
            if i > 0 {
              assert locs[i] == rest[i - 1];
            }
          }
        }
        if Distinct(locs) {
          forall i, j | 0 <= i < j < |rest| ensures rest[i] != rest[j] {
            assert rest[i] == locs[i + 1] && rest[j] == locs[j + 1];
          }
        }
      }
      assert Elems(locs) == {l} + Elems(rest) by {
        assert locs == [l] + rest;
      }
      if l in tiles then None
      else
        var r := PlaceTiles(tiles[l := NewTile(l, terrain(l), Some(id))], rest, terrain, id);
        assert r.Some? <==> Distinct(locs) && forall i :: 0 <= i < |locs| ==> locs[i] !in tiles by {
          assert forall i :: 1 <= i < |locs| ==> locs[i] == rest[i - 1];
          assert forall i :: 0 <= i < |rest| ==> rest[i] == locs[i + 1];
        }
        r
  }

  /** Placing the whole square on an empty dictionary succeeds and gives
      exactly the square, all of it fresh tiles of this map. */
  lemma PlaceSquare(id: MapId, size: int, terrain: Terrain)
    ensures var r := PlaceTiles(map[], SquareLocs(size), terrain, id);
      && r.Some?
      && (forall l :: l in r.value <==> InSquare(l, size))
      && (forall l :: l in r.value ==> r.value[l] == NewTile(l, terrain(l), Some(id)))
  {
    var locs := SquareLocs(size);
    var r := PlaceTiles(map[], locs, terrain, id);
    assert r.Some?;
    forall l ensures l in r.value <==> InSquare(l, size) {
      assert l in r.value <==> l in Elems(locs);
    }
  }

  /** Generates a map of the given size: one tile per location of the
      square, with the terrain the generator picks, and the base on the
      centre tile.  A negative size gives an empty map. */
  function Create(id: MapId, size: int, terrain: Terrain): (h: HexMap)
    ensures h.id == id && h.size == size
    ensures Shaped(h)
    ensures forall l :: l in h.tiles ==> h.tiles[l].background == terrain(l)
    ensures forall l :: l in h.tiles ==>
              h.tiles[l].building == if l == Origin then Some(B.CreateBuilding(Base)) else None
  {
    PlaceSquare(id, size, terrain);
    var h0 := HexMap(id, size, PlaceTiles(map[], SquareLocs(size), terrain, id).value);
    assert Shaped(h0);
    if Origin in h0.tiles then PutBase(h0) else h0
  }

  /** Builds the base on the centre tile of a freshly generated map. */
  function PutBase(h: HexMap): (r: HexMap)
    requires Origin in h.tiles && h.tiles[Origin].building.None?
    ensures r.id == h.id && r.size == h.size && r.tiles.Keys == h.tiles.Keys
    ensures forall l :: l in h.tiles && l != Origin ==> r.tiles[l] == h.tiles[l]
    ensures r.tiles[Origin] == h.tiles[Origin].(building := Some(B.CreateBuilding(Base)))
    ensures Shaped(h) ==> Shaped(r)
  {
    h.(tiles := h.tiles[Origin := Tiles.Build(h.tiles[Origin], Base)])
  }

  /** Adds one ring of new tiles around the map; None when a location is
      already taken (the source throws). */
  function Grow(h: HexMap, terrain: Terrain): (r: Option<HexMap>)
    ensures r.Some? ==> r.value.id == h.id && r.value.size == h.size + 1
    ensures r.Some? ==> forall l :: l in h.tiles ==> l in r.value.tiles && r.value.tiles[l] == h.tiles[l]
    ensures r.Some? ==> forall l :: l in r.value.tiles && l !in h.tiles ==>
              r.value.tiles[l] == NewTile(l, terrain(l), Some(h.id))
  {
    match PlaceTiles(h.tiles, GrowLocs(h.size), terrain, h.id)
    case None => None
    case Some(tiles) => Some(h.(size := h.size + 1, tiles := tiles))
  }

  /** Growing a map of size -1 fails: the column loops do not run, and the
      row loop adds the centre twice. */
  lemma GrowFailsAtMinusOne(h: HexMap, terrain: Terrain)
    requires h.size == -1
    ensures Grow(h, terrain).None?
  {
    var locs := GrowLocs(-1);
    GrowLocsRepeatsCentre();
    assert locs[0] == locs[1];
    assert !Distinct(locs);
  }

  /** On a well-shaped map of size s >= 0 no location of the new ring is
      taken, so growing succeeds. */
  lemma GrowSucceeds(h: HexMap, terrain: Terrain)
    requires Shaped(h) && h.size >= 0
    ensures PlaceTiles(h.tiles, GrowLocs(h.size), terrain, h.id).Some?
    ensures Grow(h, terrain).Some?
  {
    var locs := GrowLocs(h.size);
    forall i | 0 <= i < |locs| ensures locs[i] !in h.tiles {
      assert locs[i] in locs;
      assert !InSquare(locs[i], h.size);
    }
  }

  /** The grown map covers exactly the square one size larger. */
  lemma GrowCoversSquare(h: HexMap, terrain: Terrain)
    requires Shaped(h) && h.size >= 0
    ensures Grow(h, terrain).Some?
    ensures forall l :: l in Grow(h, terrain).value.tiles <==> InSquare(l, h.size + 1)
  {
    GrowSucceeds(h, terrain);
    var g := Grow(h, terrain).value;
    var locs := GrowLocs(h.size);
    forall l ensures l in g.tiles <==> InSquare(l, h.size + 1) {
      assert l in g.tiles <==> l in h.tiles || l in Elems(locs);
    }
  }

  /** Growing keeps every tile under its own location and in this map. */
  lemma GrowWellFormed(h: HexMap, terrain: Terrain)
    requires WellFormed(h) && Grow(h, terrain).Some?
    ensures WellFormed(Grow(h, terrain).value)
  {
    var g := Grow(h, terrain).value;
    forall l | l in g.tiles ensures g.tiles[l].location == l && g.tiles[l].parentMap == Some(g.id) {
      if l !in h.tiles {
        assert g.tiles[l] == NewTile(l, terrain(l), Some(h.id));
      }
    }
  }

  /** Growing a well-shaped map keeps it well-shaped, one size larger, and
      the new tiles form the ring at distance size + 1. */
  lemma GrowKeepsShape(h: HexMap, terrain: Terrain)
    requires Shaped(h) && h.size >= 0
    ensures Grow(h, terrain).Some?
    ensures Shaped(Grow(h, terrain).value)
    ensures forall l :: l in Grow(h, terrain).value.tiles && l !in h.tiles ==>
              Max(Abs(l.column), Abs(l.row)) == h.size + 1
  {
    GrowCoversSquare(h, terrain);
    GrowWellFormed(h, terrain);
    var g := Grow(h, terrain).value;
    forall l | l in g.tiles && l !in h.tiles ensures Max(Abs(l.column), Abs(l.row)) == h.size + 1 {
      assert InSquare(l, h.size + 1) && !InSquare(l, h.size);
    }
  }

  /** A well-shaped map has one tile per location of its square, so by
      `SquareCount` a map of size s >= 0 holds (2s + 1)^2 tiles. */
  lemma ShapedKeyCount(h: HexMap)
    requires Shaped(h)
    ensures |h.tiles| == |SquareLocs(h.size)|
  {
    ShapedKeys(h);
    DistinctCardinality(SquareLocs(h.size));
    assert |h.tiles| == |h.tiles.Keys|;
  }

  lemma ShapedKeys(h: HexMap)
    requires Shaped(h)
    ensures h.tiles.Keys == Elems(SquareLocs(h.size))
  {
    var locs := SquareLocs(h.size);
    forall l ensures l in h.tiles.Keys <==> l in Elems(locs) {
      assert l in h.tiles <==> InSquare(l, h.size);
      assert l in locs <==> InSquare(l, h.size);
    }
  }

  /** The square of size s >= 0 lists (2s + 1)^2 locations. */
  lemma SquareCount(s: int)
    requires s >= 0
    ensures |SquareLocs(s)| == (2 * s + 1) * (2 * s + 1)
  {
    var w := 2 * s + 1;
    assert s + 1 - -s == w;
    RepeatedSum(w, w);
  }

  /** n copies of w added up, written without multiplication. */
  function Sum(n: nat, w: int): int {
    if n == 0 then 0 else w + Sum(n - 1, w)
  }

  lemma {:induction false} RepeatedSum(n: nat, w: int)
    ensures Sum(n, w) == n * w
  {
    if n > 0 {
      RepeatedSum(n - 1, w);
      assert n * w == w + (n - 1) * w;
    }
  }

  /** A successful growth step adds one tile per location it generates. */
  lemma GrowAddsOnePerLocation(h: HexMap, terrain: Terrain)
    requires Grow(h, terrain).Some?
    ensures |Grow(h, terrain).value.tiles| == |h.tiles| + |GrowLocs(h.size)|
  {
    var locs := GrowLocs(h.size);
    var g := Grow(h, terrain).value;
    assert PlaceTiles(h.tiles, locs, terrain, h.id).Some?;
    DistinctCardinality(locs);
    assert h.tiles.Keys * Elems(locs) == {} by {
      forall l | l in Elems(locs) ensures l !in h.tiles {
        var i :| 0 <= i < |locs| && locs[i] == l;
      }
    }
    assert g.tiles.Keys == h.tiles.Keys + Elems(locs);
    assert |g.tiles| == |g.tiles.Keys| && |h.tiles| == |h.tiles.Keys|;
  }

  /** Growing a well-shaped map of size s adds 8(s + 1) tiles. */
  lemma GrowTileCount(h: HexMap, terrain: Terrain)
    requires Shaped(h) && h.size >= 0
    ensures Grow(h, terrain).Some?
    ensures |Grow(h, terrain).value.tiles| == |h.tiles| + 8 * (h.size + 1)
  {
    GrowSucceeds(h, terrain);
    GrowAddsOnePerLocation(h, terrain);
  }

  /** The tile at a location, if the map has one. */
  function GetTile(h: HexMap, loc: TileLocation): (r: Option<Tile>)
    ensures r.Some? <==> loc in h.tiles
    ensures r.Some? ==> r.value == h.tiles[loc]
    ensures r.Some? && WellFormed(h) ==> r.value.location == loc
  {
    if loc in h.tiles then Some(h.tiles[loc]) else None
  }

  /** The tiles at the given locations that exist, in order. */
  function Present(h: HexMap, locs: seq<TileLocation>): (r: seq<Tile>)
    ensures |r| <= |locs|
    ensures forall t :: t in r <==> exists i :: 0 <= i < |locs| && locs[i] in h.tiles && t == h.tiles[locs[i]]
    ensures (forall i :: 0 <= i < |locs| ==> locs[i] in h.tiles) ==> |r| == |locs|
  {
    if |locs| == 0 then []
    else
      var rest := Present(h, locs[1..]);
      assert forall i :: 1 <= i < |locs| ==> locs[i] == locs[1..][i - 1];
      assert forall i :: 0 <= i < |locs| - 1 ==> locs[1..][i] == locs[i + 1];
      match GetTile(h, locs[0])
      case None => rest
      case Some(t) => [t] + rest
  }

  /** The existing tiles among the six neighbour candidates of a location,
      in the map's order. */
  function GetNeighbors(h: HexMap, loc: TileLocation): (r: seq<Tile>)
    ensures |r| <= 6
    ensures WellFormed(h) ==> forall t :: t in r ==>
              t.location in h.tiles && h.tiles[t.location] == t && Adjacent(loc, t.location) && t.location != loc
    ensures forall l :: Adjacent(loc, l) && l in h.tiles ==> h.tiles[l] in r
  {
    NeighborLocationsShape(loc);
    Present(h, NeighborLocations(loc))
  }

  /** Inside a well-shaped map, away from the border, every tile has all
      six neighbours. */
  lemma InteriorHasSixNeighbors(h: HexMap, loc: TileLocation)
    requires Shaped(h) && InSquare(loc, h.size - 1)
    ensures |GetNeighbors(h, loc)| == 6
  {
    var n := NeighborLocations(loc);
    NeighborLocationsShape(loc);
    forall i | 0 <= i < |n| ensures n[i] in h.tiles {
      AdjacentByParity(loc, n[i]);
      assert n[i] in n;
    }
  }

  /** The neighbour relation of a well-formed map is symmetric. */
  lemma GetNeighborsSymmetric(h: HexMap, a: TileLocation, b: TileLocation)
    requires WellFormed(h) && a in h.tiles && b in h.tiles
    ensures h.tiles[b] in GetNeighbors(h, a) <==> h.tiles[a] in GetNeighbors(h, b)
  {
    AdjacentSymmetric(a, b);
    if h.tiles[b] in GetNeighbors(h, a) {
      assert Adjacent(a, h.tiles[b].location);
    }
    if h.tiles[a] in GetNeighbors(h, b) {
      assert Adjacent(b, h.tiles[a].location);
    }
  }

  /** On a map's own tiles the corrected neighbourhood test agrees with the
      map's neighbour list. */
  lemma IsNeighborCorrectedMatchesGetNeighbors(h: HexMap, a: TileLocation, b: TileLocation)
    requires WellFormed(h) && a in h.tiles && b in h.tiles
    ensures IsNeighborCorrected(h.tiles[a], h.tiles[b]) <==> h.tiles[b] in GetNeighbors(h, a)
  {
    if h.tiles[b] in GetNeighbors(h, a) {
      assert Adjacent(a, h.tiles[b].location);
    }
  }
}
