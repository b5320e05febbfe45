/**
 * The ground layer of the tilemap, reduced to what the paint/erase rule uses:
 * a map from tile coordinate to tile index. A coordinate that is not a key
 * stands for the `null` that the engine's lookup returns, whether the cell is
 * empty (erased) or lies outside the map.
 */
module TileGrid {

  datatype Option<T> = None | Some(value: T)

  /** A tile coordinate, as produced by the engine's world-to-tile conversion. */
  datatype Coord = Coord(x: int, y: int)

  /** A tile index as stored in the layer (11 land, 12 water, 14 dirt in this tileset). */
  type TileIndex = int

  type Grid = map<Coord, TileIndex>

  /** The engine's `getTileAtWorldXY`: the tile's index, or None for `null`. */
  function GetTile(g: Grid, c: Coord): (r: Option<TileIndex>)
    ensures r == None <==> c !in g
    ensures forall i :: r == Some(i) <==> c in g && g[c] == i
  {
    if c in g then Some(g[c]) else None
  }

  /** The engine's `putTileAtWorldXY(i, ...)`: the cell holds i, nothing else moves. */
  function PutTile(g: Grid, i: TileIndex, c: Coord): (r: Grid)
    ensures GetTile(r, c) == Some(i)
    ensures forall d :: d != c ==> GetTile(r, d) == GetTile(g, d)
    ensures r.Keys == g.Keys + {c}
  {
    g[c := i]
  }

  /** The engine's `removeTileAtWorldXY`: the cell becomes `null`, nothing else moves. */
  function RemoveTile(g: Grid, c: Coord): (r: Grid)
    ensures GetTile(r, c) == None
    ensures forall d :: d != c ==> GetTile(r, d) == GetTile(g, d)
    ensures r.Keys == g.Keys - {c}
  {
    g - {c}
  }

  /** Two grids that answer every lookup alike are the same grid. */
  lemma {:induction false} SameLookupsSameGrid(g: Grid, h: Grid)
    requires forall d :: GetTile(g, d) == GetTile(h, d)
    ensures g == h
  {
    forall d | d in g ensures d in h && g[d] == h[d] {
      assert GetTile(g, d) == GetTile(h, d);
    }
    forall d | d in h ensures d in g {
      assert GetTile(g, d) == GetTile(h, d);
    }
  }

  /** Removing a tile twice is the same as removing it once; removing a `null` cell changes nothing. */
  lemma RemoveIdempotent(g: Grid, c: Coord)
    ensures RemoveTile(RemoveTile(g, c), c) == RemoveTile(g, c)
    ensures GetTile(g, c) == None ==> RemoveTile(g, c) == g
  {
    if GetTile(g, c) == None {
      SameLookupsSameGrid(RemoveTile(g, c), g);
    }
  }
}
