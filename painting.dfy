/**
 * The resource-gated paint/erase rule of the scene's per-frame `update`
 * (js/index.js), with the wood counter that `create` sets to 50.
 *
 * One frame is a pure transition `Next` on a `World` (ground grid and wood);
 * `Run` folds it over a sequence of frames. The class `Scene` holds the same
 * state in mutable fields, as the scene object and the shared ground layer do,
 * and its `Step` method is proved against `Next`.
 */
module Painting {
  import opened TileGrid

  /** `this.wood = 50` in `create`. */
  const InitialWood: int := 50
  /** The only tile a click may paint over (land). */
  const SourceTile: TileIndex := 11
  /** The tile a successful paint leaves behind (dirt). */
  const PaintedTile: TileIndex := 14
  /** The wood a successful paint costs. */
  const PaintCost: int := 2

  /** What one frame reads: the pointer button, the shift key and the tile under the pointer. */
  datatype Frame = Frame(pointerDown: bool, shiftDown: bool, tile: Coord)

  /** The state the rule reads and writes. */
  datatype World = World(grid: Grid, wood: int)

  /** The state right after `create`, over whatever ground layer the map file gave. */
  function Initial(ground: Grid): (w: World)
    ensures w.wood == 50 && w.grid == ground
  {
    World(ground, InitialWood)
  }

  /** One frame of the paint/erase branch of `update`, following its branches. */
  function Next(w: World, f: Frame): (r: World)
    ensures forall d :: d != f.tile ==> GetTile(r.grid, d) == GetTile(w.grid, d)
    ensures r.wood == w.wood || r.wood == w.wood - PaintCost
  {
    if !f.pointerDown then w
    else if f.shiftDown then World(RemoveTile(w.grid, f.tile), w.wood)
    else match GetTile(w.grid, f.tile)
      case None => w
      case Some(i) =>
        if i == SourceTile && w.wood >= PaintCost
        then World(PutTile(w.grid, PaintedTile, f.tile), w.wood - PaintCost)
        else w
  }

  /**
   * The frame is a click that succeeds in painting: pointer down, no shift, land
   * under it, enough wood. These are exactly the frames that spend wood, and
   * exactly the frames that turn a land cell into dirt.
   */
  predicate PaintsIn(w: World, f: Frame): (r: bool)
    ensures r <==> Next(w, f).wood != w.wood
    ensures r <==> GetTile(w.grid, f.tile) == Some(SourceTile) && GetTile(Next(w, f).grid, f.tile) == Some(PaintedTile)
  {
    f.pointerDown && !f.shiftDown && GetTile(w.grid, f.tile) == Some(SourceTile) && w.wood >= PaintCost
  }

  // ---- One frame, branch by branch ----

  /** Pointer up: neither the grid nor wood changes. */
  lemma NextPointerUp(w: World, f: Frame)
    requires !f.pointerDown
    ensures Next(w, f) == w
  {
  }

  /** Shift-click: the cell under the pointer becomes `null`, at no cost, whatever it held. */
  lemma NextErase(w: World, f: Frame)
    requires f.pointerDown && f.shiftDown
    ensures GetTile(Next(w, f).grid, f.tile) == None
    ensures Next(w, f).wood == w.wood
    ensures Next(w, f).grid.Keys == w.grid.Keys - {f.tile}
  {
  }

  /** Click on a `null` cell (empty, erased or off the map): the frame ends, nothing changes. */
  lemma NextNullCell(w: World, f: Frame)
    requires f.pointerDown && !f.shiftDown && GetTile(w.grid, f.tile) == None
    ensures Next(w, f) == w
  {
  }

  /** Click on land with at least 2 wood: the cell becomes dirt and wood drops by exactly 2. */
  lemma NextPaint(w: World, f: Frame)
    requires f.pointerDown && !f.shiftDown
    requires GetTile(w.grid, f.tile) == Some(SourceTile) && w.wood >= PaintCost
    ensures GetTile(Next(w, f).grid, f.tile) == Some(PaintedTile)
    ensures Next(w, f).wood == w.wood - 2
  {
  }

  /** Click on a non-null cell that is not land, or with less than 2 wood: nothing changes. */
  lemma NextRefused(w: World, f: Frame)
    requires f.pointerDown && !f.shiftDown && GetTile(w.grid, f.tile).Some?
    requires GetTile(w.grid, f.tile) != Some(SourceTile) || w.wood < PaintCost
    ensures Next(w, f) == w
  {
  }

  /**
   * Repeating a frame has no further effect: an erased cell stays `null`, and a
   * painted cell is dirt, which the rule does not paint over again.
   */
  lemma NextIdempotent(w: World, f: Frame)
    ensures Next(Next(w, f), f) == Next(w, f)
  {
    if f.pointerDown && f.shiftDown {
      RemoveIdempotent(w.grid, f.tile);
    }
  }

  // ---- Sequences of frames ----

  /** The state after the frames `fs`, one after another, starting from `w`. */
  function Run(w: World, fs: seq<Frame>): World
    decreases |fs|
  {
    if fs == [] then w else Run(Next(w, fs[0]), fs[1..])
  }

  /** How many frames of `fs`, run from `w`, paint successfully. */
  function PaintCount(w: World, fs: seq<Frame>): nat
    decreases |fs|
  {
    if fs == [] then 0
    else (if PaintsIn(w, fs[0]) then 1 else 0) + PaintCount(Next(w, fs[0]), fs[1..])
  }

  /** One more frame at the end of a run is one more `Next`, and one more paint if it paints. */
  lemma {:induction false} RunAppend(w: World, fs: seq<Frame>, f: Frame)
    ensures Run(w, fs + [f]) == Next(Run(w, fs), f)
    ensures PaintCount(w, fs + [f]) == PaintCount(w, fs) + (if PaintsIn(Run(w, fs), f) then 1 else 0)
    decreases |fs|
  {
    if fs == [] {
      assert [] + [f] == [f];
      assert [f][1..] == [];
    } else {
      assert (fs + [f])[0] == fs[0];
      assert (fs + [f])[1..] == fs[1..] + [f];
      RunAppend(Next(w, fs[0]), fs[1..], f);
    }
  }

  /** Every unit of wood that leaves is the cost of a paint: wood = start - 2 * paints. */
  lemma {:induction false} RunWood(w: World, fs: seq<Frame>)
    ensures Run(w, fs).wood == w.wood - PaintCost * PaintCount(w, fs)
    decreases |fs|
  {
    if fs != [] {
      RunWood(Next(w, fs[0]), fs[1..]);
    }
  }

  /** Wood never goes below zero and keeps its parity. */
  lemma {:induction false} RunWoodBounds(w: World, fs: seq<Frame>)
    requires w.wood >= 0
    ensures 0 <= Run(w, fs).wood <= w.wood
    ensures Run(w, fs).wood % 2 == w.wood % 2
    decreases |fs|
  {
    if fs != [] {
      RunWoodBounds(Next(w, fs[0]), fs[1..]);
    }
  }

  /**
   * From the scene's start, over any frames: wood is 50 - 2 * (successful paints),
   * never negative and always even, so at most 25 paints ever succeed.
   */
  lemma WoodInvariant(ground: Grid, fs: seq<Frame>)
    ensures Run(Initial(ground), fs).wood == 50 - 2 * PaintCount(Initial(ground), fs)
    ensures Run(Initial(ground), fs).wood >= 0
    ensures Run(Initial(ground), fs).wood % 2 == 0
    ensures PaintCount(Initial(ground), fs) <= 25
  {
    RunWood(Initial(ground), fs);
    RunWoodBounds(Initial(ground), fs);
  }

  /** No run adds a cell to the map: a paint only overwrites a cell the lookup found. */
  lemma {:induction false} RunStaysInMap(w: World, fs: seq<Frame>)
    ensures Run(w, fs).grid.Keys <= w.grid.Keys
    decreases |fs|
  {
    if fs != [] {
      RunStaysInMap(Next(w, fs[0]), fs[1..]);
    }
  }

  /** A cell the pointer never rests on keeps its tile through any run. */
  lemma {:induction false} RunLeavesOtherCells(w: World, fs: seq<Frame>, d: Coord)
    requires forall i :: 0 <= i < |fs| ==> fs[i].tile != d
    ensures GetTile(Run(w, fs).grid, d) == GetTile(w.grid, d)
    decreases |fs|
  {
    if fs != [] {
      RunLeavesOtherCells(Next(w, fs[0]), fs[1..], d);
    }
  }

  /** Frames with the pointer up change nothing, however many there are. */
  lemma {:induction false} RunPointerUp(w: World, fs: seq<Frame>)
    requires forall i :: 0 <= i < |fs| ==> !fs[i].pointerDown
    ensures Run(w, fs) == w && PaintCount(w, fs) == 0
    decreases |fs|
  {
    if fs != [] {
      RunPointerUp(Next(w, fs[0]), fs[1..]);
    }
  }

  /**
   * Holding the button on one cell for n >= 1 frames has the effect of a single
   * frame: at most one paint, at most 2 wood spent.
   */
  lemma {:induction false} HoldingActsOnce(w: World, f: Frame, n: nat)
    requires n >= 1
    ensures Run(w, seq(n, _ => f)) == Next(w, f)
    ensures PaintCount(w, seq(n, _ => f)) == if PaintsIn(w, f) then 1 else 0
  {
    var fs := seq(n, _ => f);
    assert fs[0] == f;
    if n == 1 {
      assert fs[1..] == [];
    } else {
      assert fs[1..] == seq(n - 1, _ => f);
      HoldingAfterFirst(Next(w, f), f, n - 1);
    }
  }

  /** The frames after the first of a hold, run from the state the first one left. */
  lemma {:induction false} HoldingAfterFirst(w: World, f: Frame, n: nat)
    requires Next(w, f) == w
    ensures Run(w, seq(n, _ => f)) == w
    ensures PaintCount(w, seq(n, _ => f)) == 0
  {
    var fs := seq(n, _ => f);
    if n > 0 {
      assert fs[0] == f;
      assert fs[1..] == seq(n - 1, _ => f);
      assert !PaintsIn(w, f);
      HoldingAfterFirst(w, f, n - 1);
    }
  }

  /**
   * The scene object with its `wood` field, together with the shared ground
   * layer it paints on.
   */
  class Scene {
    var grid: Grid
    var wood: int
    /** The ground layer as the map file gave it. */
    ghost var ground: Grid
    /** The frames stepped so far. */
    ghost var history: seq<Frame>

    /** The fields are exactly the start state run through the frames so far. */
    ghost predicate Valid()
      reads this
    {
      World(grid, wood) == Run(Initial(ground), history)
    }

    /** `create`: the ground layer comes from the map, wood starts at 50. */
    constructor (layer: Grid)
      ensures Valid()
      ensures grid == layer && wood == 50
      ensures ground == layer && history == []
    {
      grid := layer;
      wood := InitialWood;
      ground := layer;
      history := [];
    }

    /** The paint/erase branch of `update`, for one frame. */
    method Step(pointerDown: bool, shiftDown: bool, tile: Coord)
      requires Valid()
      modifies this
      ensures Valid()
      ensures ground == old(ground) && history == old(history) + [Frame(pointerDown, shiftDown, tile)]
      ensures World(grid, wood) == Next(old(World(grid, wood)), Frame(pointerDown, shiftDown, tile))
    {
      RunAppend(Initial(ground), history, Frame(pointerDown, shiftDown, tile));
      history := history + [Frame(pointerDown, shiftDown, tile)];
      if pointerDown {
        if shiftDown {
          grid := RemoveTile(grid, tile);
        } else {
          var clicked := GetTile(grid, tile);
          if clicked == None {
            return;
          }
          if clicked.value == SourceTile && wood >= PaintCost {
            grid := PutTile(grid, PaintedTile, tile);
            wood := wood - PaintCost;
          }
        }
      }
    }

    /** At every frame boundary: wood is 50 - 2 * (successful paints so far), non-negative and even. */
    lemma WoodInvariantHolds()
      requires Valid()
      ensures wood == 50 - 2 * PaintCount(Initial(ground), history)
      ensures wood >= 0 && wood % 2 == 0
    {
      WoodInvariant(ground, history);
    }
  }
}
