# Civilizations tile painting: the resource-gated paint/erase rule

The demo scene lets a player pan over a tilemap and click on tiles. Its own
logic is one branch of the per-frame `update` in `js/index.js` and the wood
counter that `create` sets to 50. Each frame, if the pointer button is down:
with shift held the tile under the pointer is removed; otherwise the tile is
looked up, a `null` tile ends the frame, and a land tile (index 11) becomes
dirt (index 14) at a cost of 2 wood, provided at least 2 wood is left. Nothing
else in the frame touches the grid or wood.

The model has two modules:

- `TileGrid` (`tile_grid.dfy`): the ground layer as a map from tile
  coordinate to tile index. A missing key is the `null` that the engine's
  lookup returns for an empty cell or one outside the map. `GetTile`,
  `PutTile` and `RemoveTile` stand for the engine calls `getTileAtWorldXY`,
  `putTileAtWorldXY` and `removeTileAtWorldXY`.
- `Painting` (`painting.dfy`): one frame as the pure transition `Next` on a
  `World` (grid and wood), `Run` and `PaintCount` over a sequence of frames,
  the lemmas about them, and the class `Scene`. `Scene` holds the grid and
  wood in mutable fields, its constructor is `create`, and its `Step` method
  is the paint/erase branch of `update`. `Step` follows the source's branches,
  early `return` included, and is proved equal to `Next`. Its invariant
  `Valid()` says the fields are the start state run through every frame
  stepped so far. So every lemma about `Run` holds of the live object too:
  wood is never negative and always equals 50 - 2 x (successful paints).

The engine's world-to-tile conversion is not modelled. The tile coordinate
under the pointer is an input of each frame, and so are the pointer-button
and shift-key states.

## Model

| member | source | states |
|---|---|---|
| `TileGrid.GetTile` | js/index.js:107-108 | a stored cell gives Some of its index; a missing key gives None, the engine's `null` for an empty or off-map cell |
| `TileGrid.PutTile` | js/index.js:112 | setting a tile makes the lookup at that cell return the new index; every other cell's lookup is unchanged; the cell becomes non-null |
| `TileGrid.RemoveTile` | js/index.js:105 | removing a tile makes the lookup at that cell return `null`; every other cell's lookup is unchanged |
| `TileGrid.RemoveIdempotent` | js/index.js:105 | erasing twice is the same as erasing once, and erasing an already-`null` cell changes nothing |
| `Painting.Initial` | js/index.js:86 | the starting state has wood 50 and the ground layer the map supplied |
| `Painting.Next` | js/index.js:103-116 | one frame changes at most the cell under the pointer, and wood either stays or drops by exactly 2 |
| `Painting.PaintsIn` | js/index.js:103-113 | a frame paints (pointer down, shift up, cell 11, wood >= 2) exactly when it spends wood, and exactly when it turns a land cell into dirt |
| `Painting.NextPointerUp` | js/index.js:103 | with the pointer up, the frame changes neither the grid nor wood |
| `Painting.NextErase` | js/index.js:104-105 | with the pointer down and shift held, the cell under the pointer becomes `null` whatever it held, wood is unchanged, and only that key leaves the grid |
| `Painting.NextNullCell` | js/index.js:107-110 | with the pointer down, no shift, and a `null` cell under the pointer, nothing changes |
| `Painting.NextPaint` | js/index.js:111-113 | a click on index 11 with wood >= 2 makes the cell index 14 and lowers wood by exactly 2 |
| `Painting.NextRefused` | js/index.js:111 | a click on a non-null cell whose index is not 11, or with wood < 2, changes nothing |
| `Painting.NextIdempotent` | js/index.js:103-116 | repeating the same frame on the state it produced changes nothing more |
| `Painting.RunAppend` | js/index.js:90-116 | running one more frame after a run is one more `Next`, and adds one to the paint count exactly when that frame paints |
| `Painting.RunWood` | js/index.js:111-113 | after any frames, wood equals the starting wood minus 2 per successful paint |
| `Painting.RunWoodBounds` | js/index.js:111-113 | from non-negative wood, wood after any frames stays between 0 and its start and keeps its parity |
| `Painting.WoodInvariant` | js/index.js:86 | from the scene's start, over any frames, wood is 50 - 2 x (successful paints), never negative, always even, and at most 25 paints succeed |
| `Painting.RunStaysInMap` | js/index.js:107-112 | no sequence of frames adds a cell to the map: a paint only overwrites a cell the lookup found |
| `Painting.RunLeavesOtherCells` | js/index.js:105-112 | a cell the pointer is never over keeps its tile through any sequence of frames |
| `Painting.RunPointerUp` | js/index.js:103 | any number of pointer-up frames change nothing and paint nothing |
| `Painting.HoldingActsOnce` | js/index.js:103-116 | holding the button on one cell for n >= 1 frames has the effect of one frame: at most one paint, at most 2 wood |
| `Painting.Scene.constructor` | js/index.js:86 | after `create`, wood is 50, the grid is the loaded ground layer, and no frame has run |
| `Painting.Scene.Step` | js/index.js:103-116 | the new grid and wood are `Next` of the old ones for this frame's inputs, and the invariant `Valid()` is kept |
| `Painting.Scene.WoodInvariantHolds` | js/index.js:86-113 | on a valid scene, wood is 50 - 2 x (successful paints so far), non-negative and even |

## Left out

- Asset loading in `preload` (js/index.js:20-23): file and network I/O done by the engine's loader.
- Tilemap and layer construction (js/index.js:26-30): the grid comes from a map file the engine parses, so the model takes the ground layer as the constructor's argument.
- Camera key controls and bounds (js/index.js:35-47, js/index.js:91): engine camera code.
- The marker and pointer-to-tile snapping (js/index.js:50-54, js/index.js:94-100): `positionToCamera`, `worldToTileXY` and `tileToWorldXY` belong to the engine. The tile coordinate under the pointer is an input of `Step`. Because of this, the model cannot state the idempotence of snapping.
- The help text, the side-bar HUD and the "Wood: 50" label (js/index.js:57-84): drawing only. No code in this file ever updates the label.
- The `console.log` calls (js/index.js:71-72) and the game config and boot (js/index.js:1-14): plumbing.
- The keyboard and pointer objects (js/index.js:32, js/index.js:103-104): reduced to two booleans per frame.
- The frame loop is driven by the engine. Here it is a sequence of `Step` calls, or of frames given to `Run`.
- `js/index.js` keeps one resource counter, wood, and shows no label for the hovered tile. The model has the wood counter only.
- Wood is a JavaScript number. It starts at 50 and only ever drops by 2, so it stays a small integer. The model uses `int`.
- Empty cells: the engine looks up an empty cell of a layer as `null`. The model expects such a cell to have no key, and the constructor does not check this. If the layer passed in stores an empty cell as index -1, `GetTile` returns Some(-1) where the engine returns `null`. A click there still changes nothing, now by the `NextRefused` case instead of `NextNullCell`. Erasing still deletes the cell.
- `PutTile` always stores the tile. It does not model the engine's no-op for a cell outside the map. `RunStaysInMap` shows that no frame ever puts a tile outside the map.
