# Plant community simulation on a grid

A model of a neighbourhood-density-dependence (NDD) simulation of plant species on a square board.
Each tile holds a bounded array of plants: juveniles and at most one resident adult.
On every tick each plant survives a uniform draw with its species' per-tick rate less a crowding penalty.
The penalty is proportional to the conspecific and heterospecific neighbours counted around the tile.
Juveniles that reach age `t1` become adults.
Tiles without a surviving resident elect one grown juvenile.
Resident adults drop seeds that are staged on nearby tiles and merged in on the next tick.

Three implementations are modelled, each in its own modules:

- **The current Python version** (`simulation_utils/plants.py`, `simulation_utils/board.py`):
  - `Plants`: the individual transition;
  - `PlantArray`: the tile's plant array with its per-species count cache;
  - `Board`: the 3x3 neighbour maps, the tile update, the seed staging and the board tick;
  - `Founders`: the founder placement of the board constructor.
- **The legacy Python version** (`simulation.py`), module `Legacy`:
  - a 50-slot array;
  - a `toDict` that reports only the resident;
  - a ring of eight neighbours that leaves the tile itself out.
- **The Java version** (`Java/…`):
  - `JPlants`: `Species` and four variants of the Juvenile/Adult update;
  - `JTile`: the double-buffered tile of `BaseInitAdult/Tile.java`;
  - `JBoard`: the index arithmetic, neighbourhood lists, seeding and the two-phase update of `Board.java`.

Modelling choices:

- Randomness is passed in as oracle parameters:
  - survival draws are functions from the plant's position to a real;
  - index picks are naturals taken modulo the list length;
  - the Java seeding consumes a finite sequence of tile draws.
- Python dictionaries are insertion-ordered association lists (`Dicts`).
- Java maps keyed by `Species` are keyed by species id. `Species.equals` compares ids, and `JPlants.Equals` proves that.
- Java's `DUMMY` total entry is carried beside the map, not inside it.
- The Python heterospecific count includes the plant itself (simulation_utils/plants.py:404-405); the Java count subtracts it (Java/BaseInitAdult/Tile.java:137). `JTile.JavaHetExcludesSelf` states the difference of exactly one.
- Plants are values. The source's identity tests (`plant == currentAdult`, `newPlant == this.oldAdult`) become equality tests. These are faithful under each tile invariant: the resident adult is the only adult stored.

## Model

| member | source | states |
|---|---|---|
| Plants.Advance | simulation_utils/plants.py:45-129 | a live plant dies exactly when its draw fails; a survivor ages by one and a juvenile becomes an adult exactly when the new age reaches t1; species never changes, adults never become juveniles |
| Plants.StageNeverRegresses | simulation_utils/plants.py:90-129 | along Juvenile < Adult < Dead no transition goes backwards |
| Plants.JuvenilePenaltyIsDouble | simulation_utils/plants.py:84-119 | the juvenile crowding penalty is twice the adult one for the same neighbours |
| Plants.FewerNeighboursNeverHurt | simulation_utils/plants.py:32-57 | with non-negative NDD coefficients, survival among some neighbours implies survival among fewer |
| Plants.OvercrowdedPlantDies | simulation_utils/plants.py:45-57 | when the penalty exceeds the base rate no draw in [0, 1) survives |
| PlantArray.Clear | simulation_utils/plants.py:442-447 | clearing empties storage, resident and cache and keeps the limit |
| PlantArray.AddPlant | simulation_utils/plants.py:199-224 | an adult is refused when a resident exists; a juvenile is refused when full; a juvenile below capacity is appended; an adult without a resident becomes the resident and is appended below capacity, or at capacity overwrites exactly the slot drawn, all other slots in place |
| PlantArray.AddPlantValid | simulation_utils/plants.py:199-224 | adding a live plant keeps the array invariant: bounded, one resident adult, cache equal to a recount and without repeated keys |
| PlantArray.AddAdult | simulation_utils/plants.py:235-237 | appends below capacity without touching resident or cache, and is a no-op when full |
| PlantArray.MergeArray | simulation_utils/plants.py:251-256 | a no-op when both arrays hold an adult; otherwise every incoming plant is added; the resident becomes the first incoming adult only when there was none |
| PlantArray.MergeArrayValid | simulation_utils/plants.py:251-256 | merging live plants keeps the array invariant |
| PlantArray.MergeKeepsJuveniles | simulation_utils/plants.py:251-256 | incoming juveniles are appended in order until the array is full, and the ones past the limit are dropped (the refusal at plants.py:199-201); when all fit, all are appended |
| PlantArray.ProduceSeeds | simulation_utils/plants.py:265-273 | without a resident no seeds; otherwise min(ns, limit) seeds of the resident's species at age 0, adults in the boomer model and juveniles otherwise |
| PlantArray.ProduceSeedsValid | simulation_utils/plants.py:265-273 | the juvenile seed array satisfies the array invariant |
| PlantArray.BoomerMergeDict | simulation_utils/plants.py:305-311 | each species count grows by one exactly for the resident's species, and the total by one when there is a resident |
| PlantArray.ZoomerMergeDict | simulation_utils/plants.py:325-331 | each species count grows by the adults plus juveniles cached for it; old keys and cached keys are kept |
| PlantArray.MergeDict | simulation_utils/plants.py:289-291 | dispatches on the model flag and never loses a key |
| PlantArray.MergeDictCoversSelf | simulation_utils/plants.py:289-331 | after merging, every stored plant's species is a key, so the lookup at plants.py:403 succeeds |
| PlantArray.ToDictRecounts | simulation_utils/plants.py:345-360 | on a valid array, the full recount equals the incrementally kept cache, species by species |
| PlantArray.NeighbourCounts | simulation_utils/plants.py:403-404 | the conspecific count is the species' entry less one, and the two counts add up to the map total |
| PlantArray.Update | simulation_utils/plants.py:372-441 | the new storage is the surviving juveniles in order, followed by the resident if there is one |
| PlantArray.UpdateResident | simulation_utils/plants.py:408-431 | a surviving resident stays resident; otherwise the resident exists exactly when some juvenile grew up, and is the one picked among them |
| PlantArray.UpdateValid | simulation_utils/plants.py:372-441 | one tick keeps the array invariant |
| PlantArray.UpdateKeepsAdultsOnly | simulation_utils/plants.py:372-441 | an all-adult array stays all-adult |
| PlantArray.AdultsOnlyMeansResidentOnly | simulation_utils/plants.py:139-166 | a valid all-adult array holds nothing but its resident |
| PlantArray.AddPlantAsWritten | simulation_utils/plants.py:199-224 | the source's cache patching fails only on a full array without resident whose evicted slot index is not a cache key; otherwise its storage and resident match AddPlant |
| PlantArray.EvictionIndexKeyError | simulation_utils/plants.py:206 | a full one-juvenile array receiving an adult raises KeyError as written, while the corrected AddPlant stays valid |
| PlantArray.JuvenileResetsAdultCount | simulation_utils/plants.py:221 | as written, a juvenile of the resident's species zeroes the cached adult count although one adult is stored |
| PlantArray.UpdateAsWritten | simulation_utils/plants.py:423-431 | as written, the elected adult becomes resident but may be missing from storage |
| PlantArray.ElectedAdultLeftOut | simulation_utils/plants.py:431 | a concrete array whose grown juvenile is elected but not stored, breaking the invariant |
| PlantArray.ElectedAdultStored | simulation_utils/plants.py:423-431 | the corrected update stores the elected adult and stays valid on the same array |
| PlantArray.ElectedAdultOverflows | simulation_utils/plants.py:431 | as written, a later tick re-adds the resident to a full array and exceeds the limit |
| Board.Cell | simulation_utils/board.py:192-193 | a cell is listed exactly when it lies on the board |
| Board.Row | simulation_utils/board.py:187-193 | the on-board cells of row x within one column of j |
| Board.Block | simulation_utils/board.py:187-193 | exactly the on-board cells within one step of (i, j) in both directions |
| Board.BlockSizes | simulation_utils/board.py:187-193 | the clipped block has 4 cells at corners, 6 on edges and 9 inside |
| Board.BoomerNeighbourCounts | simulation_utils/board.py:176-197 | in the boomer model each species' count is the number of residents of that species in the block, and the total is the number of occupied cells, at most 9 |
| Board.ZoomerNeighbourCounts | simulation_utils/board.py:176-197 | in the zoomer model, on a valid board, each species' count is the number of plants of that species, adults and juveniles, stored on the block's cells |
| Board.NeighbourDictCoversTile | simulation_utils/board.py:176-197 | on a valid board every species stored on a tile is a key of its neighbour map |
| Board.NeighbourDictLocal | simulation_utils/board.py:176-197 | the neighbour map depends only on the arrays of the 3x3 block |
| Board.TileUpdate | simulation_utils/board.py:28-53 | the tile's array takes one update, its data is the new cache, and the seeds are the new array's offspring |
| Board.OffspringOk | simulation_utils/board.py:250-253 | every offspring is live, and an adult in the boomer model |
| Board.PlaceOk | simulation_utils/board.py:255-264 | staging one offspring keeps the staging grid well formed |
| Board.StageRowsOk | simulation_utils/board.py:248-264 | staging all offspring keeps the staging grid well formed |
| Board.Next | simulation_utils/board.py:229-274 | the tick advances time by one, keeps the dimensions, and leaves every staging array empty |
| Board.Tick | simulation_utils/board.py:229-274 | the tick succeeds exactly when every neighbour map covers its tile |
| Board.TickValid | simulation_utils/board.py:229-274 | a tick of a valid board succeeds and yields a valid board |
| Board.BoomerTilesHoldOnlyResident | simulation_utils/board.py:229-274 | on a valid boomer board each tile stores nothing but its resident |
| Founders.Spot | simulation_utils/board.py:94-95 | a drawn coordinate lies on the board |
| Founders.SpotReachesEveryCell | simulation_utils/board.py:94-95 | every cell of the board can be drawn |
| Founders.SpotAsWritten | simulation_utils/board.py:94-95 | as written, the draw stays in rows and columns 0..L-2 |
| Founders.CollectIsNub | simulation_utils/board.py:92-95 | collecting draws into a set yields the first distinct draws, or fails if too few |
| Founders.CollectDistinct | simulation_utils/board.py:92-95 | the collected coordinates are distinct, as many as requested, and all drawn |
| Founders.PlaceAdultsEach | simulation_utils/board.py:96-98 | each collected cell receives the founder adult and every other cell is unchanged |
| Founders.JuvenilesLand | simulation_utils/board.py:100-103 | each cell gains as many juveniles as draws hit it, up to the limit, with the resident unchanged |
| Founders.SeedSpecies | simulation_utils/board.py:84-103 | seeding one species keeps the limits and the staging invariant, and never fails in the juvenile model |
| Founders.Init | simulation_utils/board.py:74-103 | the new board has time 0, the given size and limit, and empty tiles |
| Founders.InitValid | simulation_utils/board.py:74-103 | the new board is valid |
| Founders.BoomerFounders | simulation_utils/board.py:91-98 | in the boomer model exactly `start` distinct cells gain one founder adult each |
| Founders.JuvenileFounders | simulation_utils/board.py:98-103 | in the juvenile model each cell gains one juvenile per draw that hits it, up to the limit |
| Founders.AsWrittenMissesLastLine | simulation_utils/board.py:94-95 | as written, no founder lands in the last row or column |
| Founders.AsWrittenFoundersStall | simulation_utils/board.py:92-95 | as written, asking for 2 distinct cells on a 2x2 board never finishes |
| Founders.CorrectedFoundersFinish | simulation_utils/board.py:92-95 | with the corrected draw the same request finishes |
| Legacy.AddPlant | simulation.py:386-398 | an adult is refused when a resident exists and a juvenile when 50 are stored; at capacity an adult replaces exactly one slot; otherwise the plant is appended |
| Legacy.AddPlantValid | simulation.py:386-398 | adding a live plant keeps the legacy array invariant |
| Legacy.MergeArray | simulation.py:412-417 | a no-op when both hold an adult; otherwise every incoming plant is added and the resident becomes the first incoming adult only when there was none |
| Legacy.MergeArrayValid | simulation.py:412-417 | merging live plants keeps the invariant |
| Legacy.AddAllExtends | simulation.py:412-417 | adding juveniles keeps the existing plants as a prefix and the resident unchanged |
| Legacy.ProduceSeeds | simulation.py:426-430 | min(ns, 50) juvenile seeds of the resident's species, none without a resident |
| Legacy.ToDict | simulation.py:485-488 | the map holds exactly one entry, count 1, for the resident's species, or nothing |
| Legacy.Crowding | simulation.py:453-458 | the conspecific count is the species' entry itself, and the two counts add up to the map total |
| Legacy.Update | simulation.py:447-479 | the new storage is the first 50 surviving juveniles in order, with the slot drawn overwritten by the resident when there is one (or the resident alone when no juvenile survives) |
| Legacy.UpdateValid | simulation.py:447-479 | one tick keeps the invariant |
| Legacy.UpdateResident | simulation.py:451-472 | a surviving resident stays; otherwise the resident exists exactly when some juvenile grew up, and is the one picked |
| Legacy.GrownFromJuveniles | simulation.py:451-466 | when no old adult survives, every adult after the loop grew from a juvenile |
| Legacy.Seat | simulation.py:473-477 | the resident overwrites exactly the juvenile at the slot drawn, every other juvenile stays in place, it is the only plant when there is no juvenile, and without a resident the juveniles are unchanged |
| Legacy.SeatValid | simulation.py:473-477 | seating keeps the invariant |
| Legacy.TileUpdate | simulation.py:537-552 | the tile updates its array, reports it with toDict, and returns the offspring |
| Legacy.NeighbourDictCounts | simulation.py:654-674 | each species' count is the number of residents of that species among the eight neighbours; the total is the occupied neighbours, at most 8 |
| Legacy.RingCells | simulation.py:654-674 | the ring has at most 8 cells, the clipped 3x3 block less the centre |
| Legacy.NeighbourDictExcludesSelf | simulation.py:654-674 | the tile's own contents never affect its neighbour map |
| Legacy.PlaceOk | simulation.py:694-699 | staging one seed keeps the staging grid valid and only extends arrays |
| Legacy.StageRowsOk | simulation.py:689-699 | staging all seeds keeps the staging grid valid and only extends arrays |
| Legacy.OffspringOk | simulation.py:691-693 | every offspring is a juvenile |
| Legacy.Next | simulation.py:676-703 | the tick advances time by one and keeps dimensions |
| Legacy.Tick | simulation.py:676-703 | the tick advances time by one and keeps dimensions |
| Legacy.TickValid | simulation.py:676-703 | a tick keeps the board valid and only extends the staging arrays |
| Legacy.StagingNeverCleared | simulation.py:676-703 | every staged plant is still staged, in place, after the tick |
| JPlants.NewSpecies | Java/Species.java:12-26 | every constructor argument lands in the field of the same name |
| JPlants.Equals | Java/Species.java:33-45 | false for null and other classes, true for itself, and for Species true exactly when ids agree |
| JPlants.BaseJuvenileUpdate | Java/BaseInitAdult/Juvenile.java:12-33 | survives exactly when the draw is at most seedPerTick less twice the crowding; a survivor ages by one and is an adult exactly when the new age reaches t1 |
| JPlants.CorrectedJuvenileUpdate | Java/CorrectedBivDev1-50Adult/Juvenile.java:14-35 | survives against p1; a promoted plant restarts at age 0 |
| JPlants.AdultUpdate | Java/Adult.java:12-29 | survives exactly when the draw is at most 1 less the crowding, and then ages by one |
| JPlants.Base150AdultUpdate | Java/Base1-50/Adult.java:12-29 | survives against p2 and then ages by one |
| JPlants.Update | Java/BaseInitAdult/Tile.java:138 | dispatch keeps the species and never turns an adult back into a juvenile |
| JPlants.BaseJuvenileMatchesPython | Java/BaseInitAdult/Juvenile.java:12-33 | the Java juvenile makes the same transition as the Python juvenile on the same draw and counts |
| JPlants.AdultMatchesPythonAtUnitRate | Java/Adult.java:12-29 | the Java adult is the Python adult whose per-tick rate is 1 |
| JPlants.CorrectedIsBaseAtRateP1 | Java/CorrectedBivDev1-50Adult/Juvenile.java:14-35 | the corrected juvenile is the base juvenile at rate p1, except that promotion resets the age |
| JTile.EmptyTileValid | Java/BaseInitAdult/Tile.java:26-40 | a fresh tile satisfies the tile invariant |
| JTile.CountNeighborsNDD | Java/BaseInitAdult/Tile.java:47-68 | each species' entry is its adults plus juveniles summed over the neighbour maps, every key seen is present, and the total is the sum of the entries |
| JTile.Crowding | Java/BaseInitAdult/Tile.java:136-137 | defined exactly when the species is a key; the conspecific count is the entry less one and the two counts add up to the total less one |
| JTile.JavaHetExcludesSelf | Java/BaseInitAdult/Tile.java:136-137 | on the same map the Java conspecific count equals the Python one and the heterospecific count is one lower |
| JTile.UpdateExistingPlants | Java/BaseInitAdult/Tile.java:124-188 | succeeds exactly when every old species is a key of the neighbour map; the old lists and maps are unchanged, with plant ages as values (Java's in-place `age++` on plants shared with the old list is read only after the swap, by `exportData` at Board.java:153) |
| JTile.UpdateExistingPlantsValid | Java/BaseInitAdult/Tile.java:124-188 | the new side is bounded, counted correctly in its map, and has one adult at most; every new plant is the update of some old plant; conversely the new list is exactly the old plants that survive as juveniles, in order, followed by the new adult |
| JTile.UpdateExistingPlantsKept | Java/BaseInitAdult/Tile.java:135-187 | the new list is the surviving juveniles in old order (the reference `Kept`), then the new adult if there is one |
| JTile.UpdateExistingPlantsAdult | Java/BaseInitAdult/Tile.java:147-174 | a surviving old adult stays; otherwise a new adult exists exactly when some juvenile was promoted, and it is one of them |
| JTile.AddNewSeeds | Java/BaseInitAdult/Tile.java:190-238 | with total weight 0 nothing changes; otherwise the list is filled to 50 with age-0 juveniles after the kept plants, and only the new list and map change |
| JTile.UpdateSelf | Java/BaseInitAdult/Tile.java:240-254 | the new side becomes the old side and the new side is reset |
| JTile.TickTileValid | Java/BaseInitAdult/Tile.java:124-254 | a valid tile whose species are all counted updates successfully to a valid tile |
| JTile.MergeNeighborMap | Java/BaseInitAdult/Tile.java:70-97 | succeeds exactly when the tile has an old adult or no species has a non-zero adult count |
| JTile.MergeNeighborMapValid | Java/BaseInitAdult/Tile.java:70-97 | on a valid tile the census of each species gains one adult and its age when the tile's adult is of that species, plus the tile's juveniles of that species |
| JBoard.CoordsOfIndex | Java/Board.java:50-55 | the row and column recovered from an on-board index are the original ones |
| JBoard.IndexOfCoords | Java/Board.java:50-55 | re-indexing the recovered coordinates gives the index back, and an index below L*L is on the board |
| JBoard.IndexInjective | Java/Board.java:55 | distinct on-board cells have distinct indices |
| JBoard.Shifts | Java/Board.java:41-46 | the shift list holds exactly -r..r |
| JBoard.Scan | Java/Board.java:52-76 | an entry is listed exactly when some pair of shifts reaches an on-board cell, tagged with its Chebyshev distance |
| JBoard.NddListMembers | Java/Board.java:48-59 | a cell is in a tile's neighbourhood list exactly when it is within nNDD in both directions; every entry is a valid index; indices strictly increase, so no tile is listed twice |
| JBoard.Bucketize | Java/Board.java:66-73 | an index is in the bucket of distance d exactly when it was scanned at distance d |
| JBoard.SeedBucketsMembers | Java/Board.java:60-76 | a cell is in the seed bucket d exactly when it is within nSeeds and d is its Chebyshev distance; each bucket's indices strictly increase, so no tile is listed twice |
| JBoard.Layout | Java/Board.java:22-77 | one tile, one neighbourhood list and one seed map per cell |
| JBoard.LayoutLinked | Java/Board.java:48-59 | with a non-negative radius every neighbourhood list names only existing tiles and includes the tile itself |
| JBoard.AddJuvenile | Java/Board.java:88-96 | the tile's old list gains one age-0 juvenile |
| JBoard.PlantOne | Java/Board.java:84-99 | when the draws suffice, exactly one tile holding fewer than 50 plants gains the juvenile |
| JBoard.PlantAllOk | Java/Board.java:79-101 | seeding keeps every tile valid and adjusts each species' juvenile total by its occurrences times the count |
| JBoard.Update | Java/Board.java:104-128 | succeeds exactly when every tile's first phase does; each tile becomes its first-phase result swapped; the links are unchanged |
| JBoard.PhaseOneReadsOldSides | Java/Board.java:108-112 | a tile's first phase depends only on the old sides of the board and on its own tile |
| JBoard.PhaseOneInAnyOrder | Java/Board.java:108-112 | writing one tile's first-phase result does not change another tile's, so the parallel order is immaterial |
| JBoard.UpdateValid | Java/Board.java:104-128 | the update of a valid board succeeds and yields a valid board |
| JBoard.NeighbourCountsArePlantCounts | Java/BaseInitAdult/Tile.java:47-68 | on a valid board a tile's neighbour count for a species is the number of plants of that species in its neighbourhood |
| JBoard.NewBoardValid | Java/Board.java:20-102 | a new board is valid, has no adults, and holds each species' juveniles times its number of occurrences |

## Left out

- Species construction (`species.py`, the Species class of `simulation.py`): the per-tick rates are computed in floating point and are given constants here.
- Printing, CSV export, pickling, `loadBoard`/`saveBoard`, `saveNeighborDicts`, `printBoard`, `updatedToDict`, and the `run`/`exportData`/`exportState` drivers: these are I/O.
- `clearBoard` (simulation_utils/board.py:276-283) calls the constructor with too few arguments, so it cannot run as written; `clearBoard` of `simulation.py` only resets fields.
- The thread pools and parallel streams of `Board.java`: the update is modelled sequentially. `JBoard.PhaseOneInAnyOrder` states why the order of the first phase is immaterial.
- JTile.UpdateExistingPlants: `Adult.update` and the surviving-juvenile path in Java run `age++` on plant objects that the old list also holds, so the old side's ages change in place. The model treats plants as values, so the old side keeps its ages. The only reader of old ages, `mergeNeighborMap`, runs from `exportData` (Board.java:153) after the swap.
- JBoard.Update: when one tile's first phase throws (a species missing from its neighbour map), the executor at Board.java:106-112 swallows the exception and the update goes on to swap every tile, including the half-written new side of the failed one. The model returns `None` for the whole board instead. `JBoard.UpdateValid` shows this cannot happen on a valid board.
- PlantArray.AddPlant: an adult offered to a full array with no resident and an empty storage, which happens only with `storageLimit <= 0`, makes plants.py:205 call `randint(0, -1)` and raise ValueError. The model requires this case away (`CanEvict`), and every valid array has a positive limit.
- `countNeighborsSeeds` (Tile.java:99-122) and the weighted species choice of `addNewSeeds` (Tile.java:199-218): the total weight and the species of each seed come from an oracle. Their computation from the distance probabilities is floating-point work.
- `Species.hashCode` is not modelled: Java maps are keyed by species id.
- Java's 32-bit `int` overflow in ages, indices and counts is not modelled: board sizes and ages stay far below 2^31.
- JBoard.PlantOne: the Java loop draws forever when every tile is full. The model consumes a finite draw sequence and returns `None` when it runs out.
- Founders.SeedSpecies: the founder loop likewise draws forever. The model returns `None` when the finite draws give too few distinct cells.
- Legacy: `Board.__init__` random seeding in `simulation.py` is not modelled; founders are modelled only for the current version.
- Legacy: `board` and `seedBoard` may alias the same plant objects. Plants are values here, so the aliasing is not modelled.
- JTile: the comment at Tile.java:18 describes the map layout in an order that differs from the code; the code's order is modelled.
- The corrected Python members are used by the rest of the model, as listed under Findings.

## Findings

| source | as written | input that shows it | evidently intended | confidence | as-written member | corrected member |
|---|---|---|---|---|---|---|
| simulation_utils/plants.py:206 | on eviction the cache entry decremented is indexed by the storage slot number, not by the evicted plant's species | a full one-slot array holding a species-7 juvenile receives a species-8 adult: key 0 is missing and KeyError is raised | decrement the evicted plant's species entry | not executed | PlantArray.EvictionIndexKeyError | PlantArray.AddPlantValid |
| simulation_utils/plants.py:221 | adding a juvenile of the resident's species writes the adult count as 0 | a resident adult of species 1 and then a juvenile of species 1: the cache says 0 adults, 1 juvenile, while one adult is stored | keep the adult count and increment the juveniles | not executed | PlantArray.JuvenileResetsAdultCount | PlantArray.AddPlant |
| simulation_utils/plants.py:431 | the newly elected adult becomes the resident but is not put back into storage | a one-slot array whose juvenile grows up and is elected: storage is empty while the resident is set | store the elected adult as well | not executed | PlantArray.ElectedAdultLeftOut | PlantArray.ElectedAdultStored |
| simulation_utils/board.py:94-95 | `np.random.randint(0, L-1)` excludes its upper bound, so no founder lands in row or column L-1 | a 2x2 board asking for 2 founders: only (0, 0) can be drawn and the loop never ends | draw over 0..L-1 | not executed | Founders.AsWrittenFoundersStall | Founders.CorrectedFoundersFinish |
