/**
 * The grid of simulation_utils/board.py: an L x L board of tiles, each holding a plant
 * array, with a parallel staging board (`seedBoard`) of the same shape into which offspring
 * are dispersed before they are merged into the live tiles.
 *
 * One tick (`Board.update`) first builds, from the board as it stands, the neighbour map of
 * every cell over its clipped 3x3 block; then advances every tile against its map and
 * stages the tile's offspring at random offsets; then merges every staging cell into its
 * tile and empties the staging board. The snapshot-and-print branch of the source is not
 * part of the model, and every random choice of the tick comes from a `TickOracle`.
 */
module Board {
  import opened Options
  import opened Dicts
  import opened Species
  import opened Plants
  import opened PlantArray

  type Grid<T> = seq<seq<T>>

  predicate Square<T>(g: Grid<T>, n: int)
  {
    |g| == n && forall i :: 0 <= i < n ==> |g[i]| == n
  }

  predicate OnBoard(n: int, x: int, y: int)
  {
    0 <= x < n && 0 <= y < n
  }

  /**
   * A `Tile`: its plant array and `neighbourData`. `updateData` makes `neighbourData` the
   * very dictionary object the array patches in place, so after every tick the two agree.
   */
  datatype Tile = Tile(neighbourData: Dict<Counts>, arr: PlantArray)

  datatype Board = Board(
    length: int,              // boardLength
    time: int,                // boardTime
    limit: int,               // storageLimit
    boomer: bool,             // boomerModel: adults disperse (true) or juveniles do (false)
    tiles: Grid<Tile>,        // board
    seeds: Grid<PlantArray>)  // seedBoard

  /** The random choices of one tick. Python draws them from one stream; here each is named
      by the cell and plant it serves. */
  datatype TickOracle = TickOracle(
    draw: (int, int, nat) -> real,          // survival draw of the k-th plant of cell (i, j)
    pick: (int, int) -> nat,                // randint of the adult election in cell (i, j)
    offset: (int, int, nat) -> (int, int),  // rounded dispersal offset of the k-th offspring
    stageSlot: (int, int, nat) -> nat,      // eviction randint when that offspring is staged
    mergeSlot: (int, int, nat) -> nat)      // eviction randint of the k-th plant merged into (i, j)

  /** Every array on the board has the board's capacity, which is positive, as are the
      sides of the square grids. */
  ghost predicate WellFormed(b: Board)
  {
    && 0 < b.length && 0 < b.limit
    && Square(b.tiles, b.length) && Square(b.seeds, b.length)
    && (forall i, j :: OnBoard(b.length, i, j) ==> b.tiles[i][j].arr.limit == b.limit)
    && (forall i, j :: OnBoard(b.length, i, j) ==> b.seeds[i][j].limit == b.limit)
  }

  /** A staging cell: the board's capacity respected, no dead plant, and in the boomer model
      adults only. */
  predicate StagingOk(s: PlantArray, limit: int, boomer: bool)
  {
    && s.limit == limit && |s.storage| <= limit && NoDead(s.storage)
    && (boomer ==> AllAdult(s.storage))
  }

  /**
   * The invariant of the board between ticks: every tile is a valid plant array (one
   * resident adult at most, capacity, exact cache) whose `neighbourData` is its cache and
   * which in the boomer model stores adults only; every staging cell is acceptable.
   */
  ghost predicate BoardValid(b: Board)
  {
    && WellFormed(b)
    && forall i, j :: OnBoard(b.length, i, j) ==>
         && Valid(b.tiles[i][j].arr)
         && b.tiles[i][j].neighbourData == b.tiles[i][j].arr.cache
         && (b.boomer ==> AllAdult(b.tiles[i][j].arr.storage))
         && StagingOk(b.seeds[i][j], b.limit, b.boomer)
  }

  // ---------------------------------------------------------------------------------------
  // The clipped 3x3 block (board.py:187-193)

  /** `[(x, y)]` when (x, y) is on the board, else nothing: the boundary check of
      board.py:192-193 applied to one position. */
  function Cell(n: int, x: int, y: int): (r: seq<(int, int)>)
    ensures |r| == Ind(OnBoard(n, x, y))
    ensures forall c :: c in r <==> c == (x, y) && OnBoard(n, x, y)
  {
    if OnBoard(n, x, y) then [(x, y)] else []
  }

  predicate AllOnBoard(n: int, cells: seq<(int, int)>)
  {
    forall m :: 0 <= m < |cells| ==> OnBoard(n, cells[m].0, cells[m].1)
  }

  /** The in-bounds cells (x, j - 1), (x, j), (x, j + 1). */
  function Row(n: int, x: int, j: int): (r: seq<(int, int)>)
    ensures AllOnBoard(n, r)
    ensures forall c :: c in r <==> c.0 == x && OnBoard(n, c.0, c.1) && -1 <= c.1 - j <= 1
  {
    var r := Cell(n, x, j - 1) + Cell(n, x, j) + Cell(n, x, j + 1);
    assert forall m :: 0 <= m < |r| ==> r[m] in r;
    r
  }

  /** The in-bounds cells of the 3x3 block centred on (i, j), the cell itself included, in
      the order of `positions` in the source. */
  function Block(n: int, i: int, j: int): (r: seq<(int, int)>)
    ensures AllOnBoard(n, r)
    ensures forall c :: c in r <==> OnBoard(n, c.0, c.1) && -1 <= c.0 - i <= 1 && -1 <= c.1 - j <= 1
  {
    var r := Row(n, i - 1, j) + Row(n, i, j) + Row(n, i + 1, j);
    assert forall m :: 0 <= m < |r| ==> r[m] in r;
    r
  }

  function Ind(b: bool): nat { if b then 1 else 0 }

  /** The number of rows (or columns) among i - 1, i, i + 1 that lie on a side of length n. */
  function Span(n: int, i: int): nat
  {
    Ind(0 <= i - 1 < n) + Ind(0 <= i < n) + Ind(0 <= i + 1 < n)
  }

  lemma CellCount(n: int, x: int, y: int)
    ensures |Cell(n, x, y)| == if 0 <= x < n then Ind(0 <= y < n) else 0
  {
  }

  lemma RowCount(n: int, x: int, j: int)
    ensures |Row(n, x, j)| == if 0 <= x < n then Span(n, j) else 0
  {
    CellCount(n, x, j - 1);
    CellCount(n, x, j);
    CellCount(n, x, j + 1);
  }

  /** The block holds Span(n, i) * Span(n, j) cells. */
  lemma BlockSize(n: int, i: int, j: int)
    ensures |Block(n, i, j)| == Span(n, i) * Span(n, j)
  {
    RowCount(n, i - 1, j);
    RowCount(n, i, j);
    RowCount(n, i + 1, j);
    assert |Block(n, i, j)| == |Row(n, i - 1, j)| + |Row(n, i, j)| + |Row(n, i + 1, j)|;
    SpanProduct(n, i, Span(n, j), |Row(n, i - 1, j)|, |Row(n, i, j)|, |Row(n, i + 1, j)|);
  }

  lemma SpanProduct(n: int, i: int, s: int, x: int, y: int, z: int)
    requires x == (if 0 <= i - 1 < n then s else 0)
    requires y == (if 0 <= i < n then s else 0)
    requires z == (if 0 <= i + 1 < n then s else 0)
    ensures x + y + z == Span(n, i) * s
  {
    assert Span(n, i) * s == Ind(0 <= i - 1 < n) * s + Ind(0 <= i < n) * s + Ind(0 <= i + 1 < n) * s;
  }

  /** The neighbourhood sizes: 4 at a corner, 6 on the rest of the edge, 9 inside. */
  lemma BlockSizes(n: int, i: int, j: int)
    requires 2 <= n && OnBoard(n, i, j)
    ensures (i == 0 || i == n - 1) && (j == 0 || j == n - 1) ==> |Block(n, i, j)| == 4
    ensures (i == 0 || i == n - 1) && 0 < j < n - 1 ==> |Block(n, i, j)| == 6
    ensures 0 < i < n - 1 && (j == 0 || j == n - 1) ==> |Block(n, i, j)| == 6
    ensures 0 < i < n - 1 && 0 < j < n - 1 ==> |Block(n, i, j)| == 9
  {
    BlockSize(n, i, j);
  }

  // ---------------------------------------------------------------------------------------
  // makeNeighborDicts (board.py:176-197)

  /** Merge the arrays of `cells` into `nd`, in order. */
  function Gather(tiles: Grid<Tile>, n: int, cells: seq<(int, int)>, nd: Dict<int>, boomer: bool): (r: Dict<int>)
    requires Square(tiles, n)
    requires AllOnBoard(n, cells)
    ensures forall k :: HasKey(nd, k) ==> HasKey(r, k)
  {
    if |cells| == 0 then nd
    else Gather(tiles, n, cells[1..], MergeDict(tiles[cells[0].0][cells[0].1].arr, nd, boomer), boomer)
  }

  /** The neighbour map of cell (i, j): the block's arrays merged into an empty map. */
  function NeighbourDict(b: Board, i: int, j: int): Dict<int>
    requires Square(b.tiles, b.length)
  {
    Gather(b.tiles, b.length, Block(b.length, i, j), [], b.boomer)
  }

  /** The number of `cells` whose tile has a resident of species `k`. */
  function ResidentsOf(tiles: Grid<Tile>, n: int, cells: seq<(int, int)>, k: int): nat
    requires Square(tiles, n)
    requires AllOnBoard(n, cells)
  {
    if |cells| == 0 then 0
    else
      var res := tiles[cells[0].0][cells[0].1].arr.resident;
      Ind(res.Some? && res.value.species.id == k) + ResidentsOf(tiles, n, cells[1..], k)
  }

  /** The number of `cells` whose tile has a resident. */
  function Occupied(tiles: Grid<Tile>, n: int, cells: seq<(int, int)>): (r: nat)
    requires Square(tiles, n)
    requires AllOnBoard(n, cells)
    ensures r <= |cells|
  {
    if |cells| == 0 then 0
    else Ind(tiles[cells[0].0][cells[0].1].arr.resident.Some?) + Occupied(tiles, n, cells[1..])
  }

  lemma {:induction false} GatherBoomer(tiles: Grid<Tile>, n: int, cells: seq<(int, int)>, nd: Dict<int>)
    requires Square(tiles, n)
    requires AllOnBoard(n, cells)
    ensures forall k :: Get0(Gather(tiles, n, cells, nd, true), k) == Get0(nd, k) + ResidentsOf(tiles, n, cells, k)
    ensures Sum(Gather(tiles, n, cells, nd, true)) == Sum(nd) + Occupied(tiles, n, cells)
  {
    if |cells| > 0 {
      var a := tiles[cells[0].0][cells[0].1].arr;
      GatherBoomer(tiles, n, cells[1..], MergeDict(a, nd, true));
    }
  }

  /**
   * In the boomer model the neighbour map counts, for every species, the block cells whose
   * resident is of that species; its values add up to the number of occupied block cells,
   * at most 9.
   */
  lemma BoomerNeighbourCounts(b: Board, i: int, j: int)
    requires Square(b.tiles, b.length) && b.boomer
    ensures forall k :: Get0(NeighbourDict(b, i, j), k) == ResidentsOf(b.tiles, b.length, Block(b.length, i, j), k)
    ensures Sum(NeighbourDict(b, i, j)) == Occupied(b.tiles, b.length, Block(b.length, i, j)) <= 9
  {
    GatherBoomer(b.tiles, b.length, Block(b.length, i, j), []);
  }

  /** The number of plants of species `k`, adults and juveniles, stored on `cells`. */
  function PlantsOf(tiles: Grid<Tile>, n: int, cells: seq<(int, int)>, k: int): nat
    requires Square(tiles, n)
    requires AllOnBoard(n, cells)
  {
    if |cells| == 0 then 0
    else
      var s := tiles[cells[0].0][cells[0].1].arr.storage;
      CountOf(s, k, Adult) + CountOf(s, k, Juvenile) + PlantsOf(tiles, n, cells[1..], k)
  }

  lemma {:induction false} GatherZoomer(tiles: Grid<Tile>, n: int, cells: seq<(int, int)>, nd: Dict<int>)
    requires Square(tiles, n)
    requires AllOnBoard(n, cells)
    requires forall m :: 0 <= m < |cells| ==> Valid(tiles[cells[m].0][cells[m].1].arr)
    ensures forall k :: Get0(Gather(tiles, n, cells, nd, false), k) == Get0(nd, k) + PlantsOf(tiles, n, cells, k)
  {
    if |cells| > 0 {
      var a := tiles[cells[0].0][cells[0].1].arr;
      var nd' := MergeDict(a, nd, false);
      forall k ensures Get0(nd', k) == Get0(nd, k) + CountOf(a.storage, k, Adult) + CountOf(a.storage, k, Juvenile) {
        EntryTotalKeyed(a.cache, k);
      }
      assert forall m :: 0 <= m < |cells| - 1 ==> cells[1..][m] == cells[m + 1];
      GatherZoomer(tiles, n, cells[1..], nd');
    }
  }

  /**
   * In the zoomer model the neighbour map counts, for every species, all the plants of that
   * species, adults and juveniles, stored on the block's cells: the cached counts that
   * `zoomerMergeDict` adds up are exact on a valid board.
   */
  lemma ZoomerNeighbourCounts(b: Board, i: int, j: int)
    requires BoardValid(b) && !b.boomer
    ensures forall k :: Get0(NeighbourDict(b, i, j), k) == PlantsOf(b.tiles, b.length, Block(b.length, i, j), k)
  {
    var cells := Block(b.length, i, j);
    GatherZoomer(b.tiles, b.length, cells, []);
  }

  /** Merging the cell's own array covers every species it stores, whatever is merged
      around it. */
  lemma {:induction false} GatherCoversMember(tiles: Grid<Tile>, n: int, cells: seq<(int, int)>, nd: Dict<int>, boomer: bool, m: nat)
    requires Square(tiles, n)
    requires AllOnBoard(n, cells)
    requires m < |cells|
    requires var a := tiles[cells[m].0][cells[m].1].arr;
      Valid(a) && (boomer ==> AllAdult(a.storage))
    ensures var a := tiles[cells[m].0][cells[m].1].arr;
      KeysCovered(Gather(tiles, n, cells, nd, boomer), a.storage)
  {
    var a := tiles[cells[0].0][cells[0].1].arr;
    var nd' := MergeDict(a, nd, boomer);
    if m == 0 {
      MergeDictCoversSelf(a, nd, boomer);
    } else {
      GatherCoversMember(tiles, n, cells[1..], nd', boomer, m - 1);
    }
  }

  lemma InBlockIndex(n: int, i: int, j: int)
    requires OnBoard(n, i, j)
    ensures (i, j) in Block(n, i, j)
  {
  }

  /** Every stored species of a valid tile is a key of its own neighbour map, so the
      lookup of plants.py:403 cannot fail. */
  lemma NeighbourDictCoversTile(b: Board, i: int, j: int)
    requires BoardValid(b) && OnBoard(b.length, i, j)
    ensures KeysCovered(NeighbourDict(b, i, j), b.tiles[i][j].arr.storage)
  {
    var cells := Block(b.length, i, j);
    InBlockIndex(b.length, i, j);
    var m :| 0 <= m < |cells| && cells[m] == (i, j);
    GatherCoversMember(b.tiles, b.length, cells, [], b.boomer, m);
  }

  /**
   * The tile update reads the board only through the block around the cell: two boards
   * that agree on the block give the same neighbour map. Together with `Tick` computing
   * every map from the board it is given, this is the snapshot discipline of the source.
   */
  lemma {:induction false} GatherLocal(t1: Grid<Tile>, t2: Grid<Tile>, n: int, cells: seq<(int, int)>, nd: Dict<int>, boomer: bool)
    requires Square(t1, n) && Square(t2, n)
    requires AllOnBoard(n, cells)
    requires forall m :: 0 <= m < |cells| ==> t1[cells[m].0][cells[m].1].arr == t2[cells[m].0][cells[m].1].arr
    ensures Gather(t1, n, cells, nd, boomer) == Gather(t2, n, cells, nd, boomer)
  {
    if |cells| > 0 {
      GatherLocal(t1, t2, n, cells[1..], MergeDict(t1[cells[0].0][cells[0].1].arr, nd, boomer), boomer);
    }
  }

  lemma NeighbourDictLocal(b1: Board, b2: Board, i: int, j: int)
    requires Square(b1.tiles, b1.length) && Square(b2.tiles, b2.length)
    requires b1.length == b2.length && b1.boomer == b2.boomer
    requires forall x, y :: OnBoard(b1.length, x, y) && -1 <= x - i <= 1 && -1 <= y - j <= 1 ==>
      b1.tiles[x][y].arr == b2.tiles[x][y].arr
    ensures NeighbourDict(b1, i, j) == NeighbourDict(b2, i, j)
  {
    var cells := Block(b1.length, i, j);
    forall m | 0 <= m < |cells| ensures b1.tiles[cells[m].0][cells[m].1].arr == b2.tiles[cells[m].0][cells[m].1].arr {
      assert cells[m] in cells;
    }
    GatherLocal(b1.tiles, b2.tiles, b1.length, cells, [], b1.boomer);
  }

  // ---------------------------------------------------------------------------------------
  // Tile.update (board.py:28-53)

  /** `Tile.update`: update the array, alias `neighbourData` to the new cache, and produce
      the offspring of the new resident. */
  function TileUpdate(t: Tile, nd: Dict<int>, draw: nat -> real, pick: nat, boomer: bool): (r: (Tile, PlantArray))
    requires KeysCovered(nd, t.arr.storage)
    ensures r.0.arr == Update(t.arr, nd, draw, pick)
    ensures r.0.neighbourData == r.0.arr.cache
    ensures r.1 == ProduceSeeds(r.0.arr, boomer)
  {
    var arr := Update(t.arr, nd, draw, pick);
    (Tile(arr.cache, arr), ProduceSeeds(arr, boomer))
  }

  /** The neighbour maps of all cells, each computed from the board as given: the first
      loop of `Board.update`, which reads only the old board. */
  function NeighbourMaps(b: Board): (r: Grid<Dict<int>>)
    requires Square(b.tiles, b.length)
    ensures Square(r, b.length)
  {
    seq(b.length, i => seq(b.length, j => NeighbourDict(b, i, j)))
  }

  lemma NeighbourMapsAt(b: Board, i: int, j: int)
    requires Square(b.tiles, b.length) && OnBoard(b.length, i, j)
    ensures NeighbourMaps(b)[i][j] == NeighbourDict(b, i, j)
  {
  }

  /** Every species stored in a tile is a key of that tile's map: the condition under which
      the tick raises no KeyError. */
  predicate Covered(maps: Grid<Dict<int>>, tiles: Grid<Tile>, n: int)
    requires Square(maps, n) && Square(tiles, n)
  {
    forall i, j :: 0 <= i < n && 0 <= j < n ==> KeysCovered(maps[i][j], tiles[i][j].arr.storage)
  }

  /** The board's own neighbour maps cover its tiles. */
  predicate AllCovered(b: Board)
    requires Square(b.tiles, b.length)
  {
    Covered(NeighbourMaps(b), b.tiles, b.length)
  }

  /** Cell (i, j) advanced against its map. */
  function AdvanceCell(b: Board, maps: Grid<Dict<int>>, o: TickOracle, i: int, j: int): (Tile, PlantArray)
    requires Square(b.tiles, b.length) && Square(maps, b.length) && OnBoard(b.length, i, j)
    requires KeysCovered(maps[i][j], b.tiles[i][j].arr.storage)
  {
    TileUpdate(b.tiles[i][j], maps[i][j], (k: nat) => o.draw(i, j, k), o.pick(i, j), b.boomer)
  }

  /** Every cell advanced against its map (the second loop of `Board.update`). */
  function Advanced(b: Board, maps: Grid<Dict<int>>, o: TickOracle): (r: Grid<(Tile, PlantArray)>)
    requires WellFormed(b) && Square(maps, b.length) && Covered(maps, b.tiles, b.length)
    ensures Square(r, b.length)
    ensures forall i, j :: OnBoard(b.length, i, j) ==> r[i][j].0.arr.limit == b.limit
  {
    var n := b.length;
    seq(n, i requires 0 <= i < n => seq(n, j requires 0 <= j < n => AdvanceCell(b, maps, o, i, j)))
  }

  lemma AdvancedAt(b: Board, maps: Grid<Dict<int>>, o: TickOracle, i: int, j: int)
    requires WellFormed(b) && Square(maps, b.length) && Covered(maps, b.tiles, b.length)
    requires OnBoard(b.length, i, j)
    ensures Advanced(b, maps, o)[i][j] == AdvanceCell(b, maps, o, i, j)
  {
  }

  /** The offspring of every advanced cell. */
  function Broods(adv: Grid<(Tile, PlantArray)>, n: int): (r: Grid<seq<Plant>>)
    requires Square(adv, n)
    ensures Square(r, n)
    ensures forall i, j :: OnBoard(n, i, j) ==> r[i][j] == adv[i][j].1.storage
  {
    seq(n, i requires 0 <= i < n => seq(n, j requires 0 <= j < n => adv[i][j].1.storage))
  }

  /** Offspring are never dead, and in the boomer model they are adults. */
  ghost predicate BroodsOk(offs: Grid<seq<Plant>>, n: int, boomer: bool)
  {
    Square(offs, n) && forall x, y :: OnBoard(n, x, y) ==> NoDead(offs[x][y]) && (boomer ==> AllAdult(offs[x][y]))
  }

  /** What a tick produces is fit to stage: no dead plant, and adults only in the boomer
      model. */
  lemma OffspringOk(b: Board, maps: Grid<Dict<int>>, o: TickOracle)
    requires WellFormed(b) && Square(maps, b.length) && Covered(maps, b.tiles, b.length)
    ensures BroodsOk(Broods(Advanced(b, maps, o), b.length), b.length, b.boomer)
  {
    forall x, y | OnBoard(b.length, x, y)
      ensures var s := Broods(Advanced(b, maps, o), b.length)[x][y];
        NoDead(s) && (b.boomer ==> AllAdult(s))
    {
      AdvancedAt(b, maps, o, x, y);
    }
  }

  // ---------------------------------------------------------------------------------------
  // Staging (board.py:256-264)

  /** Every cell of a square grid has capacity `limit`. */
  ghost predicate Limits(g: Grid<PlantArray>, n: int, limit: int)
  {
    Square(g, n) && forall x, y :: OnBoard(n, x, y) ==> g[x][y].limit == limit
  }

  /** Every cell of a square grid is an acceptable staging cell. */
  ghost predicate StagingGrid(g: Grid<PlantArray>, n: int, limit: int, boomer: bool)
  {
    Square(g, n) && forall x, y :: OnBoard(n, x, y) ==> StagingOk(g[x][y], limit, boomer)
  }

  /** Stage offspring `p` at (x, y): through addPlant when (x, y) is on the board, and
      discarded otherwise. */
  function Place(g: Grid<PlantArray>, n: int, limit: int, x: int, y: int, p: Plant, slot: nat): (r: Grid<PlantArray>)
    requires Limits(g, n, limit) && 0 < limit
    ensures Limits(r, n, limit)
    ensures !OnBoard(n, x, y) ==> r == g
  {
    if OnBoard(n, x, y) then g[x := g[x][y := AddPlant(g[x][y], p, slot)]] else g
  }

  /** Placing at (x, y) changes that cell through addPlant and no other cell. */
  lemma PlaceAt(g: Grid<PlantArray>, n: int, limit: int, x: int, y: int, p: Plant, slot: nat, a: int, c: int)
    requires Limits(g, n, limit) && 0 < limit && OnBoard(n, a, c)
    ensures Place(g, n, limit, x, y, p, slot)[a][c] == if a == x && c == y then AddPlant(g[x][y], p, slot) else g[a][c]
  {
  }

  /** Placing an acceptable offspring keeps every staging cell acceptable. */
  lemma PlaceOk(g: Grid<PlantArray>, n: int, limit: int, x: int, y: int, p: Plant, slot: nat, boomer: bool)
    requires Limits(g, n, limit) && 0 < limit && StagingGrid(g, n, limit, boomer)
    requires p.stage != Dead && (boomer ==> p.stage == Adult)
    ensures StagingGrid(Place(g, n, limit, x, y, p, slot), n, limit, boomer)
  {
    if OnBoard(n, x, y) {
      var s := AddPlant(g[x][y], p, slot);
      forall k | 0 <= k < |s.storage| ensures s.storage[k].stage != Dead && (boomer ==> s.storage[k].stage == Adult) {
        assert s.storage[k] in s.storage;
      }
      assert StagingOk(s, limit, boomer);
      forall a, c | OnBoard(n, a, c) ensures StagingOk(Place(g, n, limit, x, y, p, slot)[a][c], limit, boomer) {
        PlaceAt(g, n, limit, x, y, p, slot, a, c);
      }
    }
  }

  /** Stage the first `m` offspring `ps` of cell (i, j) at their drawn offsets. */
  function StageCell(g: Grid<PlantArray>, n: int, limit: int, i: int, j: int, ps: seq<Plant>, m: nat, o: TickOracle): (r: Grid<PlantArray>)
    requires Limits(g, n, limit) && 0 < limit && m <= |ps|
    ensures Limits(r, n, limit)
  {
    if m == 0 then g
    else
      var d := o.offset(i, j, m - 1);
      Place(StageCell(g, n, limit, i, j, ps, m - 1, o), n, limit, i + d.0, j + d.1, ps[m - 1], o.stageSlot(i, j, m - 1))
  }

  lemma {:induction false} StageCellOk(g: Grid<PlantArray>, n: int, limit: int, i: int, j: int, ps: seq<Plant>, m: nat, o: TickOracle, boomer: bool)
    requires Limits(g, n, limit) && 0 < limit && m <= |ps| && StagingGrid(g, n, limit, boomer)
    requires NoDead(ps) && (boomer ==> AllAdult(ps))
    ensures StagingGrid(StageCell(g, n, limit, i, j, ps, m, o), n, limit, boomer)
  {
    if m == 0 {
      assert StageCell(g, n, limit, i, j, ps, 0, o) == g;
    } else {
      StageCellOk(g, n, limit, i, j, ps, m - 1, o, boomer);
      StageOneOk(g, n, limit, i, j, ps, m, o, boomer);
    }
  }

  /** Staging the m-th offspring keeps the staging grid acceptable. */
  lemma StageOneOk(g: Grid<PlantArray>, n: int, limit: int, i: int, j: int, ps: seq<Plant>, m: nat, o: TickOracle, boomer: bool)
    requires Limits(g, n, limit) && 0 < limit && 0 < m <= |ps|
    requires NoDead(ps) && (boomer ==> AllAdult(ps))
    requires StagingGrid(StageCell(g, n, limit, i, j, ps, m - 1, o), n, limit, boomer)
    ensures StagingGrid(StageCell(g, n, limit, i, j, ps, m, o), n, limit, boomer)
  {
    var d := o.offset(i, j, m - 1);
    var g' := StageCell(g, n, limit, i, j, ps, m - 1, o);
    var p := ps[m - 1];
    var g2 := Place(g', n, limit, i + d.0, j + d.1, p, o.stageSlot(i, j, m - 1));
    assert StageCell(g, n, limit, i, j, ps, m, o) == g2;
    assert StagingGrid(g2, n, limit, boomer) by {
      assert p.stage != Dead && (boomer ==> p.stage == Adult);
      PlaceOk(g', n, limit, i + d.0, j + d.1, p, o.stageSlot(i, j, m - 1), boomer);
    }
  }

  /** Stage the offspring of cells (i, 0), ..., (i, m - 1). */
  function StageRow(g: Grid<PlantArray>, offs: Grid<seq<Plant>>, n: int, limit: int, i: int, m: int, o: TickOracle): (r: Grid<PlantArray>)
    requires Limits(g, n, limit) && 0 < limit && Square(offs, n) && 0 <= i < n && m <= n
    ensures Limits(r, n, limit)
    decreases m
  {
    if m <= 0 then g
    else
      var ps := offs[i][m - 1];
      StageCell(StageRow(g, offs, n, limit, i, m - 1, o), n, limit, i, m - 1, ps, |ps|, o)
  }

  /** Stage the offspring of the first `m` rows, in the row-major order of the loop. */
  function StageRows(g: Grid<PlantArray>, offs: Grid<seq<Plant>>, n: int, limit: int, m: int, o: TickOracle): (r: Grid<PlantArray>)
    requires Limits(g, n, limit) && 0 < limit && Square(offs, n) && m <= n
    ensures Limits(r, n, limit)
    decreases m
  {
    if m <= 0 then g
    else StageRow(StageRows(g, offs, n, limit, m - 1, o), offs, n, limit, m - 1, n, o)
  }

  lemma {:induction false} StageRowOk(g: Grid<PlantArray>, offs: Grid<seq<Plant>>, n: int, limit: int, i: int, m: int, o: TickOracle, boomer: bool)
    requires Limits(g, n, limit) && 0 < limit && 0 <= i < n && m <= n
    requires StagingGrid(g, n, limit, boomer) && BroodsOk(offs, n, boomer)
    ensures StagingGrid(StageRow(g, offs, n, limit, i, m, o), n, limit, boomer)
    decreases m
  {
    if m > 0 {
      StageRowOk(g, offs, n, limit, i, m - 1, o, boomer);
      var ps := offs[i][m - 1];
      StageCellOk(StageRow(g, offs, n, limit, i, m - 1, o), n, limit, i, m - 1, ps, |ps|, o, boomer);
    }
  }

  lemma {:induction false} StageRowsOk(g: Grid<PlantArray>, offs: Grid<seq<Plant>>, n: int, limit: int, m: int, o: TickOracle, boomer: bool)
    requires Limits(g, n, limit) && 0 < limit && m <= n
    requires StagingGrid(g, n, limit, boomer) && BroodsOk(offs, n, boomer)
    ensures StagingGrid(StageRows(g, offs, n, limit, m, o), n, limit, boomer)
    decreases m
  {
    if m <= 0 {
      assert StageRows(g, offs, n, limit, m, o) == g;
    } else {
      StageRowsOk(g, offs, n, limit, m - 1, o, boomer);
      var g1 := StageRows(g, offs, n, limit, m - 1, o);
      assert StageRows(g, offs, n, limit, m, o) == StageRow(g1, offs, n, limit, m - 1, n, o);
      StageRowOk(g1, offs, n, limit, m - 1, n, o, boomer);
    }
  }

  // ---------------------------------------------------------------------------------------
  // Board.update (board.py:229-274)

  function EmptyGrid(n: int, limit: int): (r: Grid<PlantArray>)
    requires 0 <= n
    ensures Square(r, n) && forall x, y :: OnBoard(n, x, y) ==> r[x][y] == Empty(limit)
  {
    seq(n, _ => seq(n, _ => Empty(limit)))
  }

  /** The merged tile (i, j): the advanced tile with its staging cell merged in. */
  function Merged(adv: Grid<(Tile, PlantArray)>, staged: Grid<PlantArray>, n: int, o: TickOracle, i: int, j: int): Tile
    requires Square(adv, n) && Square(staged, n) && OnBoard(n, i, j)
    requires 0 < adv[i][j].0.arr.limit
  {
    var arr := MergeArray(adv[i][j].0.arr, staged[i][j], k => o.mergeSlot(i, j, k));
    Tile(arr.cache, arr)
  }

  /** The staging board after every advanced cell has dispersed its offspring. */
  function Staged(b: Board, o: TickOracle, adv: Grid<(Tile, PlantArray)>): (r: Grid<PlantArray>)
    requires WellFormed(b) && Square(adv, b.length)
    ensures Limits(r, b.length, b.limit)
  {
    StageRows(b.seeds, Broods(adv, b.length), b.length, b.limit, b.length, o)
  }

  /** Every staging cell merged into its advanced tile. */
  function MergedGrid(adv: Grid<(Tile, PlantArray)>, staged: Grid<PlantArray>, n: int, limit: int, o: TickOracle): (r: Grid<Tile>)
    requires Square(adv, n) && Square(staged, n) && 0 < limit
    requires forall i, j :: OnBoard(n, i, j) ==> adv[i][j].0.arr.limit == limit
    ensures Square(r, n)
  {
    seq(n, i requires 0 <= i < n => seq(n, j requires 0 <= j < n => Merged(adv, staged, n, o, i, j)))
  }

  /** The board after one tick, given maps under which every lookup succeeds. */
  function Next(b: Board, maps: Grid<Dict<int>>, o: TickOracle): (r: Board)
    requires WellFormed(b) && Square(maps, b.length) && Covered(maps, b.tiles, b.length)
    ensures r.time == b.time + 1
    ensures r.length == b.length && r.limit == b.limit && r.boomer == b.boomer
    ensures Square(r.tiles, b.length) && Square(r.seeds, b.length)
    ensures forall x, y :: OnBoard(b.length, x, y) ==> r.seeds[x][y] == Empty(b.limit)
  {
    var adv := Advanced(b, maps, o);
    var tiles := MergedGrid(adv, Staged(b, o, adv), b.length, b.limit, o);
    Board(b.length, b.time + 1, b.limit, b.boomer, tiles, EmptyGrid(b.length, b.limit))
  }

  /**
   * `Board.update`, one tick: all neighbour maps from the board as given, every tile
   * advanced and its offspring staged in row-major order, every staging cell merged into
   * its tile, the staging board emptied and the clock advanced. `None` when some stored
   * species is missing from its cell's map, where the source raises KeyError.
   */
  function Tick(b: Board, o: TickOracle): (r: Option<Board>)
    requires WellFormed(b)
    ensures r.Some? <==> AllCovered(b)
    ensures r.Some? ==> r.value == Next(b, NeighbourMaps(b), o)
  {
    var maps := NeighbourMaps(b);
    if !Covered(maps, b.tiles, b.length) then None else Some(Next(b, maps, o))
  }

  /** A valid board raises no KeyError. */
  lemma ValidCovered(b: Board)
    requires BoardValid(b)
    ensures AllCovered(b)
  {
    forall i, j | 0 <= i < b.length && 0 <= j < b.length
      ensures KeysCovered(NeighbourMaps(b)[i][j], b.tiles[i][j].arr.storage)
    {
      NeighbourMapsAt(b, i, j);
      NeighbourDictCoversTile(b, i, j);
    }
  }

  /** Advancing a valid array and merging an acceptable staging cell into it yields a valid
      array of the same capacity, adults-only in the boomer model when the array was. */
  lemma AdvanceMergeOk(a: PlantArray, nd: Dict<int>, draw: nat -> real, pick: nat, src: PlantArray, slot: nat -> nat, boomer: bool)
    requires KeysCovered(nd, a.storage) && Valid(a) && (boomer ==> AllAdult(a.storage))
    requires StagingOk(src, a.limit, boomer)
    ensures var m := MergeArray(Update(a, nd, draw, pick), src, slot);
      Valid(m) && m.limit == a.limit && (boomer ==> AllAdult(m.storage))
  {
    var u := Update(a, nd, draw, pick);
    UpdateValid(a, nd, draw, pick);
    MergeArrayValid(u, src, slot);
    if boomer {
      UpdateKeepsAdultsOnly(a, nd, draw, pick);
      if !(u.resident.Some? && src.resident.Some?) {
        AddAllKeepsAdultsOnly(u, src.storage, slot, 0);
      }
    }
  }

  /** One merged tile is valid, synchronised, and adults-only in the boomer model, when the
      tile was and the staging cell is acceptable. */
  lemma MergedOk(b: Board, maps: Grid<Dict<int>>, o: TickOracle, staged: Grid<PlantArray>, i: int, j: int)
    requires WellFormed(b) && Square(maps, b.length) && Covered(maps, b.tiles, b.length)
    requires OnBoard(b.length, i, j)
    requires Valid(b.tiles[i][j].arr) && (b.boomer ==> AllAdult(b.tiles[i][j].arr.storage))
    requires Limits(staged, b.length, b.limit) && StagingOk(staged[i][j], b.limit, b.boomer)
    ensures var t := Merged(Advanced(b, maps, o), staged, b.length, o, i, j);
      Valid(t.arr) && t.neighbourData == t.arr.cache && t.arr.limit == b.limit && (b.boomer ==> AllAdult(t.arr.storage))
  {
    AdvancedAt(b, maps, o, i, j);
    AdvanceMergeOk(b.tiles[i][j].arr, maps[i][j], (k: nat) => o.draw(i, j, k), o.pick(i, j),
      staged[i][j], k => o.mergeSlot(i, j, k), b.boomer);
  }

  /**
   * A tick keeps the board invariant: every cell still holds at most one adult, its
   * resident, within capacity and with an exact cache, and the staging board is empty.
   */
  lemma TickValid(b: Board, o: TickOracle)
    requires BoardValid(b)
    ensures Tick(b, o).Some? && BoardValid(Tick(b, o).value)
  {
    ValidCovered(b);
    NextValid(b, NeighbourMaps(b), o);
  }

  lemma NextValid(b: Board, maps: Grid<Dict<int>>, o: TickOracle)
    requires BoardValid(b) && Square(maps, b.length) && Covered(maps, b.tiles, b.length)
    ensures BoardValid(Next(b, maps, o))
  {
    var r := Next(b, maps, o);
    NextTilesOk(b, maps, o, r);
    ClearedValid(b, r);
  }

  /** A board of the same shape whose cells are all in order and whose staging cells are
      all empty is valid. */
  lemma ClearedValid(b: Board, r: Board)
    requires WellFormed(b)
    requires r.length == b.length && r.limit == b.limit && r.boomer == b.boomer
    requires Square(r.tiles, b.length) && Square(r.seeds, b.length)
    requires forall x, y :: OnBoard(b.length, x, y) ==> r.seeds[x][y] == Empty(b.limit)
    requires forall i, j :: OnBoard(b.length, i, j) ==>
      && Valid(r.tiles[i][j].arr)
      && r.tiles[i][j].neighbourData == r.tiles[i][j].arr.cache
      && (r.boomer ==> AllAdult(r.tiles[i][j].arr.storage))
      && r.tiles[i][j].arr.limit == r.limit
    ensures BoardValid(r)
  {
  }

  /** Every cell after the tick is valid, synchronised, of the board's capacity and
      adults-only in the boomer model. */
  lemma NextTilesOk(b: Board, maps: Grid<Dict<int>>, o: TickOracle, r: Board)
    requires BoardValid(b) && Square(maps, b.length) && Covered(maps, b.tiles, b.length)
    requires r == Next(b, maps, o)
    ensures forall i, j :: OnBoard(b.length, i, j) ==>
      && Valid(r.tiles[i][j].arr)
      && r.tiles[i][j].neighbourData == r.tiles[i][j].arr.cache
      && (r.boomer ==> AllAdult(r.tiles[i][j].arr.storage))
      && r.tiles[i][j].arr.limit == r.limit
  {
    forall i, j | OnBoard(b.length, i, j)
      ensures && Valid(r.tiles[i][j].arr)
              && r.tiles[i][j].neighbourData == r.tiles[i][j].arr.cache
              && (r.boomer ==> AllAdult(r.tiles[i][j].arr.storage))
              && r.tiles[i][j].arr.limit == r.limit
    {
      NextCellOk(b, maps, o, i, j);
    }
  }

  /** One cell after the tick: its tile is valid, synchronised, of the board's capacity and
      adults-only in the boomer model. */
  lemma NextCellOk(b: Board, maps: Grid<Dict<int>>, o: TickOracle, i: int, j: int)
    requires BoardValid(b) && Square(maps, b.length) && Covered(maps, b.tiles, b.length)
    requires OnBoard(b.length, i, j)
    ensures var t := Next(b, maps, o).tiles[i][j];
      && Valid(t.arr) && t.neighbourData == t.arr.cache && t.arr.limit == b.limit
      && (b.boomer ==> AllAdult(t.arr.storage))
  {
    var n := b.length;
    var adv := Advanced(b, maps, o);
    OffspringOk(b, maps, o);
    StageRowsOk(b.seeds, Broods(adv, n), n, b.limit, n, o, b.boomer);
    var staged := Staged(b, o, adv);
    assert Next(b, maps, o).tiles[i][j] == Merged(adv, staged, n, o, i, j);
    MergedOk(b, maps, o, staged, i, j);
  }

  /** In the boomer model every tile of a valid board holds its resident and nothing else. */
  lemma BoomerTilesHoldOnlyResident(b: Board)
    requires BoardValid(b) && b.boomer
    ensures forall i, j :: OnBoard(b.length, i, j) ==>
      b.tiles[i][j].arr.storage == if b.tiles[i][j].arr.resident.Some? then [b.tiles[i][j].arr.resident.value] else []
  {
    forall i, j | OnBoard(b.length, i, j)
      ensures b.tiles[i][j].arr.storage == if b.tiles[i][j].arr.resident.Some? then [b.tiles[i][j].arr.resident.value] else []
    {
      AdultsOnlyMeansResidentOnly(b.tiles[i][j].arr);
    }
  }
}
