/**
 * The Java board (Board.java): a row-major list of `length * length` tiles, each linked to
 * the tiles within `nNDD` rows and columns of it (its neighbourhood, itself included) and to
 * the tiles within the seed-dispersal radius grouped by Chebyshev distance. The constructor
 * links the tiles and plants the initial juveniles; `update` runs every tile's update and
 * seeding against the old sides of all tiles before any tile swaps its sides.
 *
 * Tile references are indices into the tile list. The random tile draws of the initial
 * seeding are a finite sequence, and the per-tile draws of a tick are oracle functions.
 */
module JBoard {
  import opened Options
  import opened Dicts
  import opened JPlants
  import opened JTile
  import PA = PlantArray

  // ---------------------------------------------------------------------------------------
  // Coordinates

  /** The row-major index of row `i`, column `j` (Board.java:55). */
  function Index(length: int, i: int, j: int): int
  {
    i * length + j
  }

  /** Row and column of an index (Board.java:50-51). The index is never negative, so Java's
      truncating `%` and `/` agree with Dafny's. */
  function Coords(length: int, ind: nat): (int, int)
    requires length > 0
  {
    var j := ind % length;
    ((ind - j) / length, j)
  }

  predicate OnBoard(length: int, i: int, j: int)
  {
    0 <= i < length && 0 <= j < length
  }

  lemma MulBound(a: int, length: int)
    requires length > 0
    ensures a >= 0 ==> a * length >= 0
    ensures a >= 1 ==> a * length >= length
  {
  }

  /** Quotient and remainder are the only ones with a remainder in range. */
  lemma DivModUnique(n: int, length: int, q: int, r: int)
    requires length > 0 && n == q * length + r && 0 <= r < length
    ensures n / length == q && n % length == r
  {
    var q' := n / length;
    var r' := n % length;
    assert (q - q') * length == r' - r;
    assert (q' - q) * length == r - r';
    MulBound(q - q', length);
    MulBound(q' - q, length);
  }

  /** Decoding an encoded in-range position gives it back. */
  lemma CoordsOfIndex(length: int, i: int, j: int)
    requires OnBoard(length, i, j)
    ensures Index(length, i, j) >= 0
    ensures Coords(length, Index(length, i, j)) == (i, j)
  {
    var n := i * length + j;
    assert i * length >= 0;
    DivModUnique(n, length, i, j);
    DivModUnique(n - j, length, i, 0);
  }

  /** Encoding the decoded index gives it back, and an index below length * length decodes
      to a position on the board. */
  lemma IndexOfCoords(length: int, ind: nat)
    requires length > 0
    ensures Index(length, Coords(length, ind).0, Coords(length, ind).1) == ind
    ensures ind < length * length ==> OnBoard(length, Coords(length, ind).0, Coords(length, ind).1)
  {
    var j := ind % length;
    var q := ind / length;
    assert ind == q * length + j;
    DivModUnique(ind - j, length, q, 0);
    if ind < length * length {
      DivBelow(ind, length);
    }
    MulBound(-q, length);
    assert (-q) * length == -(q * length);
  }

  lemma DivBelow(ind: nat, length: int)
    requires length > 0 && ind < length * length
    ensures ind / length < length
  {
    var q := ind / length;
    assert ind == q * length + ind % length;
    MulBound(q - length, length);
    assert (q - length) * length == q * length - length * length;
  }

  /** An index on the board is below length * length. */
  lemma IndexBelow(length: int, i: int, j: int)
    requires OnBoard(length, i, j)
    ensures 0 <= Index(length, i, j) < length * length
  {
    assert i * length <= (length - 1) * length;
    assert (length - 1) * length == length * length - length;
  }

  /** Distinct positions have distinct indices. */
  lemma IndexInjective(length: int, i: int, j: int, x: int, y: int)
    requires OnBoard(length, i, j) && OnBoard(length, x, y)
    requires Index(length, i, j) == Index(length, x, y)
    ensures i == x && j == y
  {
    CoordsOfIndex(length, i, j);
    CoordsOfIndex(length, x, y);
  }

  function Abs(x: int): int { if x < 0 then -x else x }

  /** Chebyshev distance of a shift (Board.java:64). */
  function Cheb(dx: int, dy: int): int { PA.Max(Abs(dx), Abs(dy)) }

  // ---------------------------------------------------------------------------------------
  // Linking the tiles

  /** The shifts -r..r inclusive (Board.java:41-46); none for a negative radius. */
  function Shifts(r: int): (s: seq<int>)
    ensures forall v :: v in s <==> -r <= v <= r
  {
    var s := seq(if r >= 0 then 2 * r + 1 else 0, k => k - r);
    forall v | -r <= v <= r ensures v in s {
      assert s[v + r] == v;
    }
    s
  }

  /** The in-board shifts (dx, dy) for one dx, as (distance, index) pairs in loop order. */
  function ScanRow(length: int, i: int, j: int, dx: int, dys: seq<int>): (r: seq<(int, int)>)
    ensures forall e :: e in r <==>
      exists dy :: dy in dys && OnBoard(length, i + dx, j + dy) && e == (Cheb(dx, dy), Index(length, i + dx, j + dy))
  {
    if |dys| == 0 then []
    else
      var pre := ScanRow(length, i, j, dx, dys[..|dys| - 1]);
      var dy := dys[|dys| - 1];
      assert forall d :: d in dys <==> d in dys[..|dys| - 1] || d == dy;
      if OnBoard(length, i + dx, j + dy) then pre + [(Cheb(dx, dy), Index(length, i + dx, j + dy))] else pre
  }

  /**
   * The double loop over shifts (Board.java:52-59 and 60-76): every in-board tile at shift
   * (dx, dy) from (i, j), dx outer and dy inner, with its Chebyshev distance.
   */
  function Scan(length: int, i: int, j: int, dxs: seq<int>, dys: seq<int>): (r: seq<(int, int)>)
    ensures forall e :: e in r <==>
      exists dx, dy :: dx in dxs && dy in dys && OnBoard(length, i + dx, j + dy)
                       && e == (Cheb(dx, dy), Index(length, i + dx, j + dy))
  {
    if |dxs| == 0 then []
    else
      var pre := Scan(length, i, j, dxs[..|dxs| - 1], dys);
      var dx := dxs[|dxs| - 1];
      assert forall d :: d in dxs <==> d in dxs[..|dxs| - 1] || d == dx;
      pre + ScanRow(length, i, j, dx, dys)
  }

  /** The scan in board coordinates: an on-board tile is visited exactly when its row and
      column shifts are among the shifts, and it is visited with its own distance. */
  lemma ScanHas(length: int, i: int, j: int, dxs: seq<int>, dys: seq<int>, x: int, y: int, d: int)
    requires OnBoard(length, i, j) && OnBoard(length, x, y)
    ensures (d, Index(length, x, y)) in Scan(length, i, j, dxs, dys)
        <==> (x - i) in dxs && (y - j) in dys && d == Cheb(x - i, y - j)
  {
    if (d, Index(length, x, y)) in Scan(length, i, j, dxs, dys) {
      var dx, dy :| dx in dxs && dy in dys && OnBoard(length, i + dx, j + dy)
                    && (d, Index(length, x, y)) == (Cheb(dx, dy), Index(length, i + dx, j + dy));
      IndexInjective(length, i + dx, j + dy, x, y);
    }
    if (x - i) in dxs && (y - j) in dys && d == Cheb(x - i, y - j) {
      assert OnBoard(length, i + (x - i), j + (y - j));
    }
  }

  /** Every scanned index lies on the board. */
  lemma ScanInRange(length: int, i: int, j: int, dxs: seq<int>, dys: seq<int>)
    ensures forall e :: e in Scan(length, i, j, dxs, dys) ==> 0 <= e.1 < length * length
  {
    forall e | e in Scan(length, i, j, dxs, dys) ensures 0 <= e.1 < length * length {
      var dx, dy :| dx in dxs && dy in dys && OnBoard(length, i + dx, j + dy)
                    && e == (Cheb(dx, dy), Index(length, i + dx, j + dy));
      IndexBelow(length, i + dx, j + dy);
    }
  }

  /** The indices of a scan, in order. */
  function Indices(e: seq<(int, int)>): (r: seq<int>)
    ensures |r| == |e| && forall k :: 0 <= k < |e| ==> r[k] == e[k].1
  {
    seq(|e|, k requires 0 <= k < |e| => e[k].1)
  }

  /** Strictly increasing, so no value occurs twice. */
  predicate Ascending(s: seq<int>)
  {
    forall a, b :: 0 <= a < b < |s| ==> s[a] < s[b]
  }

  /** The indices of a scan strictly increase. */
  predicate IndicesAscending(e: seq<(int, int)>)
  {
    forall a, b :: 0 <= a < b < |e| ==> e[a].1 < e[b].1
  }

  lemma ShiftsAscending(r: int)
    ensures Ascending(Shifts(r))
  {
  }

  /** Row-major order: any cell of an earlier row comes before any cell of a later one. */
  lemma RowOrder(length: int, x: int, y: int, x': int, y': int)
    requires 0 <= y < length && 0 <= y' < length && x < x'
    ensures Index(length, x, y) < Index(length, x', y')
  {
    MulBound(x' - x - 1, length);
    assert (x' - x - 1) * length == x' * length - x * length - length;
  }

  /** Within a row the scan follows the column shifts, so it visits indices in increasing
      order when the shifts increase. */
  lemma {:induction false} ScanRowAscending(length: int, i: int, j: int, dx: int, dys: seq<int>)
    requires Ascending(dys)
    ensures IndicesAscending(ScanRow(length, i, j, dx, dys))
  {
    if |dys| > 0 {
      var dys0 := dys[..|dys| - 1];
      var dy := dys[|dys| - 1];
      var pre := ScanRow(length, i, j, dx, dys0);
      ScanRowAscending(length, i, j, dx, dys0);
      if OnBoard(length, i + dx, j + dy) {
        forall a | 0 <= a < |pre| ensures pre[a].1 < Index(length, i + dx, j + dy) {
          assert pre[a] in pre;
          var dy' :| dy' in dys0 && OnBoard(length, i + dx, j + dy') && pre[a] == (Cheb(dx, dy'), Index(length, i + dx, j + dy'));
          var k :| 0 <= k < |dys0| && dys0[k] == dy';
          assert dys[k] < dys[|dys| - 1];
        }
      }
    }
  }

  /** With increasing row and column shifts, the double loop visits indices in increasing
      order, so it never lists a tile twice. */
  lemma {:induction false} ScanAscending(length: int, i: int, j: int, dxs: seq<int>, dys: seq<int>)
    requires Ascending(dxs) && Ascending(dys)
    ensures IndicesAscending(Scan(length, i, j, dxs, dys))
  {
    if |dxs| > 0 {
      var dxs0 := dxs[..|dxs| - 1];
      var dx := dxs[|dxs| - 1];
      var pre := Scan(length, i, j, dxs0, dys);
      var row := ScanRow(length, i, j, dx, dys);
      assert Scan(length, i, j, dxs, dys) == pre + row;
      ScanAscending(length, i, j, dxs0, dys);
      ScanRowAscending(length, i, j, dx, dys);
      forall d | d in dxs0 ensures d < dx {
        var k :| 0 <= k < |dxs0| && dxs0[k] == d;
        assert dxs[k] < dxs[|dxs| - 1];
      }
      forall a, b | 0 <= a < |pre| && 0 <= b < |row| ensures pre[a].1 < row[b].1 {
        EarlierRow(length, i, j, dxs0, dys, dx, pre[a], row[b]);
      }
      ConcatAscending(pre, row);
    }
  }

  /** A tile of the rows scanned before row `dx` has a smaller index than a tile of row
      `dx`. */
  lemma EarlierRow(length: int, i: int, j: int, dxs: seq<int>, dys: seq<int>, dx: int, e: (int, int), f: (int, int))
    requires forall d :: d in dxs ==> d < dx
    requires e in Scan(length, i, j, dxs, dys) && f in ScanRow(length, i, j, dx, dys)
    ensures e.1 < f.1
  {
    var x1, y1 := ScanTile(length, i, j, dxs, dys, e);
    var y2 := ScanRowTile(length, i, j, dx, dys, f);
    RowOrder(length, x1, y1, i + dx, y2);
  }

  /** The board tile behind an entry of the scan. */
  lemma ScanTile(length: int, i: int, j: int, dxs: seq<int>, dys: seq<int>, e: (int, int)) returns (x: int, y: int)
    requires e in Scan(length, i, j, dxs, dys)
    ensures x - i in dxs && 0 <= y < length && e.1 == Index(length, x, y)
  {
    var dx, dy :| dx in dxs && dy in dys && OnBoard(length, i + dx, j + dy)
                  && e == (Cheb(dx, dy), Index(length, i + dx, j + dy));
    x, y := i + dx, j + dy;
  }

  /** The column behind an entry of one row of the scan. */
  lemma ScanRowTile(length: int, i: int, j: int, dx: int, dys: seq<int>, f: (int, int)) returns (y: int)
    requires f in ScanRow(length, i, j, dx, dys)
    ensures 0 <= y < length && f.1 == Index(length, i + dx, y)
  {
    var dy :| dy in dys && OnBoard(length, i + dx, j + dy) && f == (Cheb(dx, dy), Index(length, i + dx, j + dy));
    y := j + dy;
  }

  lemma ConcatAscending(pre: seq<(int, int)>, row: seq<(int, int)>)
    requires IndicesAscending(pre) && IndicesAscending(row)
    requires forall a, b :: 0 <= a < |pre| && 0 <= b < |row| ==> pre[a].1 < row[b].1
    ensures IndicesAscending(pre + row)
  {
    var e := pre + row;
    forall a, b | 0 <= a < b < |e| ensures e[a].1 < e[b].1 {
      if b < |pre| {
      } else if a >= |pre| {
        assert e[a] == row[a - |pre|] && e[b] == row[b - |pre|];
      } else {
        assert e[a] == pre[a] && e[b] == row[b - |pre|];
      }
    }
  }

  /** The neighbourhood list of tile `ind` (Board.java:48-59), in loop order. */
  function NddList(length: int, nNDD: int, ind: nat): seq<int>
    requires length > 0
  {
    var c := Coords(length, ind);
    Indices(Scan(length, c.0, c.1, Shifts(nNDD), Shifts(nNDD)))
  }

  /**
   * The neighbourhood of the tile at (i, j) holds exactly the tiles at most `nNDD` rows and
   * `nNDD` columns away, the tile itself included when nNDD >= 0, and nothing off the board,
   * in increasing index order and so each tile once.
   */
  lemma NddListMembers(length: int, nNDD: int, i: int, j: int, x: int, y: int)
    requires OnBoard(length, i, j) && OnBoard(length, x, y)
    ensures Index(length, x, y) in NddList(length, nNDD, Index(length, i, j))
        <==> Abs(x - i) <= nNDD && Abs(y - j) <= nNDD
    ensures forall v :: v in NddList(length, nNDD, Index(length, i, j)) ==> 0 <= v < length * length
    ensures Ascending(NddList(length, nNDD, Index(length, i, j)))
  {
    CoordsOfIndex(length, i, j);
    var e := Scan(length, i, j, Shifts(nNDD), Shifts(nNDD));
    ShiftsAscending(nNDD);
    ScanAscending(length, i, j, Shifts(nNDD), Shifts(nNDD));
    ScanInRange(length, i, j, Shifts(nNDD), Shifts(nNDD));
    ScanHas(length, i, j, Shifts(nNDD), Shifts(nNDD), x, y, Cheb(x - i, y - j));
    var l := NddList(length, nNDD, Index(length, i, j));
    if Index(length, x, y) in l {
      var k :| 0 <= k < |l| && l[k] == Index(length, x, y);
      ScanHas(length, i, j, Shifts(nNDD), Shifts(nNDD), x, y, e[k].0);
    }
    if Abs(x - i) <= nNDD && Abs(y - j) <= nNDD {
      var k :| 0 <= k < |e| && e[k] == (Cheb(x - i, y - j), Index(length, x, y));
      assert l[k] == Index(length, x, y);
    }
    forall v | v in l ensures 0 <= v < length * length {
      var k :| 0 <= k < |l| && l[k] == v;
      assert e[k] in e;
    }
  }

  /** The list under key `d`, reading an absent key as empty. */
  function BucketAt(b: Dict<seq<int>>, d: int): seq<int>
  {
    match Lookup(b, d)
    case Some(l) => l
    case None => []
  }

  /** Append each index to the list of its distance (Board.java:66-73). */
  function Bucketize(e: seq<(int, int)>): (r: Dict<seq<int>>)
    ensures forall d, v :: v in BucketAt(r, d) <==> (d, v) in e
  {
    if |e| == 0 then []
    else
      var b := Bucketize(e[..|e| - 1]);
      var last := e[|e| - 1];
      assert forall x :: x in e <==> x in e[..|e| - 1] || x == last;
      Put(b, last.0, BucketAt(b, last.0) + [last.1])
  }

  /** Bucketing a scan in increasing index order keeps every bucket increasing. */
  lemma {:induction false} BucketsAscending(e: seq<(int, int)>, d: int)
    requires IndicesAscending(e)
    ensures Ascending(BucketAt(Bucketize(e), d))
  {
    if |e| == 0 {
      assert BucketAt(Bucketize(e), d) == [];
    } else {
      BucketsAscending(e[..|e| - 1], d);
      BucketStepAscending(e, d);
    }
  }

  /** Appending the next, larger index keeps the bucket it joins increasing. */
  lemma BucketStepAscending(e: seq<(int, int)>, d: int)
    requires |e| > 0 && IndicesAscending(e)
    requires Ascending(BucketAt(Bucketize(e[..|e| - 1]), d))
    ensures Ascending(BucketAt(Bucketize(e), d))
  {
    var b := Bucketize(e[..|e| - 1]);
    var last := e[|e| - 1];
    var l := BucketAt(b, d);
    assert Bucketize(e) == Put(b, last.0, BucketAt(b, last.0) + [last.1]);
    if d == last.0 {
      assert BucketAt(Bucketize(e), d) == l + [last.1];
      EarlierBucket(e, d, l);
      AppendAscending(l, last.1);
    } else {
      assert BucketAt(Bucketize(e), d) == l;
    }
  }

  /** Every index bucketed before the last entry is smaller than the last entry's index. */
  lemma EarlierBucket(e: seq<(int, int)>, d: int, l: seq<int>)
    requires |e| > 0 && IndicesAscending(e) && l == BucketAt(Bucketize(e[..|e| - 1]), d)
    ensures forall v :: v in l ==> v < e[|e| - 1].1
  {
    var e0 := e[..|e| - 1];
    forall v | v in l ensures v < e[|e| - 1].1 {
      var k :| 0 <= k < |e0| && e0[k] == (d, v);
      assert e[k].1 < e[|e| - 1].1;
    }
  }

  lemma AppendAscending(l: seq<int>, x: int)
    requires Ascending(l) && forall v :: v in l ==> v < x
    ensures Ascending(l + [x])
  {
    var m := l + [x];
    forall a, b | 0 <= a < b < |m| ensures m[a] < m[b] {
      if b == |l| {
        assert l[a] in l;
      }
    }
  }

  /** The seed-dispersal buckets of tile `ind` (Board.java:60-76), radius `nSeeds`. */
  function SeedBuckets(length: int, nSeeds: int, ind: nat): Dict<seq<int>>
    requires length > 0
  {
    var c := Coords(length, ind);
    Bucketize(Scan(length, c.0, c.1, Shifts(nSeeds), Shifts(nSeeds)))
  }

  /** A tile within the seed radius of (i, j) sits in the bucket of its Chebyshev distance
      and in no other; tiles beyond the radius sit in none; a bucket lists each tile once. */
  lemma SeedBucketsMembers(length: int, nSeeds: int, i: int, j: int, x: int, y: int, d: int)
    requires OnBoard(length, i, j) && OnBoard(length, x, y)
    ensures Index(length, x, y) in BucketAt(SeedBuckets(length, nSeeds, Index(length, i, j)), d)
        <==> Abs(x - i) <= nSeeds && Abs(y - j) <= nSeeds && d == Cheb(x - i, y - j)
    ensures Ascending(BucketAt(SeedBuckets(length, nSeeds, Index(length, i, j)), d))
  {
    CoordsOfIndex(length, i, j);
    ScanHas(length, i, j, Shifts(nSeeds), Shifts(nSeeds), x, y, d);
    ShiftsAscending(nSeeds);
    ScanAscending(length, i, j, Shifts(nSeeds), Shifts(nSeeds));
    BucketsAscending(Scan(length, i, j, Shifts(nSeeds), Shifts(nSeeds)), d);
  }

  // ---------------------------------------------------------------------------------------
  // The board and its construction

  datatype JBoard = JBoard(
    length: int,
    tiles: seq<Tile>,
    nndd: seq<seq<int>>,
    nseeds: seq<Dict<seq<int>>>)

  /** Number of tiles of a board of side `length`. */
  function Size(length: int): nat
  {
    if length > 0 then length * length else 0
  }

  /** The tiles and their links before any plant is placed (Board.java:22-77); the seed
      radius is one less than the number of distance probabilities. */
  function Layout(length: int, nNDD: int, distanceProbs: seq<real>): (b: JBoard)
    ensures |b.tiles| == |b.nndd| == |b.nseeds| == Size(length)
  {
    var n := Size(length);
    var nSeeds := |distanceProbs| - 1;
    JBoard(length,
      seq(n, _ => EmptyTile()),
      seq(n, ind requires 0 <= ind < n => NddList(length, nNDD, ind)),
      seq(n, ind requires 0 <= ind < n => SeedBuckets(length, nSeeds, ind)))
  }

  /** Plant a juvenile of age 0 in the old side of a tile (Board.java:88-96). */
  function AddJuvenile(t: Tile, sp: JSpecies): (r: Tile)
    ensures r.oldPlants == t.oldPlants + [JPlant(sp, 0, Juvenile)]
  {
    t.(oldPlants := t.oldPlants + [JPlant(sp, 0, Juvenile)],
       oldMap := PA.BumpJuvenile(t.oldMap, sp.speciesId))
  }

  /**
   * Place one juvenile (Board.java:84-99): draw tile indices until one has fewer than 50
   * plants, and plant there. The source loops until it succeeds; here the draws are finite
   * and `None` means they ran out, as they must when every tile is full.
   */
  function PlantOne(tiles: seq<Tile>, sp: JSpecies, draws: seq<nat>): (r: Option<(seq<Tile>, seq<nat>)>)
    ensures r.Some? ==> |r.value.0| == |tiles| && |r.value.1| < |draws|
    ensures r.Some? ==> exists ind :: 0 <= ind < |tiles| && |tiles[ind].oldPlants| < Capacity
                                      && r.value.0 == tiles[ind := AddJuvenile(tiles[ind], sp)]
  {
    if |draws| == 0 || |tiles| == 0 then None
    else
      var ind := draws[0] % |tiles|;
      if |tiles[ind].oldPlants| < Capacity then Some((tiles[ind := AddJuvenile(tiles[ind], sp)], draws[1..]))
      else PlantOne(tiles, sp, draws[1..])
  }

  /** Place `count` juveniles of one species (Board.java:83-100). */
  function PlantSpecies(tiles: seq<Tile>, sp: JSpecies, count: int, draws: seq<nat>): (r: Option<(seq<Tile>, seq<nat>)>)
    ensures r.Some? ==> |r.value.0| == |tiles|
    decreases if count > 0 then count else 0
  {
    if count <= 0 then Some((tiles, draws))
    else match PlantSpecies(tiles, sp, count - 1, draws)
      case None => None
      case Some(p) => PlantOne(p.0, sp, p.1)
  }

  /** Place `count` juveniles of every species, species by species (Board.java:79-101). */
  function PlantAll(tiles: seq<Tile>, species: seq<JSpecies>, count: int, draws: seq<nat>): (r: Option<(seq<Tile>, seq<nat>)>)
    ensures r.Some? ==> |r.value.0| == |tiles|
  {
    if |species| == 0 then Some((tiles, draws))
    else match PlantAll(tiles, species[..|species| - 1], count, draws)
      case None => None
      case Some(p) => PlantSpecies(p.0, species[|species| - 1], count, p.1)
  }

  /** The constructor (Board.java:20-102): `None` when the tile draws run out. */
  function NewBoard(length: int, nNDD: int, distanceProbs: seq<real>, species: seq<JSpecies>,
                    numJuvenile: int, draws: seq<nat>): (r: Option<JBoard>)
    ensures r.Some? ==> |r.value.tiles| == Size(length)
  {
    var b := Layout(length, nNDD, distanceProbs);
    match PlantAll(b.tiles, species, numJuvenile, draws)
    case None => None
    case Some(p) => Some(b.(tiles := p.0))
  }

  /** Juveniles of species `id` on all the tiles. */
  function JuvenilesOf(tiles: seq<Tile>, id: int): nat
  {
    if |tiles| == 0 then 0 else JuvenilesOf(tiles[..|tiles| - 1], id) + CountOf(tiles[|tiles| - 1].oldPlants, id, Juvenile)
  }

  lemma {:induction false} JuvenilesOfReplace(tiles: seq<Tile>, k: nat, t: Tile, id: int)
    requires k < |tiles|
    ensures JuvenilesOf(tiles[k := t], id)
         == JuvenilesOf(tiles, id) - CountOf(tiles[k].oldPlants, id, Juvenile) + CountOf(t.oldPlants, id, Juvenile)
  {
    var n := |tiles|;
    if k == n - 1 {
      assert tiles[k := t][..n - 1] == tiles[..n - 1];
    } else {
      JuvenilesOfReplace(tiles[..n - 1], k, t, id);
      assert tiles[k := t][..n - 1] == tiles[..n - 1][k := t];
    }
  }

  /** A valid tile without an adult, as the initial seeding keeps every tile. */
  ghost predicate Seedling(t: Tile)
  {
    Valid(t) && t.oldAdult.None?
  }

  lemma AddJuvenileOk(t: Tile, sp: JSpecies)
    requires Seedling(t) && |t.oldPlants| < Capacity
    ensures Seedling(AddJuvenile(t, sp))
    ensures forall id :: CountOf(AddJuvenile(t, sp).oldPlants, id, Juvenile)
                      == CountOf(t.oldPlants, id, Juvenile) + (if id == sp.speciesId then 1 else 0)
  {
    MapAppendJuvenile(t.oldMap, t.oldPlants, JPlant(sp, 0, Juvenile));
    CountAppend(t.oldPlants, JPlant(sp, 0, Juvenile));
  }

  /** Placing one juvenile keeps every tile valid and adds exactly one juvenile of its
      species to the board. */
  lemma PlantOneOk(tiles: seq<Tile>, sp: JSpecies, draws: seq<nat>)
    requires forall k :: 0 <= k < |tiles| ==> Seedling(tiles[k])
    requires PlantOne(tiles, sp, draws).Some?
    ensures var ts := PlantOne(tiles, sp, draws).value.0;
      && (forall k :: 0 <= k < |ts| ==> Seedling(ts[k]))
      && (forall id :: JuvenilesOf(ts, id) == JuvenilesOf(tiles, id) + (if id == sp.speciesId then 1 else 0))
  {
    var ts := PlantOne(tiles, sp, draws).value.0;
    var ind :| 0 <= ind < |tiles| && |tiles[ind].oldPlants| < Capacity && ts == tiles[ind := AddJuvenile(tiles[ind], sp)];
    AddJuvenileOk(tiles[ind], sp);
    forall id ensures JuvenilesOf(ts, id) == JuvenilesOf(tiles, id) + (if id == sp.speciesId then 1 else 0) {
      JuvenilesOfReplace(tiles, ind, AddJuvenile(tiles[ind], sp), id);
    }
  }

  /** Placing a species adds `count` juveniles of it, when the draws suffice. */
  lemma {:induction false} PlantSpeciesOk(tiles: seq<Tile>, sp: JSpecies, count: int, draws: seq<nat>)
    requires forall k :: 0 <= k < |tiles| ==> Seedling(tiles[k])
    requires PlantSpecies(tiles, sp, count, draws).Some?
    ensures var ts := PlantSpecies(tiles, sp, count, draws).value.0;
      && (forall k :: 0 <= k < |ts| ==> Seedling(ts[k]))
      && (forall id :: JuvenilesOf(ts, id) == JuvenilesOf(tiles, id) + (if id == sp.speciesId then PA.Max(count, 0) else 0))
    decreases if count > 0 then count else 0
  {
    if count > 0 {
      PlantSpeciesOk(tiles, sp, count - 1, draws);
      var p := PlantSpecies(tiles, sp, count - 1, draws).value;
      PlantOneOk(p.0, sp, p.1);
    }
  }

  /** Number of entries of `species` with id `id`. */
  function Occurrences(species: seq<JSpecies>, id: int): nat
  {
    if |species| == 0 then 0
    else Occurrences(species[..|species| - 1], id) + (if species[|species| - 1].speciesId == id then 1 else 0)
  }

  /** `count` for each entry of `species` with id `id`. */
  function Planted(species: seq<JSpecies>, id: int, count: nat): nat
  {
    if |species| == 0 then 0
    else Planted(species[..|species| - 1], id, count) + (if species[|species| - 1].speciesId == id then count else 0)
  }

  lemma {:induction false} PlantedIsProduct(species: seq<JSpecies>, id: int, count: nat)
    ensures Planted(species, id, count) == Occurrences(species, id) * count
  {
    if |species| > 0 {
      var pre := species[..|species| - 1];
      PlantedIsProduct(pre, id, count);
      var d := if species[|species| - 1].speciesId == id then 1 else 0;
      assert (Occurrences(pre, id) + d) * count == Occurrences(pre, id) * count + d * count;
    }
  }

  /**
   * The initial seeding (Board.java:79-101), when its draws suffice: every tile stays valid
   * and without an adult, and each species gains `numJuvenile` juveniles on the board for
   * each time it is listed.
   */
  lemma {:induction false} PlantAllOk(tiles: seq<Tile>, species: seq<JSpecies>, count: int, draws: seq<nat>)
    requires forall k :: 0 <= k < |tiles| ==> Seedling(tiles[k])
    requires PlantAll(tiles, species, count, draws).Some?
    ensures var ts := PlantAll(tiles, species, count, draws).value.0;
      && (forall k :: 0 <= k < |ts| ==> Seedling(ts[k]))
      && (forall id :: JuvenilesOf(ts, id) == JuvenilesOf(tiles, id) + Occurrences(species, id) * PA.Max(count, 0))
  {
    PlantAllCounts(tiles, species, count, draws);
    forall id {
      PlantedIsProduct(species, id, PA.Max(count, 0));
    }
  }

  lemma {:induction false} PlantAllCounts(tiles: seq<Tile>, species: seq<JSpecies>, count: int, draws: seq<nat>)
    requires forall k :: 0 <= k < |tiles| ==> Seedling(tiles[k])
    requires PlantAll(tiles, species, count, draws).Some?
    ensures var ts := PlantAll(tiles, species, count, draws).value.0;
      && (forall k :: 0 <= k < |ts| ==> Seedling(ts[k]))
      && (forall id :: JuvenilesOf(ts, id) == JuvenilesOf(tiles, id) + Planted(species, id, PA.Max(count, 0)))
  {
    if |species| > 0 {
      var pre := species[..|species| - 1];
      PlantAllCounts(tiles, pre, count, draws);
      var p := PlantAll(tiles, pre, count, draws).value;
      PlantSpeciesOk(p.0, species[|species| - 1], count, p.1);
    }
  }

  // ---------------------------------------------------------------------------------------
  // update

  /** Every neighbourhood list names tiles of the board. */
  predicate Linked(b: JBoard)
  {
    && |b.nndd| == |b.tiles|
    && forall ind, k :: 0 <= ind < |b.nndd| && 0 <= k < |b.nndd[ind]| ==> 0 <= b.nndd[ind][k] < |b.tiles|
  }

  /** The old maps of the tiles listed in `nb`, in list order. */
  function NeighbourMaps(tiles: seq<Tile>, nb: seq<int>): (r: seq<Dict<PA.Counts>>)
    requires forall k :: 0 <= k < |nb| ==> 0 <= nb[k] < |tiles|
    ensures |r| == |nb| && forall k :: 0 <= k < |nb| ==> r[k] == tiles[nb[k]].oldMap
  {
    seq(|nb|, k requires 0 <= k < |nb| => tiles[nb[k]].oldMap)
  }

  /** The random draws of one tick, per tile index: the survival draw of each plant, the
      pick among candidate adults, the total seed weight, and the species of each seed. */
  datatype Oracle = Oracle(
    draw: nat -> nat -> real,
    pick: nat -> nat,
    totalProb: nat -> real,
    species: nat -> nat -> JSpecies)

  /** The first phase for tile `ind` (Board.java:108-112): `updateExistingPlants` against
      its neighbourhood's old maps, then `addNewSeeds`. */
  function PhaseOne(b: JBoard, ind: nat, o: Oracle): (r: Option<Tile>)
    requires Linked(b) && ind < |b.tiles|
  {
    var nd := CountNeighborsNDD(NeighbourMaps(b.tiles, b.nndd[ind]));
    match UpdateExistingPlants(b.tiles[ind], nd.0, nd.1, o.draw(ind), o.pick(ind))
    case None => None
    case Some(u) => Some(AddNewSeeds(u, o.totalProb(ind), o.species(ind)))
  }

  /** Tile `ind` after both phases, or unchanged when its first phase throws. */
  function Swapped(b: JBoard, ind: nat, o: Oracle): Tile
    requires Linked(b) && ind < |b.tiles|
  {
    match PhaseOne(b, ind, o)
    case None => b.tiles[ind]
    case Some(t) => UpdateSelf(t)
  }

  /**
   * `update` (Board.java:104-128): the first phase of every tile, all against the same old
   * sides, and only then every tile's `updateSelf`. `None` when some tile's first phase
   * throws. The links are unchanged.
   */
  function Update(b: JBoard, o: Oracle): (r: Option<JBoard>)
    requires Linked(b)
    ensures r.Some? <==> forall ind :: 0 <= ind < |b.tiles| ==> PhaseOne(b, ind, o).Some?
    ensures r.Some? ==> r.value == b.(tiles := r.value.tiles) && |r.value.tiles| == |b.tiles|
    ensures r.Some? ==> forall ind :: 0 <= ind < |b.tiles| ==> r.value.tiles[ind] == UpdateSelf(PhaseOne(b, ind, o).value)
  {
    if forall ind :: 0 <= ind < |b.tiles| ==> PhaseOne(b, ind, o).Some? then
      Some(b.(tiles := seq(|b.tiles|, ind requires 0 <= ind < |b.tiles| => Swapped(b, ind, o))))
    else None
  }

  /** Two tiles with the same old side. */
  predicate SameOld(t: Tile, u: Tile)
  {
    t.oldPlants == u.oldPlants && t.oldMap == u.oldMap && t.oldAdult == u.oldAdult && t.oldAdultId == u.oldAdultId
  }

  /** The first phase writes only the tile's new side. */
  lemma PhaseOneWritesNewSide(b: JBoard, ind: nat, o: Oracle)
    requires Linked(b) && ind < |b.tiles| && PhaseOne(b, ind, o).Some?
    ensures SameOld(PhaseOne(b, ind, o).value, b.tiles[ind])
  {
  }

  /** The first phase of a tile reads only the old sides of the board, besides its own new
      side: boards that agree there give it the same result. */
  lemma PhaseOneReadsOldSides(b: JBoard, c: JBoard, ind: nat, o: Oracle)
    requires Linked(b) && ind < |b.tiles|
    requires c.nndd == b.nndd && |c.tiles| == |b.tiles|
    requires forall k :: 0 <= k < |b.tiles| ==> SameOld(c.tiles[k], b.tiles[k])
    requires c.tiles[ind] == b.tiles[ind]
    ensures Linked(c) && PhaseOne(c, ind, o) == PhaseOne(b, ind, o)
  {
    assert NeighbourMaps(c.tiles, c.nndd[ind]) == NeighbourMaps(b.tiles, b.nndd[ind]);
  }

  /**
   * The tiles' first phases may run in any order, or in parallel as the source runs them:
   * writing one tile's first-phase result into the board leaves every other tile's first
   * phase unchanged.
   */
  lemma PhaseOneInAnyOrder(b: JBoard, k: nat, ind: nat, o: Oracle)
    requires Linked(b) && k < |b.tiles| && ind < |b.tiles| && k != ind
    requires PhaseOne(b, k, o).Some?
    ensures var c := b.(tiles := b.tiles[k := PhaseOne(b, k, o).value]);
      Linked(c) && PhaseOne(c, ind, o) == PhaseOne(b, ind, o)
  {
    var c := b.(tiles := b.tiles[k := PhaseOne(b, k, o).value]);
    PhaseOneWritesNewSide(b, k, o);
    PhaseOneReadsOldSides(b, c, ind, o);
  }

  /** The board invariant: every tile valid, and every tile in its own neighbourhood. */
  ghost predicate BoardValid(b: JBoard)
  {
    && Linked(b)
    && (forall ind :: 0 <= ind < |b.tiles| ==> Valid(b.tiles[ind]))
    && (forall ind :: 0 <= ind < |b.tiles| ==> ind in b.nndd[ind])
  }

  /** A plant's species is a key of its tile's own old map. */
  lemma OwnSpeciesKeyed(t: Tile, p: nat)
    requires Valid(t) && p < |t.oldPlants|
    ensures exists i :: 0 <= i < |t.oldMap| && t.oldMap[i].0 == t.oldPlants[p].species.speciesId
  {
    var id := t.oldPlants[p].species.speciesId;
    CountOfPresent(t.oldPlants, p);
    assert PA.CacheAt(t.oldMap, id) == CountsOf(t.oldPlants, id);
    var i := PA.KeyIndex(t.oldMap, id);
  }

  /** On a valid board every plant's species is in its tile's neighbour map, so no update
      throws. */
  lemma CoveredOnValid(b: JBoard, ind: nat)
    requires BoardValid(b) && ind < |b.tiles|
    ensures Covered(CountNeighborsNDD(NeighbourMaps(b.tiles, b.nndd[ind])).0, b.tiles[ind].oldPlants)
  {
    var nb := b.nndd[ind];
    var maps := NeighbourMaps(b.tiles, nb);
    var nd := CountNeighborsNDD(maps).0;
    var t := b.tiles[ind];
    var self :| 0 <= self < |nb| && nb[self] == ind;
    forall p | 0 <= p < |t.oldPlants| ensures HasKey(nd, t.oldPlants[p].species.speciesId) {
      OwnSpeciesKeyed(t, p);
      var i :| 0 <= i < |t.oldMap| && t.oldMap[i].0 == t.oldPlants[p].species.speciesId;
      assert maps[self] == t.oldMap;
      assert HasKey(nd, maps[self][i].0);
    }
  }

  /** A tick keeps the board valid, and never throws on a valid board. */
  lemma UpdateValid(b: JBoard, o: Oracle)
    requires BoardValid(b)
    ensures Update(b, o).Some?
    ensures BoardValid(Update(b, o).value)
  {
    forall ind | 0 <= ind < |b.tiles|
      ensures PhaseOne(b, ind, o).Some? && Valid(UpdateSelf(PhaseOne(b, ind, o).value))
    {
      CoveredOnValid(b, ind);
      var nd := CountNeighborsNDD(NeighbourMaps(b.tiles, b.nndd[ind]));
      TickTileValid(b.tiles[ind], nd.0, nd.1, o.draw(ind), o.pick(ind), o.totalProb(ind), o.species(ind));
    }
  }

  /** Plants (adults and juveniles) of species `id` on the listed tiles. */
  function PlantsAround(tiles: seq<Tile>, nb: seq<int>, id: int): int
    requires forall k :: 0 <= k < |nb| ==> 0 <= nb[k] < |tiles|
  {
    if |nb| == 0 then 0
    else
      var t := tiles[nb[|nb| - 1]];
      PlantsAround(tiles, nb[..|nb| - 1], id) + CountOf(t.oldPlants, id, Adult) + CountOf(t.oldPlants, id, Juvenile)
  }

  lemma {:induction false} MapsTotalAround(tiles: seq<Tile>, nb: seq<int>, id: int)
    requires forall k :: 0 <= k < |nb| ==> 0 <= nb[k] < |tiles|
    requires forall k :: 0 <= k < |tiles| ==> Valid(tiles[k])
    ensures MapsTotal(NeighbourMaps(tiles, nb), id) == PlantsAround(tiles, nb, id)
  {
    if |nb| > 0 {
      var pre := nb[..|nb| - 1];
      MapsTotalAround(tiles, pre, id);
      assert NeighbourMaps(tiles, nb)[..|nb| - 1] == NeighbourMaps(tiles, pre);
      var t := tiles[nb[|nb| - 1]];
      PA.EntryTotalKeyed(t.oldMap, id);
      assert PA.CacheAt(t.oldMap, id) == CountsOf(t.oldPlants, id);
    }
  }

  /**
   * On a valid board the neighbour map of a tile (Tile.java:47-68) counts, for each species,
   * its plants on the tiles of the neighbourhood, the tile itself included; so a plant's
   * conspecific crowding is the number of other plants of its species there.
   */
  lemma NeighbourCountsArePlantCounts(b: JBoard, ind: nat, id: int)
    requires BoardValid(b) && ind < |b.tiles|
    ensures Get0(CountNeighborsNDD(NeighbourMaps(b.tiles, b.nndd[ind])).0, id) == PlantsAround(b.tiles, b.nndd[ind], id)
  {
    MapsTotalAround(b.tiles, b.nndd[ind], id);
  }

  /**
   * A new board (Board.java:20-102) with a non-negative neighbourhood radius is valid, and
   * holds `numJuvenile` juveniles of each listed species and nothing else.
   */
  lemma NewBoardValid(length: int, nNDD: int, distanceProbs: seq<real>, species: seq<JSpecies>,
                      numJuvenile: int, draws: seq<nat>)
    requires nNDD >= 0
    requires NewBoard(length, nNDD, distanceProbs, species, numJuvenile, draws).Some?
    ensures var b := NewBoard(length, nNDD, distanceProbs, species, numJuvenile, draws).value;
      && BoardValid(b)
      && (forall ind :: 0 <= ind < |b.tiles| ==> b.tiles[ind].oldAdult.None?)
      && (forall id :: JuvenilesOf(b.tiles, id) == Occurrences(species, id) * PA.Max(numJuvenile, 0))
  {
    var l := Layout(length, nNDD, distanceProbs);
    LayoutLinked(length, nNDD, distanceProbs);
    assert forall k :: 0 <= k < |l.tiles| ==> Seedling(l.tiles[k]);
    PlantAllOk(l.tiles, species, numJuvenile, draws);
    forall id ensures JuvenilesOf(l.tiles, id) == 0 {
      EmptyJuveniles(l.tiles, id);
    }
  }

  lemma {:induction false} EmptyJuveniles(tiles: seq<Tile>, id: int)
    requires forall k :: 0 <= k < |tiles| ==> tiles[k] == EmptyTile()
    ensures JuvenilesOf(tiles, id) == 0
  {
    if |tiles| > 0 {
      EmptyJuveniles(tiles[..|tiles| - 1], id);
    }
  }

  /** The layout links every tile to tiles of the board, itself among them. */
  lemma LayoutLinked(length: int, nNDD: int, distanceProbs: seq<real>)
    requires nNDD >= 0
    ensures var b := Layout(length, nNDD, distanceProbs);
      Linked(b) && forall ind :: 0 <= ind < |b.tiles| ==> ind in b.nndd[ind]
  {
    var b := Layout(length, nNDD, distanceProbs);
    forall ind | 0 <= ind < |b.tiles|
      ensures ind in b.nndd[ind] && forall k :: 0 <= k < |b.nndd[ind]| ==> 0 <= b.nndd[ind][k] < |b.tiles|
    {
      IndexOfCoords(length, ind);
      var c := Coords(length, ind);
      NddListMembers(length, nNDD, c.0, c.1, c.0, c.1);
      assert b.nndd[ind] == NddList(length, nNDD, Index(length, c.0, c.1));
      assert forall k :: 0 <= k < |b.nndd[ind]| ==> b.nndd[ind][k] in b.nndd[ind];
    }
  }
}
