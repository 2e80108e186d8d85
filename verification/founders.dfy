/**
 * Founder placement of `Board.__init__` (simulation_utils/board.py:84-103): a fresh board
 * of empty tiles whose staging board holds the founders of every species, to be merged in
 * by the first tick. In the adult-dispersal (boomer) model every species draws coordinates
 * until it has `startNumber` distinct ones and puts one Adult on each through `addAdult`;
 * otherwise every species drops `startNumber` Juveniles at drawn coordinates through
 * `addPlant`. The coordinate draws come from a `SeedOracle`.
 */
module Founders {
  import opened Options
  import opened Species
  import opened Plants
  import opened PlantArray
  import opened Board

  /** The coordinate draws of founder placement, by species index. */
  datatype SeedOracle = SeedOracle(
    spots: nat -> seq<(nat, nat)>,        // boomer: the successive draws for species i
    juvenile: (nat, nat) -> (nat, nat))   // otherwise: the draw for juvenile j of species i

  predicate Distinct<T(==)>(s: seq<T>)
  {
    forall a, b :: 0 <= a < b < |s| ==> s[a] != s[b]
  }

  // ---------------------------------------------------------------------------------------
  // Coordinates

  /** `randint(0, boardLength - 1)`, inclusive at both ends, applied to both coordinates: a
      raw draw reduced onto the board. */
  function Spot(n: int, d: (nat, nat)): (r: (int, int))
    requires 0 < n
    ensures OnBoard(n, r.0, r.1)
  {
    (d.0 % n, d.1 % n)
  }

  function Spots(n: int, ds: seq<(nat, nat)>): (r: seq<(int, int)>)
    requires 0 < n
    ensures |r| == |ds| && AllOnBoard(n, r)
    ensures forall k :: 0 <= k < |ds| ==> r[k] == Spot(n, ds[k])
  {
    seq(|ds|, k requires 0 <= k < |ds| => Spot(n, ds[k]))
  }

  /** Every cell can receive a founder: the draw (x, y) lands on (x, y). */
  lemma SpotReachesEveryCell(n: int, x: nat, y: nat)
    requires OnBoard(n, x, y)
    ensures Spot(n, (x, y)) == (x, y)
  {
  }

  /** The boomer branch as written: numpy's `randint(0, boardLength - 1)` excludes its upper
      bound, so a coordinate is reduced into 0 .. boardLength - 2, and numpy refuses the
      empty range of a board of side 1. */
  function SpotAsWritten(n: int, d: (nat, nat)): (r: (int, int))
    requires 1 < n
    ensures 0 <= r.0 < n - 1 && 0 <= r.1 < n - 1
  {
    (d.0 % (n - 1), d.1 % (n - 1))
  }

  function SpotsAsWritten(n: int, ds: seq<(nat, nat)>): (r: seq<(int, int)>)
    requires 1 < n
    ensures |r| == |ds|
    ensures forall k :: 0 <= k < |ds| ==> r[k] == SpotAsWritten(n, ds[k])
  {
    seq(|ds|, k requires 0 <= k < |ds| => SpotAsWritten(n, ds[k]))
  }

  // ---------------------------------------------------------------------------------------
  // The set of distinct coordinates (board.py:92-95)

  /** The elements of `s` that are not in `seen`, first occurrences only, in order. */
  function Nub<T(==)>(s: seq<T>, seen: seq<T>): (r: seq<T>)
    ensures forall c :: c in r ==> c in s && c !in seen
    ensures Distinct(r)
  {
    if |s| == 0 then []
    else if s[0] in seen then Nub(s[1..], seen)
    else
      var rest := Nub(s[1..], seen + [s[0]]);
      assert forall a :: 0 <= a < |rest| ==> rest[a] in rest;
      [s[0]] + rest
  }

  /**
   * The `while len(coords) < startNumber` loop over the draws `spots`, starting from the
   * coordinates `acc` already found: each draw not yet found is added, until `want` are
   * found. `None` when the draws run out first, where the source keeps drawing forever.
   */
  function Collect(spots: seq<(int, int)>, want: int, acc: seq<(int, int)>): (r: Option<seq<(int, int)>>)
    ensures r.Some? ==> |acc| <= |r.value|
    decreases |spots|
  {
    if |acc| >= want then Some(acc)
    else if |spots| == 0 then None
    else Collect(spots[1..], want, if spots[0] in acc then acc else acc + [spots[0]])
  }

  /** The loop succeeds exactly when the draws hold enough coordinates not yet found, and
      then adds the first of them in order of appearance. */
  lemma {:induction false} CollectIsNub(spots: seq<(int, int)>, want: int, acc: seq<(int, int)>)
    requires |acc| < want
    ensures Collect(spots, want, acc) ==
      if |Nub(spots, acc)| >= want - |acc| then Some(acc + Nub(spots, acc)[..want - |acc|]) else None
    decreases |spots|
  {
    if |spots| > 0 {
      var s0 := spots[0];
      if s0 in acc {
        CollectIsNub(spots[1..], want, acc);
      } else {
        var acc' := acc + [s0];
        var rest := Nub(spots[1..], acc');
        assert Nub(spots, acc) == [s0] + rest;
        if |acc'| < want {
          CollectIsNub(spots[1..], want, acc');
          if |rest| >= want - |acc'| {
            assert acc + ([s0] + rest)[..want - |acc|] == acc' + rest[..want - |acc'|];
          }
        } else {
          assert ([s0] + rest)[..want - |acc|] == [s0];
        }
      }
    }
  }

  /** Started from nothing, the loop yields exactly `want` distinct coordinates, all drawn. */
  lemma CollectDistinct(spots: seq<(int, int)>, want: int)
    requires Collect(spots, want, []).Some?
    ensures var cs := Collect(spots, want, []).value;
      |cs| == (if want > 0 then want else 0) && Distinct(cs) && forall c :: c in cs ==> c in spots
  {
    if want > 0 {
      CollectIsNub(spots, want, []);
      var nb := Nub(spots, []);
      var cs := nb[..want];
      assert Collect(spots, want, []).value == cs;
      forall c | c in cs ensures c in spots {
        assert c in nb;
      }
    }
  }

  // ---------------------------------------------------------------------------------------
  // Placement

  /** Give every coordinate of `cs` one more adult `p` through addAdult. */
  function PlaceAdults(g: Grid<PlantArray>, n: int, limit: int, cs: seq<(int, int)>, p: Plant): (r: Grid<PlantArray>)
    requires Limits(g, n, limit) && AllOnBoard(n, cs)
    ensures Limits(r, n, limit)
    decreases |cs|
  {
    if |cs| == 0 then g
    else
      var h := PlaceAdults(g, n, limit, cs[..|cs| - 1], p);
      var c := cs[|cs| - 1];
      h[c.0 := h[c.0][c.1 := AddAdult(h[c.0][c.1], p)]]
  }

  /** With distinct coordinates, each listed cell receives the adult once through addAdult
      and every other cell is untouched. */
  lemma {:induction false} PlaceAdultsEach(g: Grid<PlantArray>, n: int, limit: int, cs: seq<(int, int)>, p: Plant)
    requires Limits(g, n, limit) && AllOnBoard(n, cs) && Distinct(cs)
    ensures forall x, y :: OnBoard(n, x, y) ==>
      PlaceAdults(g, n, limit, cs, p)[x][y] == if (x, y) in cs then AddAdult(g[x][y], p) else g[x][y]
    decreases |cs|
  {
    if |cs| > 0 {
      var pre := cs[..|cs| - 1];
      var c := cs[|cs| - 1];
      PlaceAdultsEach(g, n, limit, pre, p);
      assert c !in pre by {
        forall a | 0 <= a < |pre| ensures pre[a] != c {
          assert cs[a] != cs[|cs| - 1];
        }
      }
      assert cs == pre + [c];
      forall x, y | OnBoard(n, x, y)
        ensures PlaceAdults(g, n, limit, cs, p)[x][y] == if (x, y) in cs then AddAdult(g[x][y], p) else g[x][y]
      {
        assert (x, y) in cs <==> (x, y) in pre || (x, y) == c;
      }
    }
  }

  /** The number of the first `m` juveniles of species index `i` whose draw lands on (x, y). */
  function Hits(n: int, i: nat, m: nat, o: SeedOracle, x: int, y: int): nat
    requires 0 < n
  {
    if m == 0 then 0
    else
      var c := Spot(n, o.juvenile(i, m - 1));
      Hits(n, i, m - 1, o, x, y) + (if c.0 == x && c.1 == y then 1 else 0)
  }

  /** Drop the first `m` juveniles `p` of species index `i` at their drawn cells through
      addPlant. */
  function PlaceJuveniles(g: Grid<PlantArray>, n: int, limit: int, i: nat, m: nat, p: Plant, o: SeedOracle): (r: Grid<PlantArray>)
    requires Limits(g, n, limit) && 0 < n && 0 < limit && p.stage == Juvenile
    ensures Limits(r, n, limit)
  {
    if m == 0 then g
    else
      var c := Spot(n, o.juvenile(i, m - 1));
      Place(PlaceJuveniles(g, n, limit, i, m - 1, p, o), n, limit, c.0, c.1, p, 0)
  }

  /** A cell gains one juvenile per draw landing on it, until it is full; it gains nothing
      else and keeps its resident. */
  lemma JuvenilesLand(g: Grid<PlantArray>, n: int, limit: int, i: nat, m: nat, p: Plant, o: SeedOracle, x: int, y: int)
    requires Limits(g, n, limit) && 0 < n && 0 < limit && p.stage == Juvenile
    requires OnBoard(n, x, y) && |g[x][y].storage| <= limit
    ensures var a := PlaceJuveniles(g, n, limit, i, m, p, o)[x][y];
      && |a.storage| == Min(limit, |g[x][y].storage| + Hits(n, i, m, o, x, y))
      && a.resident == g[x][y].resident
      && (forall q :: q in a.storage ==> q in g[x][y].storage || q == p)
  {
    JuvenilesAt(g, n, limit, i, m, p, o, x, y);
    Lands(g[x][y], p, Hits(n, i, m, o, x, y));
  }

  /** `k` juveniles `p` offered to one cell through addPlant. */
  function LandOn(a: PlantArray, p: Plant, k: nat): PlantArray
    requires p.stage == Juvenile
  {
    if k == 0 then a else AddPlant(LandOn(a, p, k - 1), p, 0)
  }

  /** The cell (x, y) after the drops is its old array with its hits offered to it. */
  lemma {:induction false} JuvenilesAt(g: Grid<PlantArray>, n: int, limit: int, i: nat, m: nat, p: Plant, o: SeedOracle, x: int, y: int)
    requires Limits(g, n, limit) && 0 < n && 0 < limit && p.stage == Juvenile
    requires OnBoard(n, x, y)
    ensures PlaceJuveniles(g, n, limit, i, m, p, o)[x][y] == LandOn(g[x][y], p, Hits(n, i, m, o, x, y))
  {
    if m == 0 {
      assert LandOn(g[x][y], p, 0) == g[x][y];
    } else {
      JuvenilesAt(g, n, limit, i, m - 1, p, o, x, y);
      JuvenileDrop(g, n, limit, i, m, p, o, x, y);
    }
  }

  /** The m-th drop extends the landings on (x, y) by one exactly when it hits (x, y). */
  lemma JuvenileDrop(g: Grid<PlantArray>, n: int, limit: int, i: nat, m: nat, p: Plant, o: SeedOracle, x: int, y: int)
    requires Limits(g, n, limit) && 0 < n && 0 < limit && p.stage == Juvenile
    requires OnBoard(n, x, y) && m > 0
    requires PlaceJuveniles(g, n, limit, i, m - 1, p, o)[x][y] == LandOn(g[x][y], p, Hits(n, i, m - 1, o, x, y))
    ensures PlaceJuveniles(g, n, limit, i, m, p, o)[x][y] == LandOn(g[x][y], p, Hits(n, i, m, o, x, y))
  {
    var h := PlaceJuveniles(g, n, limit, i, m - 1, p, o);
    var c := Spot(n, o.juvenile(i, m - 1));
    var k := Hits(n, i, m - 1, o, x, y);
    PlaceAt(h, n, limit, c.0, c.1, p, 0, x, y);
    assert PlaceJuveniles(g, n, limit, i, m, p, o) == Place(h, n, limit, c.0, c.1, p, 0);
    if c.0 == x && c.1 == y {
      assert Hits(n, i, m, o, x, y) == k + 1;
      LandOnStep(g[x][y], p, k);
    } else {
      assert Hits(n, i, m, o, x, y) == k;
    }
  }

  lemma LandOnStep(a: PlantArray, p: Plant, k: nat)
    requires p.stage == Juvenile
    ensures LandOn(a, p, k + 1) == AddPlant(LandOn(a, p, k), p, 0)
  {
  }

  /** Each offered juvenile joins until the cell is full; the resident stays. */
  lemma {:induction false} Lands(a: PlantArray, p: Plant, k: nat)
    requires p.stage == Juvenile && |a.storage| <= a.limit
    ensures var r := LandOn(a, p, k);
      && |r.storage| == Min(a.limit, |a.storage| + k) && r.resident == a.resident && r.limit == a.limit
      && (forall q :: q in r.storage ==> q in a.storage || q == p)
  {
    if k > 0 {
      Lands(a, p, k - 1);
      JuvenileJoins(LandOn(a, p, k - 1), p);
    }
  }

  /** addPlant of a juvenile: one more occupant unless full, resident unchanged. */
  lemma JuvenileJoins(a: PlantArray, p: Plant)
    requires p.stage == Juvenile && |a.storage| <= a.limit
    ensures var r := AddPlant(a, p, 0);
      && |r.storage| == Min(a.limit, |a.storage| + 1) && r.resident == a.resident
      && forall q :: q in r.storage ==> q in a.storage || q == p
  {
  }

  // ---------------------------------------------------------------------------------------
  // Board.__init__

  /** The founders of species `sp` (index `i`) added to the staging grid `g`; `None` when
      the boomer draws run out before `start` distinct coordinates are found. */
  function SeedSpecies(g: Grid<PlantArray>, n: int, limit: int, start: int, boomer: bool, i: nat, sp: Species, o: SeedOracle): (r: Option<Grid<PlantArray>>)
    requires Limits(g, n, limit) && 0 < n && 0 < limit
    ensures r.Some? ==> Limits(r.value, n, limit)
    ensures r.Some? && StagingGrid(g, n, limit, boomer) ==> StagingGrid(r.value, n, limit, boomer)
    ensures !boomer ==> r.Some?
  {
    if boomer then
      match Collect(Spots(n, o.spots(i)), start, [])
      case None => None
      case Some(cs) =>
        assert AllOnBoard(n, cs) by {
          if start > 0 {
            CollectDistinct(Spots(n, o.spots(i)), start);
            assert forall k :: 0 <= k < |cs| ==> cs[k] in cs;
          }
        }
        PlaceAdultsOk(g, n, limit, cs, Plant(sp, 0, Adult), boomer);
        Some(PlaceAdults(g, n, limit, cs, Plant(sp, 0, Adult)))
    else
      PlaceJuvenilesOk(g, n, limit, i, if start > 0 then start else 0, Plant(sp, 0, Juvenile), o);
      Some(PlaceJuveniles(g, n, limit, i, if start > 0 then start else 0, Plant(sp, 0, Juvenile), o))
  }

  /** The founders of the first `m` species. */
  function SeedAll(g: Grid<PlantArray>, n: int, limit: int, start: int, boomer: bool, sps: seq<Species>, m: nat, o: SeedOracle): (r: Option<Grid<PlantArray>>)
    requires Limits(g, n, limit) && 0 < n && 0 < limit && m <= |sps|
    ensures r.Some? ==> Limits(r.value, n, limit)
    ensures r.Some? && StagingGrid(g, n, limit, boomer) ==> StagingGrid(r.value, n, limit, boomer)
    ensures !boomer ==> r.Some?
  {
    if m == 0 then Some(g)
    else
      match SeedAll(g, n, limit, start, boomer, sps, m - 1, o)
      case None => None
      case Some(h) => SeedSpecies(h, n, limit, start, boomer, m - 1, sps[m - 1], o)
  }

  function EmptyTiles(n: int, limit: int): (r: Grid<Tile>)
    requires 0 <= n
    ensures Square(r, n) && forall x, y :: OnBoard(n, x, y) ==> r[x][y] == Tile([], Empty(limit))
  {
    seq(n, _ => seq(n, _ => Tile([], Empty(limit))))
  }

  /**
   * `Board.__init__`: time 0, empty tiles, and the founders of every species on the staging
   * board. A positive side and capacity are the configuration's requirements. `None` only in
   * the boomer model, when the draws run out.
   */
  function Init(sps: seq<Species>, n: int, limit: int, start: int, boomer: bool, o: SeedOracle): (r: Option<Board>)
    requires 0 < n && 0 < limit
    ensures !boomer ==> r.Some?
    ensures r.Some? ==>
      && r.value.time == 0 && r.value.length == n && r.value.limit == limit && r.value.boomer == boomer
      && Square(r.value.tiles, n)
      && forall x, y :: OnBoard(n, x, y) ==> r.value.tiles[x][y] == Tile([], Empty(limit))
  {
    match SeedAll(EmptyGrid(n, limit), n, limit, start, boomer, sps, |sps|, o)
    case None => None
    case Some(g) => Some(Board(n, 0, limit, boomer, EmptyTiles(n, limit), g))
  }

  // ---------------------------------------------------------------------------------------
  // Properties

  /** In the boomer model a species' founders occupy exactly `start` distinct coordinates,
      each of which receives one adult of age 0 through addAdult; no other cell changes. */
  lemma BoomerFounders(g: Grid<PlantArray>, n: int, limit: int, start: int, i: nat, sp: Species, o: SeedOracle)
    requires Limits(g, n, limit) && 0 < n && 0 < limit
    requires SeedSpecies(g, n, limit, start, true, i, sp, o).Some?
    ensures var r := SeedSpecies(g, n, limit, start, true, i, sp, o).value;
      exists cs: seq<(int, int)> ::
        && |cs| == (if start > 0 then start else 0) && Distinct(cs) && AllOnBoard(n, cs)
        && forall x, y :: OnBoard(n, x, y) ==>
             r[x][y] == if (x, y) in cs then AddAdult(g[x][y], Plant(sp, 0, Adult)) else g[x][y]
  {
    var spots := Spots(n, o.spots(i));
    var cs := Collect(spots, start, []).value;
    CollectDistinct(spots, start);
    assert forall k :: 0 <= k < |cs| ==> cs[k] in cs;
    PlaceAdultsEach(g, n, limit, cs, Plant(sp, 0, Adult));
  }

  /** Outside the boomer model a species drops `start` juveniles of age 0: each cell gains one
      per draw landing on it until full, and nothing else. */
  lemma JuvenileFounders(g: Grid<PlantArray>, n: int, limit: int, start: nat, i: nat, sp: Species, o: SeedOracle)
    requires Limits(g, n, limit) && 0 < n && 0 < limit
    ensures var r := SeedSpecies(g, n, limit, start, false, i, sp, o).value;
      forall x, y :: OnBoard(n, x, y) && |g[x][y].storage| <= limit ==>
        && |r[x][y].storage| == Min(limit, |g[x][y].storage| + Hits(n, i, start, o, x, y))
        && r[x][y].resident == g[x][y].resident
        && (forall q :: q in r[x][y].storage ==> q in g[x][y].storage || q == Plant(sp, 0, Juvenile))
  {
    forall x, y | OnBoard(n, x, y) && |g[x][y].storage| <= limit
      ensures var a := SeedSpecies(g, n, limit, start, false, i, sp, o).value[x][y];
        && |a.storage| == Min(limit, |g[x][y].storage| + Hits(n, i, start, o, x, y))
        && a.resident == g[x][y].resident
        && (forall q :: q in a.storage ==> q in g[x][y].storage || q == Plant(sp, 0, Juvenile))
    {
      JuvenilesLand(g, n, limit, i, start, Plant(sp, 0, Juvenile), o, x, y);
    }
  }

  lemma {:induction false} PlaceAdultsOk(g: Grid<PlantArray>, n: int, limit: int, cs: seq<(int, int)>, p: Plant, boomer: bool)
    requires Limits(g, n, limit) && AllOnBoard(n, cs) && p.stage == Adult
    ensures StagingGrid(g, n, limit, boomer) ==> StagingGrid(PlaceAdults(g, n, limit, cs, p), n, limit, boomer)
    decreases |cs|
  {
    if |cs| > 0 && StagingGrid(g, n, limit, boomer) {
      var h := PlaceAdults(g, n, limit, cs[..|cs| - 1], p);
      PlaceAdultsOk(g, n, limit, cs[..|cs| - 1], p, boomer);
      var c := cs[|cs| - 1];
      var s := AddAdult(h[c.0][c.1], p);
      assert StagingOk(s, limit, boomer);
    }
  }

  lemma {:induction false} PlaceJuvenilesOk(g: Grid<PlantArray>, n: int, limit: int, i: nat, m: nat, p: Plant, o: SeedOracle)
    requires Limits(g, n, limit) && 0 < n && 0 < limit && p.stage == Juvenile
    ensures StagingGrid(g, n, limit, false) ==> StagingGrid(PlaceJuveniles(g, n, limit, i, m, p, o), n, limit, false)
  {
    if m > 0 && StagingGrid(g, n, limit, false) {
      PlaceJuvenilesOk(g, n, limit, i, m - 1, p, o);
      var c := Spot(n, o.juvenile(i, m - 1));
      PlaceOk(PlaceJuveniles(g, n, limit, i, m - 1, p, o), n, limit, c.0, c.1, p, 0, false);
    }
  }

  /** A freshly built board satisfies the board invariant, so the ticks that follow keep it. */
  lemma InitValid(sps: seq<Species>, n: int, limit: int, start: int, boomer: bool, o: SeedOracle)
    requires 0 < n && 0 < limit
    ensures var r := Init(sps, n, limit, start, boomer, o);
      r.Some? ==> BoardValid(r.value)
  {
    var g := EmptyGrid(n, limit);
    assert StagingGrid(g, n, limit, boomer) by {
      forall x, y | OnBoard(n, x, y) ensures StagingOk(g[x][y], limit, boomer) {
      }
    }
    EmptyValid(limit);
  }

  // ---------------------------------------------------------------------------------------
  // The excluded last row and column (board.py:94-95)

  /** As written, no founder ever lands in the last row or column. */
  lemma AsWrittenMissesLastLine(n: int, ds: seq<(nat, nat)>)
    requires 1 < n
    ensures forall k :: 0 <= k < |ds| ==> SpotsAsWritten(n, ds)[k].0 != n - 1 && SpotsAsWritten(n, ds)[k].1 != n - 1
  {
  }

  lemma {:induction false} NubOfOne(s: seq<(int, int)>, seen: seq<(int, int)>, c: (int, int))
    requires forall k :: 0 <= k < |s| ==> s[k] == c
    ensures |Nub(s, seen)| <= 1
    ensures c in seen ==> |Nub(s, seen)| == 0
    decreases |s|
  {
    if |s| > 0 {
      NubOfOne(s[1..], if s[0] in seen then seen else seen + [s[0]], c);
    }
  }

  /** As written, on a board of side 2 every draw is (0, 0), so a boomer species asking for
      two founders never gets them: whatever the draws, the loop does not end. */
  lemma AsWrittenFoundersStall(ds: seq<(nat, nat)>)
    ensures Collect(SpotsAsWritten(2, ds), 2, []) == None
  {
    var s := SpotsAsWritten(2, ds);
    NubOfOne(s, [], (0, 0));
    CollectIsNub(s, 2, []);
  }

  /** With the inclusive range, the draws (0, 0) and (1, 1) give the two founders. */
  lemma CorrectedFoundersFinish()
    ensures Collect(Spots(2, [(0, 0), (1, 1)]), 2, []) == Some([(0, 0), (1, 1)])
  {
    var s := Spots(2, [(0, 0), (1, 1)]);
    var none: seq<(int, int)> := [];
    assert s == [(0, 0), (1, 1)];
    assert Collect(s, 2, none) == Collect(s[1..], 2, none + [s[0]]);
    assert none + [s[0]] == [(0, 0)];
    assert s[1..] == [(1, 1)];
    assert Collect([(1, 1)], 2, [(0, 0)]) == Collect([], 2, [(0, 0)] + [(1, 1)]);
    assert [(0, 0)] + [(1, 1)] == [(0, 0), (1, 1)];
  }
}
