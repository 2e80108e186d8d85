/**
 * One cell of the Java board (BaseInitAdult/Tile.java). A tile keeps two copies of its state:
 * the `old` side, which every tile reads during a tick, and the `new` side, which only the
 * tile itself writes; `updateSelf` promotes the new side once every tile has been updated.
 *
 * A species-keyed `HashMap<Species, Pair<Integer, Integer>>` becomes an insertion-ordered
 * dictionary keyed by species id holding (adults, juveniles). The Java map hashes Species by
 * identity and the program shares one Species object per id, so keys by id are the same keys.
 * The special `DUMMY` entry of the neighbour map is kept apart, as the second component of
 * the pair returned by `CountNeighborsNDD`.
 */
module JTile {
  import opened Options
  import opened Dicts
  import opened JPlants
  import PA = PlantArray

  /** The fixed capacity of a tile's plant list (Tile.java:191). */
  const Capacity: int := 50

  datatype Tile = Tile(
    oldPlants: seq<JPlant>,
    newPlants: seq<JPlant>,
    oldAdultId: int,
    newAdultId: int,
    oldAdult: Option<JPlant>,
    newAdult: Option<JPlant>,
    oldMap: Dict<PA.Counts>,
    newMap: Dict<PA.Counts>)

  /** The species id of an optional adult, -1 for none. */
  function IdOf(a: Option<JPlant>): int
  {
    match a
    case None => -1
    case Some(p) => p.species.speciesId
  }

  /** The tile as the constructor leaves it (Tile.java:26-40). */
  function EmptyTile(): Tile
  {
    Tile([], [], -1, -1, None, None, [], [])
  }

  // ---------------------------------------------------------------------------------------
  // Recounting a plant list

  /** Number of plants in `s` of species `id` at stage `st`. */
  function CountOf(s: seq<JPlant>, id: int, st: JStage): nat
  {
    if |s| == 0 then 0
    else CountOf(s[..|s| - 1], id, st) + (if s[|s| - 1].species.speciesId == id && s[|s| - 1].stage == st then 1 else 0)
  }

  /** Number of plants in `s` at stage `st`. */
  function CountStage(s: seq<JPlant>, st: JStage): nat
  {
    if |s| == 0 then 0
    else CountStage(s[..|s| - 1], st) + (if s[|s| - 1].stage == st then 1 else 0)
  }

  lemma CountAppend(s: seq<JPlant>, p: JPlant)
    ensures forall id, st :: CountOf(s + [p], id, st) == CountOf(s, id, st) + (if p.species.speciesId == id && p.stage == st then 1 else 0)
    ensures forall st :: CountStage(s + [p], st) == CountStage(s, st) + (if p.stage == st then 1 else 0)
  {
    assert (s + [p])[..|s|] == s;
  }

  lemma {:induction false} CountStageZero(s: seq<JPlant>, st: JStage)
    ensures CountStage(s, st) == 0 <==> forall k :: 0 <= k < |s| ==> s[k].stage != st
  {
    if |s| > 0 {
      CountStageZero(s[..|s| - 1], st);
    }
  }

  lemma {:induction false} CountStagePresent(s: seq<JPlant>, i: nat)
    requires i < |s|
    ensures CountStage(s, s[i].stage) > 0
  {
    if i < |s| - 1 {
      CountStagePresent(s[..|s| - 1], i);
    }
  }

  /** The only plant at a stage counted once is the one found there. */
  lemma {:induction false} CountStageOne(s: seq<JPlant>, st: JStage, i: nat)
    requires i < |s| && s[i].stage == st
    requires CountStage(s, st) == 1
    ensures forall k :: 0 <= k < |s| && k != i ==> s[k].stage != st
  {
    var n := |s|;
    var pre := s[..n - 1];
    assert forall k :: 0 <= k < n - 1 ==> s[k] == pre[k];
    if i == n - 1 {
      CountStageZero(pre, st);
    } else {
      CountStagePresent(pre, i);
      CountStageOne(pre, st, i);
    }
  }

  /** Plants of one species at one stage are among the plants at that stage. */
  lemma {:induction false} CountOfBelowStage(s: seq<JPlant>, id: int, st: JStage)
    ensures CountOf(s, id, st) <= CountStage(s, st)
  {
    if |s| > 0 {
      CountOfBelowStage(s[..|s| - 1], id, st);
    }
  }

  lemma {:induction false} CountOfPresent(s: seq<JPlant>, i: nat)
    requires i < |s|
    ensures CountOf(s, s[i].species.speciesId, s[i].stage) > 0
  {
    if i < |s| - 1 {
      CountOfPresent(s[..|s| - 1], i);
    }
  }

  /** A recount of `s`: (adults, juveniles) of species `id`. */
  function CountsOf(s: seq<JPlant>, id: int): PA.Counts
  {
    PA.Counts(CountOf(s, id, Adult), CountOf(s, id, Juvenile))
  }

  /** The map agrees with a recount of the plant list, species by species. */
  ghost predicate MapMatches(m: Dict<PA.Counts>, s: seq<JPlant>)
  {
    forall id :: PA.CacheAt(m, id) == CountsOf(s, id)
  }

  // ---------------------------------------------------------------------------------------
  // The invariant of a tile between ticks

  /** The adult field names the only Adult of the list, if any. */
  predicate AdultOk(s: seq<JPlant>, a: Option<JPlant>)
  {
    match a
    case None => CountStage(s, Adult) == 0
    case Some(p) => p.stage == Adult && p in s && CountStage(s, Adult) == 1
  }

  /** The old side holds at most 50 plants, the neighbour map recounts them, and the adult
      fields name the single adult; the new side is as `updateSelf` leaves it. */
  ghost predicate Valid(t: Tile)
  {
    && |t.oldPlants| <= Capacity
    && MapMatches(t.oldMap, t.oldPlants) && Keyed(t.oldMap)
    && AdultOk(t.oldPlants, t.oldAdult) && t.oldAdultId == IdOf(t.oldAdult)
    && t.newPlants == [] && t.newMap == [] && t.newAdult == None && t.newAdultId == -1
  }

  lemma EmptyTileValid()
    ensures Valid(EmptyTile())
  {
  }

  // ---------------------------------------------------------------------------------------
  // countNeighborsNDD

  /** Fold the entries of one neighbour's map into the running map and total. */
  function Absorb(c: Dict<PA.Counts>, acc: (Dict<int>, int)): (r: (Dict<int>, int))
    ensures r.1 - Sum(r.0) == acc.1 - Sum(acc.0)
    ensures forall k :: Get0(r.0, k) == Get0(acc.0, k) + PA.EntryTotal(c, k)
    ensures forall k :: HasKey(acc.0, k) ==> HasKey(r.0, k)
    ensures forall i :: 0 <= i < |c| ==> HasKey(r.0, c[i].0)
  {
    if |c| == 0 then acc
    else
      var last := c[|c| - 1];
      var p := Absorb(c[..|c| - 1], acc);
      var sum := last.1.adults + last.1.juveniles;
      assert forall i :: 0 <= i < |c| - 1 ==> c[i] == c[..|c| - 1][i];
      (AddTo(p.0, last.0, sum), p.1 + sum)
  }

  /** The number of plants of species `k` on all the given maps. */
  function MapsTotal(maps: seq<Dict<PA.Counts>>, k: int): int
  {
    if |maps| == 0 then 0 else MapsTotal(maps[..|maps| - 1], k) + PA.EntryTotal(maps[|maps| - 1], k)
  }

  /**
   * `countNeighborsNDD` (Tile.java:47-68) over the old maps of the tiles in the neighbourhood
   * list, in list order: every species gets the number of its plants on those tiles, and the
   * `DUMMY` total (second component) is the sum of all the species entries.
   */
  function CountNeighborsNDD(maps: seq<Dict<PA.Counts>>): (r: (Dict<int>, int))
    ensures r.1 == Sum(r.0)
    ensures forall k :: Get0(r.0, k) == MapsTotal(maps, k)
    ensures forall n, i :: 0 <= n < |maps| && 0 <= i < |maps[n]| ==> HasKey(r.0, maps[n][i].0)
  {
    if |maps| == 0 then ([], 0)
    else
      var p := CountNeighborsNDD(maps[..|maps| - 1]);
      assert forall n :: 0 <= n < |maps| - 1 ==> maps[n] == maps[..|maps| - 1][n];
      Absorb(maps[|maps| - 1], p)
  }

  /**
   * The crowding of one plant (Tile.java:136-137): its species' entry less the plant itself,
   * and everything else in the neighbourhood, again less the plant itself. Unboxing the
   * entry of a species missing from the map throws, here `None`.
   */
  function Crowding(nd: Dict<int>, total: int, id: int): (r: Option<(int, int)>)
    ensures r.Some? <==> HasKey(nd, id)
    ensures r.Some? ==> r.value.0 == Get0(nd, id) - 1
    ensures r.Some? ==> r.value.0 + r.value.1 == total - 1
  {
    if HasKey(nd, id) then
      var con := Get0(nd, id) - 1;
      Some((con, total - con - 1))
    else None
  }

  /** The Python tile counts the plant itself among its heterospecific neighbours: on the
      same neighbour map the Java count is one less, while the conspecific counts agree. */
  lemma JavaHetExcludesSelf(nd: Dict<int>, id: int)
    requires HasKey(nd, id)
    ensures Crowding(nd, Sum(nd), id).value.0 == PA.NeighbourCounts(nd, id).0
    ensures Crowding(nd, Sum(nd), id).value.1 + 1 == PA.NeighbourCounts(nd, id).1
  {
  }

  // ---------------------------------------------------------------------------------------
  // updateExistingPlants

  /** The new side is empty, as `updateSelf` and the constructor leave it. */
  predicate FreshNew(t: Tile)
  {
    t.newPlants == [] && t.newMap == [] && t.newAdult == None && t.newAdultId == -1
  }

  /** Every plant's species has an entry in the neighbour map. */
  predicate Covered(nd: Dict<int>, s: seq<JPlant>)
  {
    forall k :: 0 <= k < |s| ==> HasKey(nd, s[k].species.speciesId)
  }

  /** Plant `k` after its update, with `draw(k)` as its `Math.random()` draw. */
  function Result(s: seq<JPlant>, k: nat, nd: Dict<int>, total: int, draw: nat -> real): Option<JPlant>
    requires k < |s| && Covered(nd, s)
  {
    var c := Crowding(nd, total, s[k].species.speciesId).value;
    JPlants.Update(s[k], c.0, c.1, draw(k))
  }

  /** Plant `k` survives its update as an Adult. */
  predicate Promoted(s: seq<JPlant>, k: nat, nd: Dict<int>, total: int, draw: nat -> real)
    requires k < |s| && Covered(nd, s)
  {
    var r := Result(s, k, nd, total, draw);
    r.Some? && r.value.stage == Adult
  }

  /** The state of the loop over the old plants: the new plant list and map written so far,
      the candidate adults, whether the old adult has survived, and the new adult fields. */
  datatype Pass = Pass(
    plants: seq<JPlant>,
    counts: Dict<PA.Counts>,
    potential: seq<JPlant>,
    existing: bool,
    adult: Option<JPlant>,
    adultId: int)

  /**
   * One iteration of the loop (Tile.java:135-163). A dead plant is skipped; a surviving
   * juvenile is written with its map entry; an adult joins the candidates while no old adult
   * has been seen to survive. The reference test `newPlant == this.oldAdult` holds exactly for
   * the old adult itself, since `Adult.update` returns its receiver and a promotion builds a
   * new object.
   */
  function Visit(acc: Pass, before: JPlant, after: Option<JPlant>, oldAdult: Option<JPlant>): Pass
  {
    match after
    case None => acc
    case Some(np) =>
      if np.stage == Adult then
        var potential := if !acc.existing then acc.potential + [np] else acc.potential;
        if before.stage == Adult && Some(before) == oldAdult then
          Pass(acc.plants, acc.counts, potential, true, Some(np), np.species.speciesId)
        else acc.(potential := potential)
      else acc.(plants := acc.plants + [np], counts := PA.BumpJuvenile(acc.counts, np.species.speciesId))
  }

  /** The loop state after the first `n` old plants. */
  function PassUpTo(t: Tile, n: nat, nd: Dict<int>, total: int, draw: nat -> real): Pass
    requires n <= |t.oldPlants| && Covered(nd, t.oldPlants)
  {
    if n == 0 then Pass(t.newPlants, t.newMap, [], false, t.newAdult, t.newAdultId)
    else Visit(PassUpTo(t, n - 1, nd, total, draw), t.oldPlants[n - 1], Result(t.oldPlants, n - 1, nd, total, draw), t.oldAdult)
  }

  /** After the loop (Tile.java:166-187): without a surviving old adult one candidate is
      drawn, and the adult, if any, is written last with adult count 1. */
  function Finish(t: Tile, p: Pass, pick: nat): Tile
  {
    var elect := !p.existing && |p.potential| != 0;
    var adult := if elect then Some(p.potential[pick % |p.potential|]) else p.adult;
    var adultId := if elect then adult.value.species.speciesId else p.adultId;
    match adult
    case None => t.(newPlants := p.plants, newMap := p.counts, newAdult := None, newAdultId := adultId)
    case Some(a) =>
      t.(newPlants := p.plants + [a], newMap := PA.SetAdult(p.counts, a.species.speciesId),
         newAdult := adult, newAdultId := adultId)
  }

  /**
   * `updateExistingPlants` (Tile.java:124-188) given the tile's neighbour map `nd` and its
   * total: `None` when a plant's species is missing from the map, where the source throws.
   * Only the new side is written.
   */
  function UpdateExistingPlants(t: Tile, nd: Dict<int>, total: int, draw: nat -> real, pick: nat): (r: Option<Tile>)
    ensures r.Some? <==> Covered(nd, t.oldPlants)
    ensures r.Some? ==> && r.value.oldPlants == t.oldPlants && r.value.oldMap == t.oldMap
                        && r.value.oldAdult == t.oldAdult && r.value.oldAdultId == t.oldAdultId
  {
    if Covered(nd, t.oldPlants) then Some(Finish(t, PassUpTo(t, |t.oldPlants|, nd, total, draw), pick)) else None
  }

  lemma MapAppendJuvenile(c: Dict<PA.Counts>, s: seq<JPlant>, p: JPlant)
    requires MapMatches(c, s) && Keyed(c) && p.stage == Juvenile
    ensures MapMatches(PA.BumpJuvenile(c, p.species.speciesId), s + [p])
    ensures Keyed(PA.BumpJuvenile(c, p.species.speciesId))
  {
    var id := p.species.speciesId;
    CountAppend(s, p);
    PA.CacheAtPut(c, id, PA.Counts(PA.CacheAt(c, id).adults, PA.CacheAt(c, id).juveniles + 1));
    PutKeyed(c, id, PA.Counts(PA.CacheAt(c, id).adults, PA.CacheAt(c, id).juveniles + 1));
  }

  lemma MapAppendAdult(c: Dict<PA.Counts>, s: seq<JPlant>, p: JPlant)
    requires MapMatches(c, s) && Keyed(c) && p.stage == Adult
    requires forall k :: 0 <= k < |s| ==> s[k].stage == Juvenile
    ensures MapMatches(PA.SetAdult(c, p.species.speciesId), s + [p])
    ensures Keyed(PA.SetAdult(c, p.species.speciesId))
  {
    var id := p.species.speciesId;
    CountAppend(s, p);
    CountStageZero(s, Adult);
    CountOfBelowStage(s, id, Adult);
    PA.CacheAtPut(c, id, PA.Counts(1, PA.CacheAt(c, id).juveniles));
    PutKeyed(c, id, PA.Counts(1, PA.CacheAt(c, id).juveniles));
  }

  /** The loop writes only juveniles, keeps the map in step with them, collects only adults,
      and writes no more plants than it has visited. */
  ghost predicate PassOk(p: Pass, n: nat)
  {
    && (forall k :: 0 <= k < |p.plants| ==> p.plants[k].stage == Juvenile)
    && (forall k :: 0 <= k < |p.potential| ==> p.potential[k].stage == Adult)
    && MapMatches(p.counts, p.plants) && Keyed(p.counts)
    && (p.existing ==> |p.plants| + 1 <= n && p.adult.Some? && p.adult.value.stage == Adult && p.adultId == IdOf(p.adult))
    && (!p.existing ==> |p.plants| + |p.potential| <= n && p.adult == None && p.adultId == -1)
  }

  lemma {:induction false} PassShape(t: Tile, n: nat, nd: Dict<int>, total: int, draw: nat -> real)
    requires n <= |t.oldPlants| && Covered(nd, t.oldPlants) && FreshNew(t)
    ensures PassOk(PassUpTo(t, n, nd, total, draw), n)
  {
    if n > 0 {
      PassShape(t, n - 1, nd, total, draw);
      var acc := PassUpTo(t, n - 1, nd, total, draw);
      var r := Result(t.oldPlants, n - 1, nd, total, draw);
      if r.Some? && r.value.stage == Juvenile {
        MapAppendJuvenile(acc.counts, acc.plants, r.value);
      }
    }
  }

  /** The position of a plant in a list holding it. */
  function IndexOf(s: seq<JPlant>, x: JPlant): (i: nat)
    requires x in s
    ensures i < |s| && s[i] == x
  {
    if s[0] == x then 0 else 1 + IndexOf(s[1..], x)
  }

  /** The position of the old adult among the old plants. */
  function OldAdultIndex(t: Tile): (i: nat)
    requires AdultOk(t.oldPlants, t.oldAdult) && t.oldAdult.Some?
    ensures i < |t.oldPlants| && t.oldPlants[i] == t.oldAdult.value
  {
    IndexOf(t.oldPlants, t.oldAdult.value)
  }

  /** The loop records the old adult as surviving exactly when its own update succeeds, and
      then holds the updated plant as the new adult. */
  lemma {:induction false} PassResident(t: Tile, n: nat, nd: Dict<int>, total: int, draw: nat -> real)
    requires n <= |t.oldPlants| && Covered(nd, t.oldPlants) && FreshNew(t)
    requires AdultOk(t.oldPlants, t.oldAdult)
    ensures PassUpTo(t, n, nd, total, draw).existing ==> t.oldAdult.Some?
    ensures t.oldAdult.Some? ==>
      var i := OldAdultIndex(t);
      && (PassUpTo(t, n, nd, total, draw).existing <==> i < n && Result(t.oldPlants, i, nd, total, draw).Some?)
      && (PassUpTo(t, n, nd, total, draw).existing ==> PassUpTo(t, n, nd, total, draw).adult == Result(t.oldPlants, i, nd, total, draw))
  {
    if n > 0 {
      PassResident(t, n - 1, nd, total, draw);
      var s := t.oldPlants;
      if t.oldAdult.Some? {
        var i := OldAdultIndex(t);
        if n - 1 != i {
          CountStageOne(s, Adult, i);
        }
      }
    }
  }

  /** Until the old adult is seen to survive, the candidates are exactly the juveniles
      promoted so far, in list order. */
  lemma {:induction false} PassPotential(t: Tile, n: nat, nd: Dict<int>, total: int, draw: nat -> real)
    requires n <= |t.oldPlants| && Covered(nd, t.oldPlants) && FreshNew(t)
    requires AdultOk(t.oldPlants, t.oldAdult)
    ensures var p := PassUpTo(t, n, nd, total, draw);
      !p.existing ==>
        && (forall x :: x in p.potential ==>
              exists k :: 0 <= k < n && t.oldPlants[k].stage == Juvenile && Result(t.oldPlants, k, nd, total, draw) == Some(x))
        && (|p.potential| == 0 <==>
              forall k :: 0 <= k < n && t.oldPlants[k].stage == Juvenile ==> !Promoted(t.oldPlants, k, nd, total, draw))
  {
    if n == 0 {
      assert PassUpTo(t, 0, nd, total, draw).potential == [];
    } else {
      PassPotential(t, n - 1, nd, total, draw);
      PotentialStep(t, n, nd, total, draw);
    }
  }

  /** One more visit keeps the candidates equal to the juveniles promoted so far. */
  lemma PotentialStep(t: Tile, n: nat, nd: Dict<int>, total: int, draw: nat -> real)
    requires 0 < n <= |t.oldPlants| && Covered(nd, t.oldPlants) && FreshNew(t)
    requires AdultOk(t.oldPlants, t.oldAdult)
    requires var p := PassUpTo(t, n - 1, nd, total, draw);
      !p.existing ==>
        && (forall x :: x in p.potential ==>
              exists k :: 0 <= k < n - 1 && t.oldPlants[k].stage == Juvenile && Result(t.oldPlants, k, nd, total, draw) == Some(x))
        && (|p.potential| == 0 <==>
              forall k :: 0 <= k < n - 1 && t.oldPlants[k].stage == Juvenile ==> !Promoted(t.oldPlants, k, nd, total, draw))
    ensures var p := PassUpTo(t, n, nd, total, draw);
      !p.existing ==>
        && (forall x :: x in p.potential ==>
              exists k :: 0 <= k < n && t.oldPlants[k].stage == Juvenile && Result(t.oldPlants, k, nd, total, draw) == Some(x))
        && (|p.potential| == 0 <==>
              forall k :: 0 <= k < n && t.oldPlants[k].stage == Juvenile ==> !Promoted(t.oldPlants, k, nd, total, draw))
  {
    var s := t.oldPlants;
    var acc := PassUpTo(t, n - 1, nd, total, draw);
    var r := Result(s, n - 1, nd, total, draw);
    var p := PassUpTo(t, n, nd, total, draw);
    assert p == Visit(acc, s[n - 1], r, t.oldAdult);
    if !p.existing {
      assert !acc.existing;
      if s[n - 1].stage == Adult {
        // The only adult of the list is the old adult, whose survival would end the search.
        assert t.oldAdult.Some? by {
          CountStagePresent(s, n - 1);
        }
        CountStageOne(s, Adult, OldAdultIndex(t));
        assert r.None?;
        assert p == acc;
      } else if r.Some? && r.value.stage == Adult {
        assert p.potential == acc.potential + [r.value];
      } else {
        assert p.potential == acc.potential;
      }
    }
  }

  /** Every plant written by the loop is the update of one of the plants visited. */
  lemma {:induction false} PassKept(t: Tile, n: nat, nd: Dict<int>, total: int, draw: nat -> real)
    requires n <= |t.oldPlants| && Covered(nd, t.oldPlants) && FreshNew(t)
    ensures forall k :: 0 <= k < |PassUpTo(t, n, nd, total, draw).plants| ==>
      exists j :: 0 <= j < n && Result(t.oldPlants, j, nd, total, draw) == Some(PassUpTo(t, n, nd, total, draw).plants[k])
  {
    if n > 0 {
      PassKept(t, n - 1, nd, total, draw);
      var acc := PassUpTo(t, n - 1, nd, total, draw);
      var p := PassUpTo(t, n, nd, total, draw);
      forall k | 0 <= k < |p.plants|
        ensures exists j :: 0 <= j < n && Result(t.oldPlants, j, nd, total, draw) == Some(p.plants[k])
      {
        var r := Result(t.oldPlants, n - 1, nd, total, draw);
        if r.Some? && r.value.stage == Juvenile {
          assert p.plants == acc.plants + [r.value];
        } else {
          assert p.plants == acc.plants;
        }
        if k < |acc.plants| {
          var j :| 0 <= j < n - 1 && Result(t.oldPlants, j, nd, total, draw) == Some(acc.plants[k]);
          assert p.plants[k] == acc.plants[k];
        } else {
          assert r == Some(p.plants[k]);
        }
      }
    } else {
      assert PassUpTo(t, 0, nd, total, draw).plants == [];
    }
  }

  /** The invariant of the new side after `updateExistingPlants`: the map recounts the new
      list, whose only adult is the new adult, and which is no longer than the old list. */
  ghost predicate NewSideOk(t: Tile)
  {
    && MapMatches(t.newMap, t.newPlants) && Keyed(t.newMap)
    && AdultOk(t.newPlants, t.newAdult) && t.newAdultId == IdOf(t.newAdult)
  }

  /**
   * `updateExistingPlants` on a valid tile: when every species is in the map, the new side
   * recounts correctly, holds at most one adult, is no longer than the old list, holds
   * nothing but updated old plants, and holds every surviving juvenile in order.
   */
  lemma UpdateExistingPlantsValid(t: Tile, nd: Dict<int>, total: int, draw: nat -> real, pick: nat)
    requires Valid(t) && Covered(nd, t.oldPlants)
    ensures var r := UpdateExistingPlants(t, nd, total, draw, pick).value;
      && NewSideOk(r)
      && |r.newPlants| <= |t.oldPlants|
      && (forall k :: 0 <= k < |r.newPlants| ==>
            exists j :: 0 <= j < |t.oldPlants| && Result(t.oldPlants, j, nd, total, draw) == Some(r.newPlants[k]))
      && r.newPlants == Kept(t.oldPlants, |t.oldPlants|, nd, total, draw)
           + (if r.newAdult.Some? then [r.newAdult.value] else [])
  {
    NewSideFromOld(t, nd, total, draw, pick);
    UpdateExistingPlantsKept(t, nd, total, draw, pick);
  }

  /** The new side is consistent and is made of updated old plants. */
  lemma NewSideFromOld(t: Tile, nd: Dict<int>, total: int, draw: nat -> real, pick: nat)
    requires Valid(t) && Covered(nd, t.oldPlants)
    ensures var r := UpdateExistingPlants(t, nd, total, draw, pick).value;
      && NewSideOk(r)
      && |r.newPlants| <= |t.oldPlants|
      && (forall k :: 0 <= k < |r.newPlants| ==>
            exists j :: 0 <= j < |t.oldPlants| && Result(t.oldPlants, j, nd, total, draw) == Some(r.newPlants[k]))
  {
    var n := |t.oldPlants|;
    var p := PassUpTo(t, n, nd, total, draw);
    var r := Finish(t, p, pick);
    assert UpdateExistingPlants(t, nd, total, draw, pick).value == r;
    assert NewSideOk(r) && |r.newPlants| <= n by {
      PassShape(t, n, nd, total, draw);
      FinishOk(t, p, pick, n);
    }
    PassFromOld(t, nd, total, draw, pick);
    forall k | 0 <= k < |r.newPlants|
      ensures exists j :: 0 <= j < |t.oldPlants| && Result(t.oldPlants, j, nd, total, draw) == Some(r.newPlants[k])
    {
      assert r.newPlants[k] in r.newPlants;
      assert FromOld(t, nd, total, draw, r.newPlants[k]);
    }
  }

  /** Every plant the finished pass writes is the update of some old plant. */
  lemma PassFromOld(t: Tile, nd: Dict<int>, total: int, draw: nat -> real, pick: nat)
    requires Valid(t) && Covered(nd, t.oldPlants)
    ensures var r := Finish(t, PassUpTo(t, |t.oldPlants|, nd, total, draw), pick);
      forall x :: x in r.newPlants ==> FromOld(t, nd, total, draw, x)
  {
    var n := |t.oldPlants|;
    var p := PassUpTo(t, n, nd, total, draw);
    PassShape(t, n, nd, total, draw);
    PassKept(t, n, nd, total, draw);
    PassResident(t, n, nd, total, draw);
    PassPotential(t, n, nd, total, draw);
    forall x | x in p.plants ensures FromOld(t, nd, total, draw, x) {
      var k :| 0 <= k < |p.plants| && p.plants[k] == x;
    }
    if p.existing {
      assert Result(t.oldPlants, OldAdultIndex(t), nd, total, draw) == p.adult;
    }
    FinishFromOld(t, p, pick, nd, total, draw);
  }

  /** Finishing a well-shaped loop state over `n` plants yields a consistent new side of at
      most `n` plants. */
  lemma FinishOk(t: Tile, p: Pass, pick: nat, n: nat)
    requires PassOk(p, n)
    ensures NewSideOk(Finish(t, p, pick)) && |Finish(t, p, pick).newPlants| <= n
  {
    var r := Finish(t, p, pick);
    CountStageZero(p.plants, Adult);
    if r.newAdult.Some? {
      var a := r.newAdult.value;
      MapAppendAdult(p.counts, p.plants, a);
      CountAppend(p.plants, a);
      assert r.newPlants == p.plants + [a];
      assert a in r.newPlants;
      if !p.existing {
        assert a in p.potential;
      }
    }
  }

  /** `x` is the update of some old plant. */
  ghost predicate FromOld(t: Tile, nd: Dict<int>, total: int, draw: nat -> real, x: JPlant)
    requires Covered(nd, t.oldPlants)
  {
    exists j :: 0 <= j < |t.oldPlants| && Result(t.oldPlants, j, nd, total, draw) == Some(x)
  }

  /** When the written plants, the surviving old adult and the candidates all come from old
      plants, so does everything `Finish` writes. */
  lemma FinishFromOld(t: Tile, p: Pass, pick: nat, nd: Dict<int>, total: int, draw: nat -> real)
    requires Covered(nd, t.oldPlants)
    requires forall x :: x in p.plants ==> FromOld(t, nd, total, draw, x)
    requires p.existing && p.adult.Some? ==> FromOld(t, nd, total, draw, p.adult.value)
    requires !p.existing ==> forall x :: x in p.potential ==> FromOld(t, nd, total, draw, x)
    requires !p.existing ==> p.adult == None
    ensures forall x :: x in Finish(t, p, pick).newPlants ==> FromOld(t, nd, total, draw, x)
  {
    var r := Finish(t, p, pick);
    if r.newAdult.Some? {
      var a := r.newAdult.value;
      assert r.newPlants == p.plants + [a];
      if !p.existing {
        assert a in p.potential;
      }
    }
  }

  /** Reference definition: the updates of the first `n` old plants that survive as
      juveniles, in list order. */
  function Kept(s: seq<JPlant>, n: nat, nd: Dict<int>, total: int, draw: nat -> real): seq<JPlant>
    requires n <= |s| && Covered(nd, s)
  {
    if n == 0 then []
    else
      var o := Result(s, n - 1, nd, total, draw);
      Kept(s, n - 1, nd, total, draw) + (if o.Some? && o.value.stage != Adult then [o.value] else [])
  }

  lemma {:induction false} PassPlantsKept(t: Tile, n: nat, nd: Dict<int>, total: int, draw: nat -> real)
    requires n <= |t.oldPlants| && Covered(nd, t.oldPlants)
    ensures PassUpTo(t, n, nd, total, draw).plants == t.newPlants + Kept(t.oldPlants, n, nd, total, draw)
  {
    if n == 0 {
      assert Kept(t.oldPlants, 0, nd, total, draw) == [];
    } else {
      PassPlantsKept(t, n - 1, nd, total, draw);
      var o := Result(t.oldPlants, n - 1, nd, total, draw);
      var acc := PassUpTo(t, n - 1, nd, total, draw);
      assert PassUpTo(t, n, nd, total, draw) == Visit(acc, t.oldPlants[n - 1], o, t.oldAdult);
      VisitPlants(acc, t.oldPlants[n - 1], o, t.oldAdult);
    }
  }

  /** One visit appends the updated plant to the new list exactly when it is still alive and
      not an adult. */
  lemma VisitPlants(acc: Pass, before: JPlant, after: Option<JPlant>, oldAdult: Option<JPlant>)
    ensures Visit(acc, before, after, oldAdult).plants
      == acc.plants + (if after.Some? && after.value.stage != Adult then [after.value] else [])
  {
  }

  /**
   * The list `updateExistingPlants` writes (Tile.java:135-187): every old plant that survives
   * as a juvenile, in the old order, followed by the new adult when there is one.
   */
  lemma UpdateExistingPlantsKept(t: Tile, nd: Dict<int>, total: int, draw: nat -> real, pick: nat)
    requires FreshNew(t) && Covered(nd, t.oldPlants)
    ensures var r := UpdateExistingPlants(t, nd, total, draw, pick).value;
      r.newPlants == Kept(t.oldPlants, |t.oldPlants|, nd, total, draw)
        + (if r.newAdult.Some? then [r.newAdult.value] else [])
  {
    PassPlantsKept(t, |t.oldPlants|, nd, total, draw);
  }

  /**
   * Which adult the tile keeps (Tile.java:147-152, 166-174): the old adult when its update
   * succeeds; otherwise, when some juvenile was promoted this tick, one of the promoted
   * juveniles (chosen by `pick`); otherwise none.
   */
  lemma UpdateExistingPlantsAdult(t: Tile, nd: Dict<int>, total: int, draw: nat -> real, pick: nat)
    requires Valid(t) && Covered(nd, t.oldPlants)
    ensures var r := UpdateExistingPlants(t, nd, total, draw, pick).value;
      var s := t.oldPlants;
      if t.oldAdult.Some? && Result(s, OldAdultIndex(t), nd, total, draw).Some? then
        r.newAdult == Result(s, OldAdultIndex(t), nd, total, draw)
      else
        && (r.newAdult.Some? <==> exists k :: 0 <= k < |s| && s[k].stage == Juvenile && Promoted(s, k, nd, total, draw))
        && (r.newAdult.Some? ==> exists k :: 0 <= k < |s| && s[k].stage == Juvenile && Result(s, k, nd, total, draw) == r.newAdult)
  {
    var n := |t.oldPlants|;
    var p := PassUpTo(t, n, nd, total, draw);
    PassShape(t, n, nd, total, draw);
    PassResident(t, n, nd, total, draw);
    PassPotential(t, n, nd, total, draw);
    if !p.existing && |p.potential| != 0 {
      assert p.potential[pick % |p.potential|] in p.potential;
    }
  }

  // ---------------------------------------------------------------------------------------
  // addNewSeeds and updateSelf

  /** Append `m` juveniles of age 0, the k-th of species `species(k)`, each with its map
      entry (Tile.java:220-237). */
  function Sow(t: Tile, m: nat, species: nat -> JSpecies): (r: Tile)
    ensures r == t.(newPlants := r.newPlants, newMap := r.newMap)
    ensures |r.newPlants| == |t.newPlants| + m
    ensures r.newPlants[..|t.newPlants|] == t.newPlants
    ensures forall k :: |t.newPlants| <= k < |r.newPlants| ==> r.newPlants[k] == JPlant(species(k - |t.newPlants|), 0, Juvenile)
  {
    if m == 0 then t
    else
      var u := Sow(t, m - 1, species);
      var sp := species(m - 1);
      u.(newPlants := u.newPlants + [JPlant(sp, 0, Juvenile)], newMap := PA.BumpJuvenile(u.newMap, sp.speciesId))
  }

  /**
   * `addNewSeeds` (Tile.java:190-238): when no seed reaches the tile (total weight 0) nothing
   * changes; otherwise the new list is topped up to exactly 50 with juveniles of age 0. The
   * weight `totalProb` and the species of each seed come from the seed-dispersal draws.
   */
  function AddNewSeeds(t: Tile, totalProb: real, species: nat -> JSpecies): (r: Tile)
    ensures totalProb == 0.0 ==> r == t
    ensures totalProb != 0.0 ==> |r.newPlants| == PA.Max(Capacity, |t.newPlants|)
    ensures r == t.(newPlants := r.newPlants, newMap := r.newMap)
    ensures r.newPlants[..|t.newPlants|] == t.newPlants
    ensures forall k :: |t.newPlants| <= k < |r.newPlants| ==> r.newPlants[k].stage == Juvenile && r.newPlants[k].age == 0
  {
    if totalProb == 0.0 then t else Sow(t, PA.Max(Capacity - |t.newPlants|, 0), species)
  }

  lemma {:induction false} SowOk(t: Tile, m: nat, species: nat -> JSpecies)
    requires NewSideOk(t)
    ensures NewSideOk(Sow(t, m, species))
  {
    if m > 0 {
      SowOk(t, m - 1, species);
      var u := Sow(t, m - 1, species);
      var p := JPlant(species(m - 1), 0, Juvenile);
      MapAppendJuvenile(u.newMap, u.newPlants, p);
      CountAppend(u.newPlants, p);
    }
  }

  /** `updateSelf` (Tile.java:240-254): the new side becomes the old side and the new side is
      emptied. */
  function UpdateSelf(t: Tile): (r: Tile)
    ensures r.oldPlants == t.newPlants && r.oldMap == t.newMap
    ensures r.oldAdult == t.newAdult && r.oldAdultId == t.newAdultId
    ensures FreshNew(r)
  {
    Tile(t.newPlants, [], t.newAdultId, -1, t.newAdult, None, t.newMap, [])
  }

  /** One tick of one tile: its update, its seeding, then the swap. */
  function TickTile(t: Tile, nd: Dict<int>, total: int, draw: nat -> real, pick: nat,
                    totalProb: real, species: nat -> JSpecies): Option<Tile>
  {
    match UpdateExistingPlants(t, nd, total, draw, pick)
    case None => None
    case Some(u) => Some(UpdateSelf(AddNewSeeds(u, totalProb, species)))
  }

  /** A tick keeps a tile valid: at most 50 plants, a map that recounts them, and a single
      adult named by the adult fields. */
  lemma TickTileValid(t: Tile, nd: Dict<int>, total: int, draw: nat -> real, pick: nat,
                      totalProb: real, species: nat -> JSpecies)
    requires Valid(t) && Covered(nd, t.oldPlants)
    ensures TickTile(t, nd, total, draw, pick, totalProb, species).Some?
    ensures Valid(TickTile(t, nd, total, draw, pick, totalProb, species).value)
  {
    var u := UpdateExistingPlants(t, nd, total, draw, pick).value;
    UpdateExistingPlantsValid(t, nd, total, draw, pick);
    if totalProb != 0.0 {
      SowOk(u, PA.Max(Capacity - |u.newPlants|, 0), species);
    }
  }

  // ---------------------------------------------------------------------------------------
  // mergeNeighborMap

  /** One species of the export census: number of adults, their ages, number of juveniles. */
  datatype Census = Census(adults: int, ages: seq<int>, juveniles: int)

  /** The census of `id`, reading an absent species as empty. */
  function CensusAt(acc: Dict<Census>, id: int): Census
  {
    match Lookup(acc, id)
    case Some(c) => c
    case None => Census(0, [], 0)
  }

  /** Every census entry lists one age per adult. */
  ghost predicate CensusOk(acc: Dict<Census>)
  {
    forall id :: CensusAt(acc, id).adults == |CensusAt(acc, id).ages|
  }

  /** The age of an optional adult, 0 for none. */
  function AgeOf(a: Option<JPlant>): int
  {
    match a
    case None => 0
    case Some(p) => p.age
  }

  /** A tile's counts of one species merged into its census entry: an adult, if counted,
      with the age `age`, and the juveniles. */
  function Merge(c: Census, e: PA.Counts, age: int): (r: Census)
    ensures c.adults == |c.ages| ==> r.adults == |r.ages|
    ensures r.juveniles == c.juveniles + e.juveniles
  {
    if e.adults != 0 then Census(c.adults + 1, c.ages + [age], c.juveniles + e.juveniles)
    else Census(c.adults, c.ages, c.juveniles + e.juveniles)
  }

  /** The first `n` entries of the old map merged into `acc` (Tile.java:73-95); reading the
      age of an adult the tile does not have throws, here `None`. */
  function MergeUpTo(m: Dict<PA.Counts>, n: nat, acc: Dict<Census>, oldAdult: Option<JPlant>): Option<Dict<Census>>
    requires n <= |m|
  {
    if n == 0 then Some(acc)
    else match MergeUpTo(m, n - 1, acc, oldAdult)
      case None => None
      case Some(a) =>
        var e := m[n - 1];
        if e.1.adults != 0 && oldAdult.None? then None
        else Some(Put(a, e.0, Merge(CensusAt(a, e.0), e.1, AgeOf(oldAdult))))
  }

  /** `mergeNeighborMap` (Tile.java:70-97): the tile's old map merged into the census. */
  function MergeNeighborMap(t: Tile, acc: Dict<Census>): (r: Option<Dict<Census>>)
    ensures r.Some? <==> t.oldAdult.Some? || forall k :: 0 <= k < |t.oldMap| ==> t.oldMap[k].1.adults == 0
  {
    MergeUpToSome(t.oldMap, |t.oldMap|, acc, t.oldAdult);
    MergeUpTo(t.oldMap, |t.oldMap|, acc, t.oldAdult)
  }

  lemma {:induction false} MergeUpToSome(m: Dict<PA.Counts>, n: nat, acc: Dict<Census>, oldAdult: Option<JPlant>)
    requires n <= |m|
    ensures MergeUpTo(m, n, acc, oldAdult).Some? <==> oldAdult.Some? || forall k :: 0 <= k < n ==> m[k].1.adults == 0
  {
    if n > 0 {
      MergeUpToSome(m, n - 1, acc, oldAdult);
    }
  }

  /** After `n` entries of a map without repeated keys, each species' census entry has
      absorbed that species' entry among them, if any. */
  lemma {:induction false} MergeUpToAt(m: Dict<PA.Counts>, n: nat, acc: Dict<Census>, oldAdult: Option<JPlant>, id: int)
    requires n <= |m| && Keyed(m) && MergeUpTo(m, n, acc, oldAdult).Some?
    ensures CensusAt(MergeUpTo(m, n, acc, oldAdult).value, id) == Merge(CensusAt(acc, id), PA.CacheAt(m[..n], id), AgeOf(oldAdult))
  {
    if n == 0 {
      assert m[..0] == [];
      assert MergeUpTo(m, 0, acc, oldAdult) == Some(acc);
    } else {
      MergeUpToAt(m, n - 1, acc, oldAdult, id);
      MergeOneAt(m, n, acc, oldAdult, id);
    }
  }

  /** The n-th entry is merged into its own species' census entry and no other. */
  lemma MergeOneAt(m: Dict<PA.Counts>, n: nat, acc: Dict<Census>, oldAdult: Option<JPlant>, id: int)
    requires 0 < n <= |m| && Keyed(m) && MergeUpTo(m, n, acc, oldAdult).Some?
    requires CensusAt(MergeUpTo(m, n - 1, acc, oldAdult).value, id) == Merge(CensusAt(acc, id), PA.CacheAt(m[..n - 1], id), AgeOf(oldAdult))
    ensures CensusAt(MergeUpTo(m, n, acc, oldAdult).value, id) == Merge(CensusAt(acc, id), PA.CacheAt(m[..n], id), AgeOf(oldAdult))
  {
    var a := MergeUpTo(m, n - 1, acc, oldAdult).value;
    var e := m[n - 1];
    assert MergeUpTo(m, n, acc, oldAdult).value == Put(a, e.0, Merge(CensusAt(a, e.0), e.1, AgeOf(oldAdult)));
    CacheAtPrefix(m, n, id);
    if e.0 == id {
      CacheAtAbsent(m, n, id);
      assert CensusAt(a, id) == Merge(CensusAt(acc, id), PA.Counts(0, 0), AgeOf(oldAdult));
    }
  }

  /** The key of the n-th entry of a map without repeated keys is absent before it. */
  lemma CacheAtAbsent(m: Dict<PA.Counts>, n: nat, id: int)
    requires 0 < n <= |m| && Keyed(m) && m[n - 1].0 == id
    ensures PA.CacheAt(m[..n - 1], id) == PA.Counts(0, 0)
  {
    var before := m[..n - 1];
    assert forall k :: 0 <= k < |before| ==> before[k].0 != id by {
      assert forall k :: 0 <= k < |before| ==> before[k] == m[k];
    }
    NoEntryNoKey(before, id);
  }

  /** In a map without repeated keys, the first `n` entries hold `id` at the n-th entry when
      that entry has key `id`, and otherwise wherever the first n - 1 entries hold it. */
  lemma CacheAtPrefix(m: Dict<PA.Counts>, n: nat, id: int)
    requires 0 < n <= |m| && Keyed(m)
    ensures PA.CacheAt(m[..n], id) == if m[n - 1].0 == id then m[n - 1].1 else PA.CacheAt(m[..n - 1], id)
  {
    var pre := m[..n];
    var before := m[..n - 1];
    assert pre[..n - 1] == before;
    assert Keyed(pre) by {
      assert forall i :: 0 <= i < n ==> pre[i] == m[i];
    }
    LookupPrefix(pre, id);
  }


  /** Does the tile hold an adult of species `id`? */
  predicate HasAdultOf(t: Tile, id: int)
  {
    t.oldAdult.Some? && t.oldAdult.value.species.speciesId == id
  }

  lemma {:induction false} CountOfAt(s: seq<JPlant>, id: int, st: JStage)
    requires CountOf(s, id, st) > 0
    ensures exists k :: 0 <= k < |s| && s[k].species.speciesId == id && s[k].stage == st
  {
    var pre := s[..|s| - 1];
    if CountOf(pre, id, st) > 0 {
      CountOfAt(pre, id, st);
      var k :| 0 <= k < |pre| && pre[k].species.speciesId == id && pre[k].stage == st;
      assert s[k] == pre[k];
    }
  }

  /** The adults of species `id` on a valid tile: one if its adult is of that species. */
  lemma AdultCountOf(t: Tile, id: int)
    requires Valid(t)
    ensures CountOf(t.oldPlants, id, Adult) == if HasAdultOf(t, id) then 1 else 0
  {
    var s := t.oldPlants;
    CountOfBelowStage(s, id, Adult);
    if t.oldAdult.Some? {
      var i := OldAdultIndex(t);
      if HasAdultOf(t, id) {
        CountOfPresent(s, i);
      } else if CountOf(s, id, Adult) > 0 {
        CountOfAt(s, id, Adult);
        var k :| 0 <= k < |s| && s[k].species.speciesId == id && s[k].stage == Adult;
        CountStageOne(s, Adult, i);
      }
    }
  }

  /**
   * Exporting a valid tile (Tile.java:70-97) never throws, and adds to each species' census
   * entry the tile's adult of that species, with its age, and the tile's juveniles of that
   * species; the census keeps one age per adult.
   */
  lemma MergeNeighborMapValid(t: Tile, acc: Dict<Census>, id: int)
    requires Valid(t)
    ensures MergeNeighborMap(t, acc).Some?
    ensures var c := CensusAt(acc, id);
      CensusAt(MergeNeighborMap(t, acc).value, id) == Census(
        c.adults + (if HasAdultOf(t, id) then 1 else 0),
        c.ages + (if HasAdultOf(t, id) then [t.oldAdult.value.age] else []),
        c.juveniles + CountOf(t.oldPlants, id, Juvenile))
    ensures CensusOk(acc) ==> CensusOk(MergeNeighborMap(t, acc).value)
  {
    var m := t.oldMap;
    if t.oldAdult.None? {
      forall k | 0 <= k < |m| ensures m[k].1.adults == 0 {
        var key := m[k].0;
        AdultCountOf(t, key);
        LookupFirst(m, k);
        assert PA.CacheAt(m, key) == CountsOf(t.oldPlants, key);
      }
    }
    var r := MergeNeighborMap(t, acc).value;
    assert m[..|m|] == m;
    AdultCountOf(t, id);
    MergeUpToAt(m, |m|, acc, t.oldAdult, id);
    forall id' ensures CensusAt(r, id').adults == CensusAt(acc, id').adults + (if HasAdultOf(t, id') then 1 else 0)
                   && |CensusAt(r, id').ages| == |CensusAt(acc, id').ages| + (if HasAdultOf(t, id') then 1 else 0) {
      AdultCountOf(t, id');
      MergeUpToAt(m, |m|, acc, t.oldAdult, id');
    }
  }

  /** In a map without repeated keys, the entry at position `k` is the one found for its key. */
  lemma LookupFirst<V>(d: Dict<V>, k: nat)
    requires Keyed(d) && k < |d|
    ensures Lookup(d, d[k].0) == Some(d[k].1)
  {
    if k > 0 {
      assert d[0].0 != d[k].0;
      assert Keyed(d[1..]) by {
        assert forall i :: 0 <= i < |d| - 1 ==> d[1..][i] == d[i + 1];
      }
      LookupFirst(d[1..], k - 1);
    }
  }
}
