/**
 * The legacy monolithic simulation.py: the same plant life cycle as simulation_utils (its
 * Juvenile, Adult and DeadPlant classes are line for line those of Plants), but a simpler
 * plant array with a hard-coded cap of 50 and no count cache, a neighbourhood of the eight
 * surrounding cells without the cell itself, an update that puts the resident in the place
 * of a random juvenile, dispersal offsets from {-1, 0, 1}, and a staging board that is never
 * cleared.
 *
 * Every random choice is a parameter: survival draws `draw(k)` for the k-th stored plant,
 * `randint` indices taken modulo the length of the list they index, and the indices of
 * `random.choice` over [-1, 0, 1] taken modulo 3.
 */
module Legacy {
  import opened Options
  import opened Dicts
  import opened Species
  import opened Plants
  import PA = PlantArray
  import B = Board

  /** The storage cap of simulation.py (addPlant and update). */
  const Capacity: nat := 50

  /** The legacy `PlantArray`: `hasAdult`/`currentAdult` as one optional resident, and the
      stored plants. */
  datatype PlantArray = PlantArray(resident: Option<Plant>, storage: seq<Plant>)

  function Fresh(): PlantArray
  {
    PlantArray(None, [])
  }

  /**
   * The invariant the legacy array keeps: the cap respected, no DeadPlant stored, exactly one
   * stored Adult when there is a resident and none otherwise, and the resident being that
   * stored Adult.
   */
  predicate Valid(a: PlantArray)
  {
    && |a.storage| <= Capacity
    && PA.NoDead(a.storage)
    && PA.CountStage(a.storage, Adult) == (if a.resident.Some? then 1 else 0)
    && (a.resident.Some? ==> a.resident.value.stage == Adult && a.resident.value in a.storage)
  }

  // ---------------------------------------------------------------------------------------
  // addPlant and mergeArray

  /**
   * `addPlant` (simulation.py:386-398). An Adult is refused when there is a resident. At 50
   * occupants anything but an Adult is dropped, and an Adult overwrites the occupant of the
   * drawn `slot` and becomes the resident. Below 50 the plant is appended, an Adult becoming
   * the resident.
   */
  function AddPlant(a: PlantArray, p: Plant, slot: nat): (r: PlantArray)
    ensures p.stage == Adult && a.resident.Some? ==> r == a
    ensures p.stage != Adult && |a.storage| >= Capacity ==> r == a
    ensures p.stage == Adult && a.resident.None? && |a.storage| >= Capacity ==>
      && r.resident == Some(p)
      && |r.storage| == |a.storage|
      && exists k :: 0 <= k < |a.storage| && r.storage[k] == p
           && forall j :: 0 <= j < |a.storage| && j != k ==> r.storage[j] == a.storage[j]
    ensures !(p.stage == Adult && a.resident.Some?) && |a.storage| < Capacity ==>
      && r.storage == a.storage + [p]
      && r.resident == (if p.stage == Adult then Some(p) else a.resident)
    ensures |a.storage| <= Capacity ==> |r.storage| <= Capacity
  {
    if p.stage == Adult && a.resident.Some? then a
    else if |a.storage| >= Capacity then
      if p.stage == Adult then
        var k := slot % |a.storage|;
        assert a.storage[k := p][k] == p;
        PlantArray(Some(p), a.storage[k := p])
      else a
    else
      PlantArray(if p.stage == Adult then Some(p) else a.resident, a.storage + [p])
  }

  /** addPlant keeps the invariant for any living plant. */
  lemma AddPlantValid(a: PlantArray, p: Plant, slot: nat)
    requires Valid(a) && p.stage != Dead
    ensures Valid(AddPlant(a, p, slot))
  {
    var s := a.storage;
    var r := AddPlant(a, p, slot);
    if p.stage == Adult && a.resident.Some? {
    } else if |s| >= Capacity {
      if p.stage == Adult {
        var k := slot % |s|;
        PA.CountStageZero(s, Adult);
        PA.CountReplace(s, k, p, p.species.id, Adult);
        assert r.storage == s[k := p];
        assert r.storage[k] == p;
      }
    } else {
      PA.CountAppend(s, p);
      assert r.storage[|s|] == p;
    }
  }

  /** Offer each plant of `ps` to `a` through addPlant, in order; `slot(k + j)` is the
      eviction draw of the j-th offer. */
  function AddAll(a: PlantArray, ps: seq<Plant>, slot: nat -> nat, k: nat): (r: PlantArray)
    ensures a.resident.Some? ==> r.resident == a.resident
    ensures a.resident.None? ==> r.resident == PA.FirstAdult(ps)
    ensures |a.storage| <= Capacity ==> |r.storage| <= Capacity
    decreases |ps|
  {
    if |ps| == 0 then a
    else AddAll(AddPlant(a, ps[0], slot(k)), ps[1..], slot, k + 1)
  }

  /**
   * `mergeArray` (simulation.py:412-417): a no-op when both arrays hold an adult, otherwise
   * every plant of `src` is offered through addPlant in order. A resident is never displaced;
   * without one, the first incoming Adult becomes the resident.
   */
  function MergeArray(a: PlantArray, src: PlantArray, slot: nat -> nat): (r: PlantArray)
    ensures a.resident.Some? && src.resident.Some? ==> r == a
    ensures !(a.resident.Some? && src.resident.Some?) ==> r == AddAll(a, src.storage, slot, 0)
    ensures a.resident.Some? ==> r.resident == a.resident
    ensures a.resident.None? ==> r.resident == PA.FirstAdult(src.storage)
    ensures |a.storage| <= Capacity ==> |r.storage| <= Capacity
  {
    if a.resident.Some? && src.resident.Some? then a
    else AddAll(a, src.storage, slot, 0)
  }

  lemma {:induction false} AddAllValid(a: PlantArray, ps: seq<Plant>, slot: nat -> nat, k: nat)
    requires Valid(a) && PA.NoDead(ps)
    ensures Valid(AddAll(a, ps, slot, k))
    decreases |ps|
  {
    if |ps| > 0 {
      AddPlantValid(a, ps[0], slot(k));
      AddAllValid(AddPlant(a, ps[0], slot(k)), ps[1..], slot, k + 1);
    }
  }

  /** Merging keeps the invariant. */
  lemma MergeArrayValid(a: PlantArray, src: PlantArray, slot: nat -> nat)
    requires Valid(a) && PA.NoDead(src.storage)
    ensures Valid(MergeArray(a, src, slot))
  {
    AddAllValid(a, src.storage, slot, 0);
  }

  /** Juveniles offered to an array only ever append: what was stored stays stored, in
      place. */
  lemma {:induction false} AddAllExtends(a: PlantArray, ps: seq<Plant>, slot: nat -> nat, k: nat)
    requires forall j :: 0 <= j < |ps| ==> ps[j].stage == Juvenile
    ensures var r := AddAll(a, ps, slot, k);
      && r.resident == a.resident
      && |a.storage| <= |r.storage|
      && r.storage[..|a.storage|] == a.storage
      && forall j :: |a.storage| <= j < |r.storage| ==> r.storage[j].stage == Juvenile
    decreases |ps|
  {
    if |ps| > 0 {
      var a' := AddPlant(a, ps[0], slot(k));
      AddAllExtends(a', ps[1..], slot, k + 1);
      var r := AddAll(a, ps, slot, k);
      assert r.storage[..|a'.storage|] == a'.storage;
      assert a'.storage[..|a.storage|] == a.storage;
      assert r.storage[..|a.storage|] == r.storage[..|a'.storage|][..|a.storage|];
    } else {
      assert a.storage[..|a.storage|] == a.storage;
    }
  }

  // ---------------------------------------------------------------------------------------
  // produceSeeds and toDict

  /** Offer `n` copies of the juvenile `p` through addPlant. */
  function Sow(arr: PlantArray, p: Plant, n: int): (r: PlantArray)
    requires p.stage == Juvenile && arr.resident.None? && |arr.storage| <= Capacity
    requires forall k :: 0 <= k < |arr.storage| ==> arr.storage[k] == p
    ensures r.resident == None
    ensures |r.storage| == PA.Min(|arr.storage| + PA.Max(n, 0), Capacity)
    ensures forall k :: 0 <= k < |r.storage| ==> r.storage[k] == p
    decreases n
  {
    if n <= 0 then arr
    else Sow(AddPlant(arr, p, 0), p, n - 1)
  }

  /**
   * `produceSeeds` (simulation.py:426-430): nothing without a resident; otherwise `ns`
   * age-0 Juveniles of the resident's species, of which addPlant keeps at most 50, in a fresh
   * array without a resident.
   */
  function ProduceSeeds(a: PlantArray): (r: PlantArray)
    ensures r.resident == None && Valid(r)
    ensures a.resident.None? ==> r.storage == []
    ensures a.resident.Some? ==>
      && |r.storage| == PA.Min(PA.Max(a.resident.value.species.ns, 0), Capacity)
      && forall k :: 0 <= k < |r.storage| ==> r.storage[k] == Plant(a.resident.value.species, 0, Juvenile)
    ensures forall k :: 0 <= k < |r.storage| ==> r.storage[k].stage == Juvenile
  {
    match a.resident
    case None => Fresh()
    case Some(ad) =>
      var r := Sow(Fresh(), Plant(ad.species, 0, Juvenile), ad.species.ns);
      PA.CountStageZero(r.storage, Adult);
      r
  }

  /** `toDict` (simulation.py:485-488): one adult of the resident's species, or nothing. */
  function ToDict(a: PlantArray): (r: Dict<int>)
    ensures forall k :: Get0(r, k) == (if a.resident.Some? && k == a.resident.value.species.id then 1 else 0)
    ensures forall k :: HasKey(r, k) <==> a.resident.Some? && k == a.resident.value.species.id
    ensures Sum(r) == (if a.resident.Some? then 1 else 0)
  {
    match a.resident
    case None => []
    case Some(ad) => Put([], ad.species.id, 1)
  }

  // ---------------------------------------------------------------------------------------
  // update

  /**
   * The crowding of one plant (simulation.py:453-458): the conspecific count is its species'
   * entry of the map, zero when absent, with nothing subtracted for the plant itself, and the
   * heterospecific count is the rest of the map.
   */
  function Crowding(nd: Dict<int>, id: int): (r: (int, int))
    ensures r.0 == Get0(nd, id)
    ensures r.0 + r.1 == Sum(nd)
  {
    if HasKey(nd, id) then (Lookup(nd, id).value, Sum(nd) - Lookup(nd, id).value)
    else (0, Sum(nd))
  }

  /** Plant `k` of `s` after its tick, with `draw(k)` as its survival draw. */
  function Outcome(s: seq<Plant>, k: nat, nd: Dict<int>, draw: nat -> real): Plant
    requires k < |s|
  {
    var c := Crowding(nd, s[k].species.id);
    Advance(s[k], c.0, c.1, draw(k))
  }

  /** Reference definition: the living outcomes of the first `n` plants, in storage order. */
  function Kept(s: seq<Plant>, n: nat, nd: Dict<int>, draw: nat -> real): (r: seq<Plant>)
    requires n <= |s|
    ensures PA.NoDead(r) && |r| <= n
    ensures forall q :: q in r ==> exists k :: 0 <= k < n && q == Outcome(s, k, nd, draw)
  {
    if n == 0 then []
    else
      var o := Outcome(s, n - 1, nd, draw);
      var r := Kept(s, n - 1, nd, draw) + (if o.stage == Dead then [] else [o]);
      assert forall q :: q in r ==> q in Kept(s, n - 1, nd, draw) || q == o;
      r
  }

  /** The plants of `s` whose being at stage `st` is `keep`, in order. */
  function Select(s: seq<Plant>, st: Stage, keep: bool): (r: seq<Plant>)
    ensures |r| <= |s|
    ensures forall q :: q in r <==> q in s && (q.stage == st) == keep
  {
    if |s| == 0 then []
    else
      var last := s[|s| - 1];
      assert s == s[..|s| - 1] + [last];
      Select(s[..|s| - 1], st, keep) + (if (last.stage == st) == keep then [last] else [])
  }

  /** State of the loop at simulation.py:451-466: the new storage, currentAdult, and whether
      a new adult must be picked. */
  datatype Pass = Pass(kept: seq<Plant>, resident: Option<Plant>, reelect: bool)

  /** One iteration: `before` is the stored plant and `after` its outcome. The identity test
      against currentAdult is value equality, faithful since a valid array stores its
      resident once and no other Adult. */
  function Visit(acc: Pass, before: Plant, after: Plant): Pass
  {
    var kept := if after.stage == Dead then acc.kept else acc.kept + [after];
    if Some(before) == acc.resident then
      if after.stage == Dead then Pass(kept, None, true) else Pass(kept, Some(after), acc.reelect)
    else
      Pass(kept, acc.resident, acc.reelect)
  }

  /** The loop after its first `n` iterations. */
  function PassUpTo(s: seq<Plant>, n: nat, nd: Dict<int>, draw: nat -> real, start: Option<Plant>): Pass
    requires n <= |s|
  {
    if n == 0 then Pass([], start, start.None?)
    else Visit(PassUpTo(s, n - 1, nd, draw, start), s[n - 1], Outcome(s, n - 1, nd, draw))
  }

  /** The loop keeps exactly the living outcomes, and its currentAdult, if any, is an Adult
      whenever the starting one is. */
  lemma {:induction false} PassShape(s: seq<Plant>, n: nat, nd: Dict<int>, draw: nat -> real, start: Option<Plant>)
    requires n <= |s|
    requires start.Some? ==> start.value.stage == Adult
    ensures var p := PassUpTo(s, n, nd, draw, start);
      && p.kept == Kept(s, n, nd, draw)
      && (p.resident.Some? ==> p.resident.value.stage == Adult)
      && (p.reelect ==> p.resident.None?)
  {
    if n == 0 {
      assert PassUpTo(s, 0, nd, draw, start) == Pass([], start, start.None?);
    } else {
      PassShape(s, n - 1, nd, draw, start);
      var acc := PassUpTo(s, n - 1, nd, draw, start);
      var o := Outcome(s, n - 1, nd, draw);
      assert PassUpTo(s, n, nd, draw, start) == Visit(acc, s[n - 1], o);
      assert Kept(s, n, nd, draw) == Kept(s, n - 1, nd, draw) + (if o.stage == Dead then [] else [o]);
    }
  }

  /** Without a currentAdult the loop never acquires one, and a new adult is to be picked. */
  lemma {:induction false} PassNoResident(s: seq<Plant>, n: nat, nd: Dict<int>, draw: nat -> real)
    requires n <= |s|
    ensures PassUpTo(s, n, nd, draw, None).resident == None
    ensures PassUpTo(s, n, nd, draw, None).reelect
  {
    if n > 0 {
      PassNoResident(s, n - 1, nd, draw);
    }
  }

  /**
   * With the currentAdult stored at position `i` and no other Adult stored, the loop's
   * currentAdult follows that plant, and a new adult is to be picked exactly when it died.
   */
  lemma {:induction false} PassResident(s: seq<Plant>, n: nat, nd: Dict<int>, draw: nat -> real, i: nat)
    requires n <= |s| && i < |s| && s[i].stage == Adult
    requires forall k :: 0 <= k < |s| && k != i ==> s[k].stage != Adult
    ensures var p := PassUpTo(s, n, nd, draw, Some(s[i]));
      && p.resident == (if n <= i then Some(s[i])
                        else if Outcome(s, i, nd, draw).stage == Dead then None
                        else Some(Outcome(s, i, nd, draw)))
      && p.reelect == (i < n && Outcome(s, i, nd, draw).stage == Dead)
  {
    if n > 0 {
      PassResident(s, n - 1, nd, draw, i);
    }
  }

  /** The adults grown this tick, when the stored Adults all died, are grown juveniles. */
  lemma GrownFromJuveniles(s: seq<Plant>, nd: Dict<int>, draw: nat -> real)
    requires PA.NoDead(s)
    requires forall k :: 0 <= k < |s| && s[k].stage == Adult ==> Outcome(s, k, nd, draw).stage == Dead
    ensures forall q :: q in Kept(s, |s|, nd, draw) && q.stage == Adult ==>
      exists k :: 0 <= k < |s| && s[k].stage == Juvenile && q == Outcome(s, k, nd, draw)
  {
    forall q | q in Kept(s, |s|, nd, draw) && q.stage == Adult
      ensures exists k :: 0 <= k < |s| && s[k].stage == Juvenile && q == Outcome(s, k, nd, draw)
    {
      var k :| 0 <= k < |s| && q == Outcome(s, k, nd, draw);
      assert s[k].stage == Juvenile;
    }
  }

  /** The juveniles that `update` keeps: the living non-adults, cut to the first 50. */
  function Young(kept: seq<Plant>): (r: seq<Plant>)
    requires PA.NoDead(kept)
    ensures |r| == PA.Min(|Select(kept, Adult, false)|, Capacity)
    ensures forall q :: q in r ==> q in kept && q.stage == Juvenile
    ensures r == Select(kept, Adult, false)[..|r|]
  {
    var all := Select(kept, Adult, false);
    var r := all[..PA.Min(|all|, Capacity)];
    assert forall q :: q in r ==> q in all;
    r
  }

  /** simulation.py:473-477: the resident takes the place of the juvenile at `slot`, or is
      the only plant when there is no juvenile. */
  function Seat(young: seq<Plant>, resident: Option<Plant>, slot: nat): (r: seq<Plant>)
    ensures |r| == PA.Max(|young|, if resident.Some? then 1 else 0)
    ensures resident.Some? ==> resident.value in r
    ensures forall q :: q in r ==> Some(q) == resident || q in young
    ensures resident.None? ==> r == young
    ensures resident.Some? && |young| == 0 ==> r == [resident.value]
    ensures resident.Some? && |young| > 0 ==>
      && r[slot % |young|] == resident.value
      && forall k :: 0 <= k < |young| && k != slot % |young| ==> r[k] == young[k]
  {
    match resident
    case None => young
    case Some(ad) =>
      if |young| > 0 then
        var k := slot % |young|;
        assert young[k := ad][k] == ad;
        assert forall q :: q in young[k := ad] ==> q == ad || q in young;
        young[k := ad]
      else [ad]
  }

  /** Seating an adult resident among at most 50 juveniles gives a valid array. */
  lemma SeatValid(young: seq<Plant>, resident: Option<Plant>, slot: nat)
    requires |young| <= Capacity
    requires forall k :: 0 <= k < |young| ==> young[k].stage == Juvenile
    requires resident.Some? ==> resident.value.stage == Adult
    ensures Valid(PlantArray(resident, Seat(young, resident, slot)))
  {
    PA.CountStageZero(young, Adult);
    var r := Seat(young, resident, slot);
    if resident.Some? {
      var ad := resident.value;
      if |young| > 0 {
        var k := slot % |young|;
        PA.CountReplace(young, k, ad, ad.species.id, Adult);
        assert r == young[k := ad];
      } else {
        PA.CountSingleton(ad);
        assert r == [ad];
      }
    }
  }

  /** The adult elected when a new one must be picked and some adult grew this tick. */
  function Elect(p: Pass, pick: nat): (r: Option<Plant>)
    ensures r.Some? && p.reelect && p.resident.None? ==> r.value in p.kept && r.value.stage == Adult
    ensures !p.reelect ==> r == p.resident
  {
    var grown := Select(p.kept, Adult, true);
    if p.reelect && |grown| > 0 then
      assert grown[pick % |grown|] in grown;
      Some(grown[pick % |grown|])
    else p.resident
  }

  /**
   * `update` (simulation.py:447-479). Every plant takes its tick and the dead are dropped; a
   * surviving resident stays resident; when there was none or it died, the `pick`-th adult
   * grown this tick, if any, is elected. Every other adult is discarded, the juveniles are cut
   * to the first 50, and the resident overwrites the juvenile at the drawn `slot`, or is the
   * only plant when no juvenile is left.
   */
  function Update(a: PlantArray, nd: Dict<int>, draw: nat -> real, pick: nat, slot: nat): (r: PlantArray)
    ensures var young := Select(Kept(a.storage, |a.storage|, nd, draw), Adult, false);
      && |r.storage| == PA.Max(PA.Min(|young|, Capacity), if r.resident.Some? then 1 else 0)
      && (r.resident.Some? ==> r.resident.value in r.storage)
      && forall q :: q in r.storage ==> Some(q) == r.resident || q in young
    ensures var young := Select(Kept(a.storage, |a.storage|, nd, draw), Adult, false);
      var capped := young[..PA.Min(|young|, Capacity)];
      && (r.resident.None? ==> r.storage == capped)
      && (r.resident.Some? && |capped| == 0 ==> r.storage == [r.resident.value])
      && (r.resident.Some? && |capped| > 0 ==>
            && r.storage[slot % |capped|] == r.resident.value
            && forall k :: 0 <= k < |capped| && k != slot % |capped| ==> r.storage[k] == capped[k])
  {
    var p := PassUpTo(a.storage, |a.storage|, nd, draw, a.resident);
    PassKept(a.storage, |a.storage|, nd, draw, a.resident);
    var resident := Elect(p, pick);
    PlantArray(resident, Seat(Young(p.kept), resident, slot))
  }

  lemma {:induction false} PassKept(s: seq<Plant>, n: nat, nd: Dict<int>, draw: nat -> real, start: Option<Plant>)
    requires n <= |s|
    ensures PassUpTo(s, n, nd, draw, start).kept == Kept(s, n, nd, draw)
  {
    if n > 0 {
      PassKept(s, n - 1, nd, draw, start);
    }
  }

  /**
   * After `update` the storage holds at most 50 plants, no dead one, and its only Adult is the
   * resident, present exactly when there is one. This needs nothing of the array but a
   * resident that is an Adult: the update rebuilds the storage from scratch.
   */
  lemma UpdateValid(a: PlantArray, nd: Dict<int>, draw: nat -> real, pick: nat, slot: nat)
    requires a.resident.Some? ==> a.resident.value.stage == Adult
    ensures Valid(Update(a, nd, draw, pick, slot))
  {
    var s := a.storage;
    PassShape(s, |s|, nd, draw, a.resident);
    var p := PassUpTo(s, |s|, nd, draw, a.resident);
    var young := Young(p.kept);
    assert forall k :: 0 <= k < |young| ==> young[k] in young;
    SeatValid(young, Elect(p, pick), slot);
  }

  function ResidentIndex(a: PlantArray): (i: nat)
    requires Valid(a) && a.resident.Some?
    ensures i < |a.storage| && a.storage[i] == a.resident.value
  {
    PA.IndexOf(a.storage, a.resident.value)
  }

  /**
   * The resident policy of `update`: a resident that survives its tick stays, aged by one;
   * otherwise the new resident is the `pick`-th of the adults grown this tick, there is one
   * exactly when some juvenile grew up, and it is such a juvenile's outcome.
   */
  lemma UpdateResident(a: PlantArray, nd: Dict<int>, draw: nat -> real, pick: nat, slot: nat)
    requires Valid(a)
    ensures var r := Update(a, nd, draw, pick, slot);
      var grown := Select(Kept(a.storage, |a.storage|, nd, draw), Adult, true);
      if a.resident.Some? && Outcome(a.storage, ResidentIndex(a), nd, draw).stage != Dead then
        r.resident == Some(Outcome(a.storage, ResidentIndex(a), nd, draw))
      else
        && (r.resident.Some? <==> |grown| > 0)
        && (r.resident.Some? ==> r.resident.value == grown[pick % |grown|])
        && (r.resident.Some? ==> exists k :: 0 <= k < |a.storage| && a.storage[k].stage == Juvenile
                                              && r.resident.value == Outcome(a.storage, k, nd, draw))
  {
    var s := a.storage;
    PassKept(s, |s|, nd, draw, a.resident);
    var grown := Select(Kept(s, |s|, nd, draw), Adult, true);
    if a.resident.Some? {
      var i := ResidentIndex(a);
      PA.CountStageOne(s, Adult, i);
      PassResident(s, |s|, nd, draw, i);
      if Outcome(s, i, nd, draw).stage == Dead {
        GrownFromJuveniles(s, nd, draw);
        if |grown| > 0 {
          assert grown[pick % |grown|] in grown;
        }
      }
    } else {
      PassNoResident(s, |s|, nd, draw);
      PA.CountStageZero(s, Adult);
      GrownFromJuveniles(s, nd, draw);
      if |grown| > 0 {
        assert grown[pick % |grown|] in grown;
      }
    }
  }

  // ---------------------------------------------------------------------------------------
  // Tile and the neighbour maps (simulation.py:514-552, 654-674)

  /** The legacy `Tile`: the summary `plantData` of its array, and the array. */
  datatype Tile = Tile(plantData: Dict<int>, arr: PlantArray)

  /** `Tile.update` (simulation.py:540-552): update the array, summarise it with toDict, and
      produce the offspring of the new resident. */
  function TileUpdate(t: Tile, nd: Dict<int>, draw: nat -> real, pick: nat, slot: nat): (r: (Tile, PlantArray))
    ensures r.0.arr == Update(t.arr, nd, draw, pick, slot)
    ensures r.0.plantData == ToDict(r.0.arr)
    ensures r.1 == ProduceSeeds(r.0.arr)
  {
    var arr := Update(t.arr, nd, draw, pick, slot);
    (Tile(ToDict(arr), arr), ProduceSeeds(arr))
  }

  datatype Board = Board(
    length: int,                // boardLength
    time: int,                  // boardTime
    tiles: B.Grid<Tile>,        // board
    seeds: B.Grid<PlantArray>)  // seedBoard

  /** The eight offsets of `positions` (simulation.py:662), the cell itself left out. */
  const Ring: seq<(int, int)> := [(-1, -1), (-1, 0), (-1, 1), (0, -1), (0, 1), (1, -1), (1, 0), (1, 1)]

  /** Add every entry of `d` into `nd`, in order (simulation.py:668-672). */
  function Absorb(nd: Dict<int>, d: Dict<int>): Dict<int>
    decreases |d|
  {
    if |d| == 0 then nd else Absorb(AddTo(nd, d[0].0, d[0].1), d[1..])
  }

  /** Absorbing a toDict adds one adult of the resident's species, if any. */
  lemma AbsorbToDict(nd: Dict<int>, a: PlantArray)
    ensures Absorb(nd, ToDict(a)) == if a.resident.Some? then AddTo(nd, a.resident.value.species.id, 1) else nd
  {
    if a.resident.Some? {
      var d := ToDict(a);
      assert d == [(a.resident.value.species.id, 1)];
      assert d[1..] == [];
    }
  }

  /** The map of cell (i, j) after the first `m` offsets of the ring. */
  function Around(tiles: B.Grid<Tile>, n: int, i: int, j: int, m: nat): Dict<int>
    requires B.Square(tiles, n) && m <= |Ring|
  {
    if m == 0 then []
    else
      var x := i + Ring[m - 1].0;
      var y := j + Ring[m - 1].1;
      var nd := Around(tiles, n, i, j, m - 1);
      if B.OnBoard(n, x, y) then Absorb(nd, ToDict(tiles[x][y].arr)) else nd
  }

  /** The neighbour map of cell (i, j), `makeNeighborDicts()[i][j]`. */
  function NeighbourDict(b: Board, i: int, j: int): Dict<int>
    requires B.Square(b.tiles, b.length)
  {
    Around(b.tiles, b.length, i, j, |Ring|)
  }

  /** Reference definitions: among the first `m` ring cells of (i, j), the number on the
      board, the number holding a resident, and the number holding a resident of species
      `id`. */
  function CellsAround(n: int, i: int, j: int, m: nat): nat
    requires m <= |Ring|
  {
    if m == 0 then 0
    else CellsAround(n, i, j, m - 1) + B.Ind(B.OnBoard(n, i + Ring[m - 1].0, j + Ring[m - 1].1))
  }

  function OccupiedAround(tiles: B.Grid<Tile>, n: int, i: int, j: int, m: nat): nat
    requires B.Square(tiles, n) && m <= |Ring|
  {
    if m == 0 then 0
    else
      var x := i + Ring[m - 1].0;
      var y := j + Ring[m - 1].1;
      OccupiedAround(tiles, n, i, j, m - 1) + B.Ind(B.OnBoard(n, x, y) && tiles[x][y].arr.resident.Some?)
  }

  function ResidentsAround(tiles: B.Grid<Tile>, n: int, i: int, j: int, m: nat, id: int): nat
    requires B.Square(tiles, n) && m <= |Ring|
  {
    if m == 0 then 0
    else
      var x := i + Ring[m - 1].0;
      var y := j + Ring[m - 1].1;
      ResidentsAround(tiles, n, i, j, m - 1, id)
        + B.Ind(B.OnBoard(n, x, y) && tiles[x][y].arr.resident.Some? && tiles[x][y].arr.resident.value.species.id == id)
  }

  lemma {:induction false} AroundCounts(tiles: B.Grid<Tile>, n: int, i: int, j: int, m: nat, id: int)
    requires B.Square(tiles, n) && m <= |Ring|
    ensures Get0(Around(tiles, n, i, j, m), id) == ResidentsAround(tiles, n, i, j, m, id)
    ensures Sum(Around(tiles, n, i, j, m)) == OccupiedAround(tiles, n, i, j, m)
    ensures ResidentsAround(tiles, n, i, j, m, id) <= OccupiedAround(tiles, n, i, j, m) <= CellsAround(n, i, j, m)
  {
    if m == 0 {
      assert Around(tiles, n, i, j, 0) == [];
    } else {
      AroundCounts(tiles, n, i, j, m - 1, id);
      AroundStep(tiles, n, i, j, m, id);
    }
  }

  /** Absorbing one more cell of the ring keeps the map's counts equal to the cell counts. */
  lemma AroundStep(tiles: B.Grid<Tile>, n: int, i: int, j: int, m: nat, id: int)
    requires B.Square(tiles, n) && 0 < m <= |Ring|
    requires Get0(Around(tiles, n, i, j, m - 1), id) == ResidentsAround(tiles, n, i, j, m - 1, id)
    requires Sum(Around(tiles, n, i, j, m - 1)) == OccupiedAround(tiles, n, i, j, m - 1)
    requires ResidentsAround(tiles, n, i, j, m - 1, id) <= OccupiedAround(tiles, n, i, j, m - 1) <= CellsAround(n, i, j, m - 1)
    ensures Get0(Around(tiles, n, i, j, m), id) == ResidentsAround(tiles, n, i, j, m, id)
    ensures Sum(Around(tiles, n, i, j, m)) == OccupiedAround(tiles, n, i, j, m)
    ensures ResidentsAround(tiles, n, i, j, m, id) <= OccupiedAround(tiles, n, i, j, m) <= CellsAround(n, i, j, m)
  {
    var x := i + Ring[m - 1].0;
    var y := j + Ring[m - 1].1;
    var nd := Around(tiles, n, i, j, m - 1);
    var r0, o0, c0 := ResidentsAround(tiles, n, i, j, m - 1, id), OccupiedAround(tiles, n, i, j, m - 1), CellsAround(n, i, j, m - 1);
    if !B.OnBoard(n, x, y) {
      assert Around(tiles, n, i, j, m) == nd;
      assert ResidentsAround(tiles, n, i, j, m, id) == r0;
      assert OccupiedAround(tiles, n, i, j, m) == o0;
      assert CellsAround(n, i, j, m) == c0;
    } else {
      var a := tiles[x][y].arr;
      AbsorbToDict(nd, a);
      assert Around(tiles, n, i, j, m) == Absorb(nd, ToDict(a));
      assert CellsAround(n, i, j, m) == c0 + 1;
      if a.resident.None? {
        assert ResidentsAround(tiles, n, i, j, m, id) == r0;
        assert OccupiedAround(tiles, n, i, j, m) == o0;
      } else {
        var k := a.resident.value.species.id;
        assert ResidentsAround(tiles, n, i, j, m, id) == r0 + B.Ind(k == id);
        assert OccupiedAround(tiles, n, i, j, m) == o0 + 1;
        assert Get0(AddTo(nd, k, 1), id) == Get0(nd, id) + B.Ind(k == id);
      }
    }
  }

  /**
   * The neighbour map of (i, j) counts, per species, the resident adults of the on-board
   * cells among the eight around it; its total is the number of occupied such cells, at most
   * their number. So the crowding of a plant of species `id` is that species' count and the
   * count of the other occupied cells around.
   */
  lemma NeighbourDictCounts(b: Board, i: int, j: int, id: int)
    requires B.Square(b.tiles, b.length)
    ensures var nd := NeighbourDict(b, i, j);
      && Get0(nd, id) == ResidentsAround(b.tiles, b.length, i, j, |Ring|, id)
      && Sum(nd) == OccupiedAround(b.tiles, b.length, i, j, |Ring|)
      && Crowding(nd, id) == (ResidentsAround(b.tiles, b.length, i, j, |Ring|, id),
                              OccupiedAround(b.tiles, b.length, i, j, |Ring|) - ResidentsAround(b.tiles, b.length, i, j, |Ring|, id))
      && Sum(nd) <= CellsAround(b.length, i, j, |Ring|) <= 8
  {
    AroundCounts(b.tiles, b.length, i, j, |Ring|, id);
    RingCells(b.length, i, j);
  }

  lemma IndAnd(p: bool, q: bool)
    ensures B.Ind(p && q) == B.Ind(p) * B.Ind(q)
  {
  }

  /** The ring is the clipped 3x3 block without its centre: Span(n, i) * Span(n, j) - 1
      cells, so 3 at a corner, 5 on the rest of the edge and 8 inside. */
  lemma RingCells(n: int, i: int, j: int)
    ensures CellsAround(n, i, j, |Ring|) <= 8
    ensures B.OnBoard(n, i, j) ==> CellsAround(n, i, j, |Ring|) == B.Span(n, i) * B.Span(n, j) - 1
  {
    RingUnfold(n, i, j);
    if B.OnBoard(n, i, j) {
      RingOnBoard(n, i, j);
    }
  }

  lemma RingOnBoard(n: int, i: int, j: int)
    requires B.OnBoard(n, i, j)
    ensures CellsAround(n, i, j, |Ring|) == B.Span(n, i) * B.Span(n, j) - 1
  {
    RingUnfold(n, i, j);
    var a1, a3 := B.Ind(0 <= i - 1 < n), B.Ind(0 <= i + 1 < n);
    var b1, b3 := B.Ind(0 <= j - 1 < n), B.Ind(0 <= j + 1 < n);
    var c11, c13 := B.Ind(B.OnBoard(n, i - 1, j - 1)), B.Ind(B.OnBoard(n, i - 1, j + 1));
    var c31, c33 := B.Ind(B.OnBoard(n, i + 1, j - 1)), B.Ind(B.OnBoard(n, i + 1, j + 1));
    assert c11 == a1 * b1 by { IndAnd(0 <= i - 1 < n, 0 <= j - 1 < n); }
    assert c13 == a1 * b3 by { IndAnd(0 <= i - 1 < n, 0 <= j + 1 < n); }
    assert c31 == a3 * b1 by { IndAnd(0 <= i + 1 < n, 0 <= j - 1 < n); }
    assert c33 == a3 * b3 by { IndAnd(0 <= i + 1 < n, 0 <= j + 1 < n); }
    assert B.Ind(B.OnBoard(n, i - 1, j)) == a1 && B.Ind(B.OnBoard(n, i + 1, j)) == a3;
    assert B.Ind(B.OnBoard(n, i, j - 1)) == b1 && B.Ind(B.OnBoard(n, i, j + 1)) == b3;
    RingProduct(B.Span(n, i), B.Span(n, j), a1, a3, b1, b3, c11, c13, c31, c33);
  }

  /** The ring count written out over its eight positions. */
  lemma RingUnfold(n: int, i: int, j: int)
    ensures CellsAround(n, i, j, |Ring|) ==
      B.Ind(B.OnBoard(n, i - 1, j - 1)) + B.Ind(B.OnBoard(n, i - 1, j)) + B.Ind(B.OnBoard(n, i - 1, j + 1))
      + B.Ind(B.OnBoard(n, i, j - 1)) + B.Ind(B.OnBoard(n, i, j + 1))
      + B.Ind(B.OnBoard(n, i + 1, j - 1)) + B.Ind(B.OnBoard(n, i + 1, j)) + B.Ind(B.OnBoard(n, i + 1, j + 1))
  {
    assert Ring[0] == (-1, -1) && Ring[1] == (-1, 0) && Ring[2] == (-1, 1) && Ring[3] == (0, -1);
    assert Ring[4] == (0, 1) && Ring[5] == (1, -1) && Ring[6] == (1, 0) && Ring[7] == (1, 1);
    var c11, c12, c13 := B.Ind(B.OnBoard(n, i - 1, j - 1)), B.Ind(B.OnBoard(n, i - 1, j)), B.Ind(B.OnBoard(n, i - 1, j + 1));
    var c21, c23 := B.Ind(B.OnBoard(n, i, j - 1)), B.Ind(B.OnBoard(n, i, j + 1));
    var c31, c32, c33 := B.Ind(B.OnBoard(n, i + 1, j - 1)), B.Ind(B.OnBoard(n, i + 1, j)), B.Ind(B.OnBoard(n, i + 1, j + 1));
    assert CellsAround(n, i, j, 1) == c11;
    assert CellsAround(n, i, j, 2) == c11 + c12;
    assert CellsAround(n, i, j, 3) == c11 + c12 + c13;
    assert CellsAround(n, i, j, 4) == c11 + c12 + c13 + c21;
    assert CellsAround(n, i, j, 5) == c11 + c12 + c13 + c21 + c23;
    assert CellsAround(n, i, j, 6) == c11 + c12 + c13 + c21 + c23 + c31;
    assert CellsAround(n, i, j, 7) == c11 + c12 + c13 + c21 + c23 + c31 + c32;
  }

  lemma RingProduct(si: int, sj: int, a1: int, a3: int, b1: int, b3: int, c11: int, c13: int, c31: int, c33: int)
    requires si == a1 + 1 + a3 && sj == b1 + 1 + b3
    requires c11 == a1 * b1 && c13 == a1 * b3 && c31 == a3 * b1 && c33 == a3 * b3
    ensures si * sj - 1 == c11 + a1 + c13 + b1 + b3 + c31 + a3 + c33
  {
  }

  /** Cells that agree off (i, j) give (i, j) the same ring map. */
  lemma {:induction false} AroundLocal(t1: B.Grid<Tile>, t2: B.Grid<Tile>, n: int, i: int, j: int, m: nat)
    requires B.Square(t1, n) && B.Square(t2, n) && m <= |Ring|
    requires forall x, y :: B.OnBoard(n, x, y) && (x, y) != (i, j) ==> t1[x][y] == t2[x][y]
    ensures Around(t1, n, i, j, m) == Around(t2, n, i, j, m)
  {
    if m > 0 {
      AroundLocal(t1, t2, n, i, j, m - 1);
      var x := i + Ring[m - 1].0;
      var y := j + Ring[m - 1].1;
      assert Ring[m - 1] in Ring;
      if B.OnBoard(n, x, y) {
        assert (x, y) != (i, j);
        assert t1[x][y] == t2[x][y];
      }
    }
  }

  /** The cell itself is not part of its neighbourhood: replacing its own tile leaves its
      map unchanged. */
  lemma NeighbourDictExcludesSelf(b: Board, i: int, j: int, t: Tile)
    requires B.Square(b.tiles, b.length) && B.OnBoard(b.length, i, j)
    ensures NeighbourDict(b.(tiles := b.tiles[i := b.tiles[i][j := t]]), i, j) == NeighbourDict(b, i, j)
  {
    var t2 := b.tiles[i := b.tiles[i][j := t]];
    AroundLocal(t2, b.tiles, b.length, i, j, |Ring|);
  }

  // ---------------------------------------------------------------------------------------
  // Board.update (simulation.py:676-703)

  /** The random choices of one tick, each named by the cell and plant it serves. */
  datatype TickOracle = TickOracle(
    draw: (int, int, nat) -> real,          // survival draw of the k-th plant of cell (i, j)
    pick: (int, int) -> nat,                // randint electing a new adult in cell (i, j)
    slot: (int, int) -> nat,                // randint of the juvenile the resident replaces
    choice: (int, int, nat) -> (nat, nat),  // random.choice indices of the k-th offspring's offsets
    mergeSlot: (int, int, nat) -> nat)      // eviction randint of the k-th plant merged into (i, j)

  /** `random.choice([-1, 0, 1])` with the drawn index `c`. */
  function Offset(c: nat): (r: int)
    ensures -1 <= r <= 1
  {
    [-1, 0, 1][c % 3]
  }

  /** A staging cell: no resident, juveniles only, within the cap. */
  predicate SeedCell(s: PlantArray)
  {
    && s.resident.None? && |s.storage| <= Capacity
    && forall k :: 0 <= k < |s.storage| ==> s.storage[k].stage == Juvenile
  }

  ghost predicate SeedGrid(g: B.Grid<PlantArray>, n: int)
  {
    B.Square(g, n) && forall x, y :: B.OnBoard(n, x, y) ==> SeedCell(g[x][y])
  }

  /** `a2` holds what `a` holds, in place, and possibly more after it. */
  predicate Extends(a: PlantArray, a2: PlantArray)
  {
    |a.storage| <= |a2.storage| && a2.storage[..|a.storage|] == a.storage
  }

  /** Every cell of `g2` extends the same cell of `g`. */
  ghost predicate Grows(g: B.Grid<PlantArray>, g2: B.Grid<PlantArray>, n: int)
  {
    B.Square(g, n) && B.Square(g2, n) && forall x, y :: B.OnBoard(n, x, y) ==> Extends(g[x][y], g2[x][y])
  }

  lemma GrowsRefl(g: B.Grid<PlantArray>, n: int)
    requires B.Square(g, n)
    ensures Grows(g, g, n)
  {
    forall x, y | B.OnBoard(n, x, y) ensures Extends(g[x][y], g[x][y]) {
      assert g[x][y].storage[..|g[x][y].storage|] == g[x][y].storage;
    }
  }

  lemma ExtendsTrans(a1: PlantArray, a2: PlantArray, a3: PlantArray)
    requires Extends(a1, a2) && Extends(a2, a3)
    ensures Extends(a1, a3)
  {
    assert a3.storage[..|a1.storage|] == a3.storage[..|a2.storage|][..|a1.storage|];
  }

  lemma GrowsTrans(g1: B.Grid<PlantArray>, g2: B.Grid<PlantArray>, g3: B.Grid<PlantArray>, n: int)
    requires Grows(g1, g2, n) && Grows(g2, g3, n)
    ensures Grows(g1, g3, n)
  {
    forall x, y | B.OnBoard(n, x, y) ensures Extends(g1[x][y], g3[x][y]) {
      ExtendsTrans(g1[x][y], g2[x][y], g3[x][y]);
    }
  }

  /** Stage offspring `p` at (x, y) through addPlant when (x, y) is on the board, and
      discard it otherwise (simulation.py:697-699). Offspring are juveniles, so no eviction
      index is drawn for them. */
  function Place(g: B.Grid<PlantArray>, n: int, x: int, y: int, p: Plant): (r: B.Grid<PlantArray>)
    requires B.Square(g, n)
    ensures B.Square(r, n)
    ensures !B.OnBoard(n, x, y) ==> r == g
    ensures B.OnBoard(n, x, y) ==> forall a, c :: B.OnBoard(n, a, c) ==>
      r[a][c] == if (a, c) == (x, y) then AddPlant(g[x][y], p, 0) else g[a][c]
  {
    if B.OnBoard(n, x, y) then g[x := g[x][y := AddPlant(g[x][y], p, 0)]] else g
  }

  /** Staging a juvenile keeps every staging cell acceptable and removes nothing. */
  lemma PlaceOk(g: B.Grid<PlantArray>, n: int, x: int, y: int, p: Plant)
    requires SeedGrid(g, n) && p.stage == Juvenile
    ensures SeedGrid(Place(g, n, x, y, p), n) && Grows(g, Place(g, n, x, y, p), n)
  {
    var r := Place(g, n, x, y, p);
    forall a, c | B.OnBoard(n, a, c) ensures SeedCell(r[a][c]) && Extends(g[a][c], r[a][c]) {
      var s := g[a][c];
      if B.OnBoard(n, x, y) && (a, c) == (x, y) {
        if |s.storage| < Capacity {
          assert r[a][c].storage == s.storage + [p];
          assert r[a][c].storage[..|s.storage|] == s.storage;
        } else {
          assert r[a][c] == s;
          assert s.storage[..|s.storage|] == s.storage;
        }
      } else {
        assert s.storage[..|s.storage|] == s.storage;
      }
    }
  }

  /** Stage the first `m` offspring `ps` of cell (i, j) at their drawn offsets. */
  function StageCell(g: B.Grid<PlantArray>, n: int, i: int, j: int, ps: seq<Plant>, m: nat, o: TickOracle): (r: B.Grid<PlantArray>)
    requires B.Square(g, n) && m <= |ps|
    ensures B.Square(r, n)
  {
    if m == 0 then g
    else
      var d := o.choice(i, j, m - 1);
      Place(StageCell(g, n, i, j, ps, m - 1, o), n, i + Offset(d.0), j + Offset(d.1), ps[m - 1])
  }

  lemma {:induction false} StageCellOk(g: B.Grid<PlantArray>, n: int, i: int, j: int, ps: seq<Plant>, m: nat, o: TickOracle)
    requires SeedGrid(g, n) && m <= |ps|
    requires forall k :: 0 <= k < |ps| ==> ps[k].stage == Juvenile
    ensures SeedGrid(StageCell(g, n, i, j, ps, m, o), n) && Grows(g, StageCell(g, n, i, j, ps, m, o), n)
  {
    if m == 0 {
      assert StageCell(g, n, i, j, ps, 0, o) == g;
      GrowsRefl(g, n);
    } else {
      StageCellOk(g, n, i, j, ps, m - 1, o);
      var g1 := StageCell(g, n, i, j, ps, m - 1, o);
      StageOneOk(g, n, i, j, ps, m, o);
      GrowsTrans(g, g1, StageCell(g, n, i, j, ps, m, o), n);
    }
  }

  /** Staging the m-th offspring keeps the seed grid and only adds to it. */
  lemma StageOneOk(g: B.Grid<PlantArray>, n: int, i: int, j: int, ps: seq<Plant>, m: nat, o: TickOracle)
    requires B.Square(g, n) && 0 < m <= |ps| && ps[m - 1].stage == Juvenile
    requires SeedGrid(StageCell(g, n, i, j, ps, m - 1, o), n)
    ensures var g1 := StageCell(g, n, i, j, ps, m - 1, o);
      SeedGrid(StageCell(g, n, i, j, ps, m, o), n) && Grows(g1, StageCell(g, n, i, j, ps, m, o), n)
  {
    var g1 := StageCell(g, n, i, j, ps, m - 1, o);
    var d := o.choice(i, j, m - 1);
    var g2 := Place(g1, n, i + Offset(d.0), j + Offset(d.1), ps[m - 1]);
    assert StageCell(g, n, i, j, ps, m, o) == g2;
    assert SeedGrid(g2, n) && Grows(g1, g2, n) by {
      PlaceOk(g1, n, i + Offset(d.0), j + Offset(d.1), ps[m - 1]);
    }
  }

  /** Stage the offspring of cells (i, 0), ..., (i, m - 1). */
  function StageRow(g: B.Grid<PlantArray>, offs: B.Grid<seq<Plant>>, n: int, i: int, m: int, o: TickOracle): (r: B.Grid<PlantArray>)
    requires B.Square(g, n) && B.Square(offs, n) && 0 <= i < n && m <= n
    ensures B.Square(r, n)
    decreases m
  {
    if m <= 0 then g
    else
      var ps := offs[i][m - 1];
      StageCell(StageRow(g, offs, n, i, m - 1, o), n, i, m - 1, ps, |ps|, o)
  }

  /** Stage the offspring of the first `m` rows, in the row-major order of the loop. */
  function StageRows(g: B.Grid<PlantArray>, offs: B.Grid<seq<Plant>>, n: int, m: int, o: TickOracle): (r: B.Grid<PlantArray>)
    requires B.Square(g, n) && B.Square(offs, n) && m <= n
    ensures B.Square(r, n)
    decreases m
  {
    if m <= 0 then g
    else StageRow(StageRows(g, offs, n, m - 1, o), offs, n, m - 1, n, o)
  }

  /** Every cell's offspring are juveniles. */
  ghost predicate BroodsOk(offs: B.Grid<seq<Plant>>, n: int)
  {
    B.Square(offs, n) && forall x, y, k :: B.OnBoard(n, x, y) && 0 <= k < |offs[x][y]| ==> offs[x][y][k].stage == Juvenile
  }

  lemma {:induction false} StageRowOk(g: B.Grid<PlantArray>, offs: B.Grid<seq<Plant>>, n: int, i: int, m: int, o: TickOracle)
    requires SeedGrid(g, n) && BroodsOk(offs, n) && 0 <= i < n && m <= n
    ensures SeedGrid(StageRow(g, offs, n, i, m, o), n) && Grows(g, StageRow(g, offs, n, i, m, o), n)
    decreases m
  {
    if m <= 0 {
      assert StageRow(g, offs, n, i, m, o) == g;
      GrowsRefl(g, n);
    } else {
      StageRowOk(g, offs, n, i, m - 1, o);
      var g1 := StageRow(g, offs, n, i, m - 1, o);
      var ps := offs[i][m - 1];
      var g2 := StageCell(g1, n, i, m - 1, ps, |ps|, o);
      assert StageRow(g, offs, n, i, m, o) == g2;
      assert SeedGrid(g2, n) && Grows(g1, g2, n) by {
        assert forall k :: 0 <= k < |ps| ==> ps[k].stage == Juvenile;
        StageCellOk(g1, n, i, m - 1, ps, |ps|, o);
      }
      GrowsTrans(g, g1, g2, n);
    }
  }

  lemma {:induction false} StageRowsOk(g: B.Grid<PlantArray>, offs: B.Grid<seq<Plant>>, n: int, m: int, o: TickOracle)
    requires SeedGrid(g, n) && BroodsOk(offs, n) && m <= n
    ensures SeedGrid(StageRows(g, offs, n, m, o), n) && Grows(g, StageRows(g, offs, n, m, o), n)
    decreases m
  {
    if m <= 0 {
      assert StageRows(g, offs, n, m, o) == g;
      GrowsRefl(g, n);
    } else {
      StageRowsOk(g, offs, n, m - 1, o);
      var g1 := StageRows(g, offs, n, m - 1, o);
      var g2 := StageRow(g1, offs, n, m - 1, n, o);
      assert StageRows(g, offs, n, m, o) == g2;
      StageRowOk(g1, offs, n, m - 1, n, o);
      GrowsTrans(g, g1, g2, n);
    }
  }

  /** The neighbour maps of all cells, each from the board as given: `makeNeighborDicts`,
      called before any tile changes. */
  function NeighbourMaps(b: Board): (r: B.Grid<Dict<int>>)
    requires B.Square(b.tiles, b.length)
    ensures B.Square(r, b.length)
  {
    seq(b.length, i => seq(b.length, j => NeighbourDict(b, i, j)))
  }

  /** Every cell advanced against its map. */
  function Advanced(b: Board, maps: B.Grid<Dict<int>>, o: TickOracle): (r: B.Grid<(Tile, PlantArray)>)
    requires B.Square(b.tiles, b.length) && B.Square(maps, b.length)
    ensures B.Square(r, b.length)
  {
    var n := b.length;
    seq(n, i requires 0 <= i < n => seq(n, j requires 0 <= j < n =>
      TileUpdate(b.tiles[i][j], maps[i][j], (k: nat) => o.draw(i, j, k), o.pick(i, j), o.slot(i, j))))
  }

  lemma AdvancedAt(b: Board, maps: B.Grid<Dict<int>>, o: TickOracle, i: int, j: int)
    requires B.Square(b.tiles, b.length) && B.Square(maps, b.length) && B.OnBoard(b.length, i, j)
    ensures Advanced(b, maps, o)[i][j] == TileUpdate(b.tiles[i][j], maps[i][j], (k: nat) => o.draw(i, j, k), o.pick(i, j), o.slot(i, j))
  {
  }

  /** The offspring of every advanced cell. */
  function Broods(adv: B.Grid<(Tile, PlantArray)>, n: int): (r: B.Grid<seq<Plant>>)
    requires B.Square(adv, n)
    ensures B.Square(r, n)
    ensures forall i, j :: B.OnBoard(n, i, j) ==> r[i][j] == adv[i][j].1.storage
  {
    seq(n, i requires 0 <= i < n => seq(n, j requires 0 <= j < n => adv[i][j].1.storage))
  }

  lemma OffspringOk(b: Board, maps: B.Grid<Dict<int>>, o: TickOracle)
    requires B.Square(b.tiles, b.length) && B.Square(maps, b.length)
    ensures BroodsOk(Broods(Advanced(b, maps, o), b.length), b.length)
  {
    forall x, y | B.OnBoard(b.length, x, y)
      ensures forall k :: 0 <= k < |Broods(Advanced(b, maps, o), b.length)[x][y]| ==>
        Broods(Advanced(b, maps, o), b.length)[x][y][k].stage == Juvenile
    {
      AdvancedAt(b, maps, o, x, y);
    }
  }

  /** Tile (i, j) after the tick: the advanced tile with its staging cell merged in. The
      merge does not refresh `plantData`, which keeps the summary taken before it. */
  function Merged(adv: B.Grid<(Tile, PlantArray)>, staged: B.Grid<PlantArray>, n: int, o: TickOracle, i: int, j: int): Tile
    requires B.Square(adv, n) && B.Square(staged, n) && B.OnBoard(n, i, j)
  {
    Tile(adv[i][j].0.plantData, MergeArray(adv[i][j].0.arr, staged[i][j], k => o.mergeSlot(i, j, k)))
  }

  function MergedGrid(adv: B.Grid<(Tile, PlantArray)>, staged: B.Grid<PlantArray>, n: int, o: TickOracle): (r: B.Grid<Tile>)
    requires B.Square(adv, n) && B.Square(staged, n)
    ensures B.Square(r, n)
  {
    seq(n, i requires 0 <= i < n => seq(n, j requires 0 <= j < n => Merged(adv, staged, n, o, i, j)))
  }

  /** The board after one tick, given the neighbour maps. */
  function Next(b: Board, maps: B.Grid<Dict<int>>, o: TickOracle): (r: Board)
    requires B.Square(b.tiles, b.length) && B.Square(b.seeds, b.length) && B.Square(maps, b.length)
    ensures r.time == b.time + 1 && r.length == b.length
    ensures B.Square(r.tiles, b.length) && B.Square(r.seeds, b.length)
  {
    var adv := Advanced(b, maps, o);
    var staged := StageRows(b.seeds, Broods(adv, b.length), b.length, b.length, o);
    Board(b.length, b.time + 1, MergedGrid(adv, staged, b.length, o), staged)
  }

  /**
   * `Board.update`, one tick: the clock advanced, all neighbour maps from the board as given,
   * every tile advanced and its offspring staged in row-major order, then every staging cell
   * merged into its tile. The staging board is carried over as it is, never emptied.
   */
  function Tick(b: Board, o: TickOracle): (r: Board)
    requires B.Square(b.tiles, b.length) && B.Square(b.seeds, b.length)
    ensures r.time == b.time + 1 && r.length == b.length
    ensures B.Square(r.tiles, b.length) && B.Square(r.seeds, b.length)
  {
    Next(b, NeighbourMaps(b), o)
  }

  /** The invariant of the legacy board: square grids, valid tiles, acceptable staging
      cells. */
  ghost predicate BoardValid(b: Board)
  {
    && B.Square(b.tiles, b.length) && SeedGrid(b.seeds, b.length)
    && forall i, j :: B.OnBoard(b.length, i, j) ==> Valid(b.tiles[i][j].arr)
  }

  /** Advancing a valid array and merging a staging cell into it yields a valid array. */
  lemma AdvanceMergeOk(t: Tile, nd: Dict<int>, draw: nat -> real, pick: nat, slot: nat, src: PlantArray, mslot: nat -> nat)
    requires Valid(t.arr) && SeedCell(src)
    ensures Valid(MergeArray(TileUpdate(t, nd, draw, pick, slot).0.arr, src, mslot))
  {
    UpdateValid(t.arr, nd, draw, pick, slot);
    assert forall k :: 0 <= k < |src.storage| ==> src.storage[k].stage != Dead;
    MergeArrayValid(TileUpdate(t, nd, draw, pick, slot).0.arr, src, mslot);
  }

  /**
   * A tick keeps the board invariant: every tile still holds at most 50 plants and at most
   * one adult, its resident; every staging cell holds juveniles only, within the cap; and
   * every staging cell still holds all it held before, in place.
   */
  lemma TickValid(b: Board, o: TickOracle)
    requires BoardValid(b)
    ensures BoardValid(Tick(b, o))
    ensures Grows(b.seeds, Tick(b, o).seeds, b.length)
  {
    var n := b.length;
    var maps := NeighbourMaps(b);
    var adv := Advanced(b, maps, o);
    OffspringOk(b, maps, o);
    StageRowsOk(b.seeds, Broods(adv, n), n, n, o);
    var staged := StageRows(b.seeds, Broods(adv, n), n, n, o);
    var r := Tick(b, o);
    forall i, j | B.OnBoard(n, i, j) ensures Valid(r.tiles[i][j].arr) {
      assert r.tiles[i][j] == Merged(adv, staged, n, o, i, j);
      AdvancedAt(b, maps, o, i, j);
      AdvanceMergeOk(b.tiles[i][j], maps[i][j], (k: nat) => o.draw(i, j, k), o.pick(i, j), o.slot(i, j),
        staged[i][j], k => o.mergeSlot(i, j, k));
    }
  }

  /** The staging board is never cleared: a staged juvenile is offered to its tile again on
      every later tick. */
  lemma StagingNeverCleared(b: Board, o: TickOracle, x: int, y: int)
    requires BoardValid(b) && B.OnBoard(b.length, x, y)
    ensures |b.seeds[x][y].storage| <= |Tick(b, o).seeds[x][y].storage|
    ensures forall k :: 0 <= k < |b.seeds[x][y].storage| ==> Tick(b, o).seeds[x][y].storage[k] == b.seeds[x][y].storage[k]
  {
    TickValid(b, o);
    ExtendsKeeps(b.seeds[x][y], Tick(b, o).seeds[x][y]);
  }

  /** An extended array keeps every plant it had, in place. */
  lemma ExtendsKeeps(a: PlantArray, a2: PlantArray)
    requires Extends(a, a2)
    ensures |a.storage| <= |a2.storage|
    ensures forall k :: 0 <= k < |a.storage| ==> a2.storage[k] == a.storage[k]
  {
    assert forall k :: 0 <= k < |a.storage| ==> a2.storage[k] == a2.storage[..|a.storage|][k];
  }
}
