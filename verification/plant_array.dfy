/**
 * The per-cell population of simulation_utils/plants.py: a capacity-bounded list of plants
 * holding at most one resident Adult, with an incrementally patched cache
 * {speciesID: [adultCount, juvenileCount]} (`dictionaryFormat`).
 *
 * The pair hasAdult/currentAdult, which the source always sets and clears together, is the
 * single field `resident` (hasAdult == resident.Some?). Every random choice is a parameter:
 * survival draws `draw(k)` for the k-th stored plant, and `randint` indices taken modulo
 * the length of the list they index.
 *
 * Where the source patches the cache or elects an adult incorrectly, the model keeps the
 * source's behaviour in a member named ...AsWritten, exhibits the discrepancy, and uses the
 * corrected definition everywhere else.
 */
module PlantArray {
  import opened Options
  import opened Dicts
  import opened Species
  import opened Plants

  datatype Counts = Counts(adults: int, juveniles: int)

  datatype PlantArray = PlantArray(
    resident: Option<Plant>,  // hasAdult / currentAdult
    storage: seq<Plant>,
    limit: int,               // storageLimit
    cache: Dict<Counts>)      // dictionaryFormat

  /** `PlantArray(storageLimit)`, and `clear()`, which returns a fresh one. */
  function Empty(limit: int): PlantArray
  {
    PlantArray(None, [], limit, [])
  }

  function Clear(a: PlantArray): (r: PlantArray)
    ensures r.storage == [] && r.resident == None && r.cache == []
    ensures r.limit == a.limit
  {
    Empty(a.limit)
  }

  // ---------------------------------------------------------------------------------------
  // Recounting the storage

  /** Number of plants in `s` of species `id` at stage `st`. */
  function CountOf(s: seq<Plant>, id: int, st: Stage): nat
  {
    if |s| == 0 then 0
    else CountOf(s[..|s| - 1], id, st) + (if s[|s| - 1].species.id == id && s[|s| - 1].stage == st then 1 else 0)
  }

  /** Number of plants in `s` at stage `st`, whatever their species. */
  function CountStage(s: seq<Plant>, st: Stage): nat
  {
    if |s| == 0 then 0
    else CountStage(s[..|s| - 1], st) + (if s[|s| - 1].stage == st then 1 else 0)
  }

  lemma CountAppend(s: seq<Plant>, p: Plant)
    ensures forall id, st :: CountOf(s + [p], id, st) == CountOf(s, id, st) + (if p.species.id == id && p.stage == st then 1 else 0)
    ensures forall st :: CountStage(s + [p], st) == CountStage(s, st) + (if p.stage == st then 1 else 0)
  {
    assert (s + [p])[..|s|] == s;
  }

  lemma {:induction false} CountReplace(s: seq<Plant>, i: nat, p: Plant, id: int, st: Stage)
    requires i < |s|
    ensures CountOf(s[i := p], id, st) == CountOf(s, id, st)
      - (if s[i].species.id == id && s[i].stage == st then 1 else 0)
      + (if p.species.id == id && p.stage == st then 1 else 0)
    ensures CountStage(s[i := p], st) == CountStage(s, st) - (if s[i].stage == st then 1 else 0) + (if p.stage == st then 1 else 0)
  {
    var n := |s|;
    if i == n - 1 {
      assert s[i := p][..n - 1] == s[..n - 1];
    } else {
      CountReplace(s[..n - 1], i, p, id, st);
      assert s[i := p][..n - 1] == s[..n - 1][i := p];
    }
  }

  lemma {:induction false} CountOfBelowStage(s: seq<Plant>, id: int, st: Stage)
    ensures CountOf(s, id, st) <= CountStage(s, st)
  {
    if |s| > 0 {
      CountOfBelowStage(s[..|s| - 1], id, st);
    }
  }

  lemma {:induction false} CountStageZero(s: seq<Plant>, st: Stage)
    ensures CountStage(s, st) == 0 <==> forall k :: 0 <= k < |s| ==> s[k].stage != st
  {
    if |s| > 0 {
      CountStageZero(s[..|s| - 1], st);
    }
  }

  lemma {:induction false} CountStagePresent(s: seq<Plant>, i: nat)
    requires i < |s|
    ensures CountStage(s, s[i].stage) > 0
  {
    if i < |s| - 1 {
      CountStagePresent(s[..|s| - 1], i);
    }
  }

  /** The only plant at a stage counted once is the one found there. */
  lemma {:induction false} CountStageOne(s: seq<Plant>, st: Stage, i: nat)
    requires i < |s| && s[i].stage == st
    requires CountStage(s, st) == 1
    ensures forall k :: 0 <= k < |s| && k != i ==> s[k].stage != st
  {
    var n := |s|;
    var pre := s[..n - 1];
    assert forall k :: 0 <= k < n - 1 ==> s[k] == pre[k];
    if i == n - 1 {
      CountStageZero(pre, st);
    } else {
      CountStagePresent(pre, i);
      CountStageOne(pre, st, i);
    }
  }

  lemma CountSingleton(p: Plant)
    ensures forall id, st :: CountOf([p], id, st) == if p.species.id == id && p.stage == st then 1 else 0
    ensures forall st :: CountStage([p], st) == if p.stage == st then 1 else 0
  {
    assert [p][..0] == [];
  }

  lemma {:induction false} CountOfPresent(s: seq<Plant>, i: nat)
    requires i < |s|
    ensures CountOf(s, s[i].species.id, s[i].stage) > 0
  {
    if i < |s| - 1 {
      CountOfPresent(s[..|s| - 1], i);
    }
  }

  /** What a recount of `s` gives for species `id`. */
  function CountsOf(s: seq<Plant>, id: int): Counts
  {
    Counts(CountOf(s, id, Adult), CountOf(s, id, Juvenile))
  }

  /** The cache entry of `id`, reading an absent key as [0, 0]. */
  function CacheAt(c: Dict<Counts>, id: int): Counts
  {
    match Lookup(c, id)
    case Some(v) => v
    case None => Counts(0, 0)
  }

  /** The cache agrees with a recount of `s`: every species present has its entry, and every
      entry holds that species' adult and juvenile counts (an entry may remain at [0, 0]). */
  ghost predicate CacheMatches(c: Dict<Counts>, s: seq<Plant>)
  {
    forall id :: CacheAt(c, id) == CountsOf(s, id)
  }

  lemma CacheAtPut(c: Dict<Counts>, k: int, v: Counts)
    ensures forall id :: CacheAt(Put(c, k, v), id) == if id == k then v else CacheAt(c, id)
  {
  }

  // The cache patches of the source.

  /** `d[id][1] += 1`, or `d[id] = [0, 1]` for a new species (plants.py:419-422). */
  function BumpJuvenile(c: Dict<Counts>, id: int): Dict<Counts>
  {
    Put(c, id, Counts(CacheAt(c, id).adults, CacheAt(c, id).juveniles + 1))
  }

  /** `d[id][0] += 1`, or `d[id] = [1, 0]` for a new species (plants.py:433-436). */
  function BumpAdult(c: Dict<Counts>, id: int): Dict<Counts>
  {
    Put(c, id, Counts(CacheAt(c, id).adults + 1, CacheAt(c, id).juveniles))
  }

  /** `d[id] = [1, d[id][1]]`, or `[1, 0]` for a new species (plants.py:213-216). */
  function SetAdult(c: Dict<Counts>, id: int): Dict<Counts>
  {
    Put(c, id, Counts(1, CacheAt(c, id).juveniles))
  }

  /** Decrement the juvenile count of the species of an evicted juvenile. */
  function DropJuvenile(c: Dict<Counts>, id: int): Dict<Counts>
  {
    Put(c, id, Counts(CacheAt(c, id).adults, CacheAt(c, id).juveniles - 1))
  }

  /** The patches write one key, so they never repeat a key. */
  lemma PatchesKeyed(c: Dict<Counts>, id: int)
    requires Keyed(c)
    ensures Keyed(BumpJuvenile(c, id)) && Keyed(BumpAdult(c, id))
    ensures Keyed(SetAdult(c, id)) && Keyed(DropJuvenile(c, id))
  {
    PutKeyed(c, id, Counts(CacheAt(c, id).adults, CacheAt(c, id).juveniles + 1));
    PutKeyed(c, id, Counts(CacheAt(c, id).adults + 1, CacheAt(c, id).juveniles));
    PutKeyed(c, id, Counts(1, CacheAt(c, id).juveniles));
    PutKeyed(c, id, Counts(CacheAt(c, id).adults, CacheAt(c, id).juveniles - 1));
  }

  lemma CacheAppendJuvenile(c: Dict<Counts>, s: seq<Plant>, p: Plant)
    requires CacheMatches(c, s) && p.stage == Juvenile
    ensures CacheMatches(BumpJuvenile(c, p.species.id), s + [p])
  {
    CountAppend(s, p);
    CacheAtPut(c, p.species.id, Counts(CacheAt(c, p.species.id).adults, CacheAt(c, p.species.id).juveniles + 1));
  }

  lemma CacheAppendAdult(c: Dict<Counts>, s: seq<Plant>, p: Plant)
    requires CacheMatches(c, s) && p.stage == Adult
    ensures CacheMatches(BumpAdult(c, p.species.id), s + [p])
  {
    CountAppend(s, p);
    CacheAtPut(c, p.species.id, Counts(CacheAt(c, p.species.id).adults + 1, CacheAt(c, p.species.id).juveniles));
  }

  // ---------------------------------------------------------------------------------------
  // The invariant

  predicate NoDead(s: seq<Plant>)
  {
    forall k :: 0 <= k < |s| ==> s[k].stage != Dead
  }

  /**
   * The class invariant: a positive capacity that the storage respects, no DeadPlant stored,
   * exactly one stored Adult when there is a resident and none otherwise, the resident being
   * that stored Adult, and a cache that equals a recount of the storage and, like any Python
   * dict, holds each key once.
   */
  ghost predicate Valid(a: PlantArray)
  {
    && 0 < a.limit
    && |a.storage| <= a.limit
    && NoDead(a.storage)
    && CountStage(a.storage, Adult) == (if a.resident.Some? then 1 else 0)
    && (a.resident.Some? ==> a.resident.value.stage == Adult && a.resident.value in a.storage)
    && CacheMatches(a.cache, a.storage) && Keyed(a.cache)
  }

  /** In a valid array every stored Adult is the resident. */
  lemma OnlyAdultIsResident(a: PlantArray, k: nat)
    requires Valid(a) && k < |a.storage| && a.storage[k].stage == Adult
    ensures a.resident == Some(a.storage[k])
  {
    if a.resident.None? {
      CountStageZero(a.storage, Adult);
    } else {
      var i :| 0 <= i < |a.storage| && a.storage[i] == a.resident.value;
      CountStageOne(a.storage, Adult, i);
    }
  }

  lemma EmptyValid(limit: int)
    requires 0 < limit
    ensures Valid(Empty(limit))
  {
  }

  // ---------------------------------------------------------------------------------------
  // addPlant and addAdult

  /** The randint range of an eviction is not empty (randint(0, -1) raises). */
  predicate CanEvict(a: PlantArray, p: Plant)
  {
    p.stage == Adult && a.resident.None? && |a.storage| >= a.limit ==> |a.storage| > 0
  }

  /**
   * `addPlant` with the cache patched correctly (plants.py:199-224). An Adult is refused when
   * there is a resident; otherwise it becomes the resident, appended below capacity or
   * overwriting the occupant at the drawn `slot` at capacity. A Juvenile is refused at
   * capacity and appended below it.
   */
  function AddPlant(a: PlantArray, p: Plant, slot: nat): (r: PlantArray)
    requires CanEvict(a, p)
    ensures r.limit == a.limit
    ensures p.stage == Adult && a.resident.Some? ==> r == a
    ensures p.stage == Juvenile && |a.storage| >= a.limit ==> r == a
    ensures p.stage == Adult && a.resident.None? ==>
      && r.resident == Some(p)
      && p in r.storage
      && |r.storage| == (if |a.storage| < a.limit then |a.storage| + 1 else |a.storage|)
    ensures p.stage == Adult && a.resident.None? && |a.storage| < a.limit ==> r.storage == a.storage + [p]
    ensures p.stage == Adult && a.resident.None? && |a.storage| >= a.limit ==>
      r.storage == a.storage[slot % |a.storage| := p]
    ensures p.stage != Adult && |a.storage| < a.limit ==> r.storage == a.storage + [p] && r.resident == a.resident
    ensures |a.storage| <= a.limit ==> |r.storage| <= a.limit
    ensures forall q :: q in r.storage ==> q in a.storage || q == p
  {
    if (p.stage == Adult && a.resident.Some?) || (p.stage == Juvenile && |a.storage| >= a.limit) then a
    else if p.stage == Adult then
      if |a.storage| >= a.limit then
        var k := slot % |a.storage|;
        var evicted := a.storage[k];
        assert a.storage[k := p][k] == p;
        PlantArray(Some(p), a.storage[k := p], a.limit, SetAdult(DropJuvenile(a.cache, evicted.species.id), p.species.id))
      else
        PlantArray(Some(p), a.storage + [p], a.limit, SetAdult(a.cache, p.species.id))
    else if |a.storage| < a.limit then
      PlantArray(a.resident, a.storage + [p], a.limit, BumpJuvenile(a.cache, p.species.id))
    else a
  }

  /** addPlant keeps the invariant, the cache included. */
  lemma AddPlantValid(a: PlantArray, p: Plant, slot: nat)
    requires Valid(a) && p.stage != Dead
    ensures CanEvict(a, p) && Valid(AddPlant(a, p, slot))
  {
    var s := a.storage;
    if (p.stage == Adult && a.resident.Some?) || (p.stage == Juvenile && |s| >= a.limit) {
    } else if p.stage == Adult {
      if |s| >= a.limit {
        EvictValid(a, p, slot);
      } else {
        AppendAdultValid(a, p);
      }
    } else {
      CountAppend(s, p);
      CacheAppendJuvenile(a.cache, s, p);
      PatchesKeyed(a.cache, p.species.id);
    }
  }

  lemma AppendAdultValid(a: PlantArray, p: Plant)
    requires Valid(a) && p.stage == Adult && a.resident.None? && |a.storage| < a.limit
    ensures Valid(AddPlant(a, p, 0))
  {
    var s := a.storage;
    CountAppend(s, p);
    CountOfBelowStage(s, p.species.id, Adult);
    CacheAtPut(a.cache, p.species.id, Counts(1, CacheAt(a.cache, p.species.id).juveniles));
    PatchesKeyed(a.cache, p.species.id);
  }

  lemma EvictValid(a: PlantArray, p: Plant, slot: nat)
    requires Valid(a) && p.stage == Adult && a.resident.None? && |a.storage| >= a.limit
    ensures Valid(AddPlant(a, p, slot))
  {
    var r := AddPlant(a, p, slot);
    var s := a.storage;
    var k := slot % |s|;
    CountStageZero(s, Adult);
    assert s[k].stage == Juvenile;
    CountOfBelowStage(s, p.species.id, Adult);
    EvictCache(a.cache, s, k, p);
    assert r.storage == s[k := p];
    assert r.cache == SetAdult(DropJuvenile(a.cache, s[k].species.id), p.species.id);
    CountReplace(s, k, p, p.species.id, Adult);
    assert NoDead(r.storage);
  }

  /** Overwriting a juvenile with an adult, in an array without adults, is mirrored by the
      two cache patches. */
  lemma EvictCache(c: Dict<Counts>, s: seq<Plant>, k: nat, p: Plant)
    requires CacheMatches(c, s) && Keyed(c) && k < |s| && s[k].stage == Juvenile && p.stage == Adult
    requires CountOf(s, p.species.id, Adult) == 0
    ensures var c' := SetAdult(DropJuvenile(c, s[k].species.id), p.species.id);
      CacheMatches(c', s[k := p]) && Keyed(c')
  {
    var c1 := DropJuvenile(c, s[k].species.id);
    PatchesKeyed(c, s[k].species.id);
    PatchesKeyed(c1, p.species.id);
    forall id ensures CacheAt(SetAdult(c1, p.species.id), id) == CountsOf(s[k := p], id) {
      EvictCacheAt(c, s, k, p, id);
    }
  }

  /** One key of the cache after an eviction. */
  lemma EvictCacheAt(c: Dict<Counts>, s: seq<Plant>, k: nat, p: Plant, id: int)
    requires k < |s| && s[k].stage == Juvenile && p.stage == Adult
    requires CacheAt(c, id) == CountsOf(s, id)
    requires CacheAt(c, s[k].species.id) == CountsOf(s, s[k].species.id)
    requires CountOf(s, p.species.id, Adult) == 0
    ensures CacheAt(SetAdult(DropJuvenile(c, s[k].species.id), p.species.id), id) == CountsOf(s[k := p], id)
  {
    var e := s[k].species.id;
    var c1 := DropJuvenile(c, e);
    CacheAtPut(c, e, Counts(CacheAt(c, e).adults, CacheAt(c, e).juveniles - 1));
    CacheAtPut(c1, p.species.id, Counts(1, CacheAt(c1, p.species.id).juveniles));
    CountReplace(s, k, p, id, Adult);
    CountReplace(s, k, p, id, Juvenile);
  }

  /** `addAdult` (plants.py:235-237): append below capacity, touching neither the resident
      nor the cache; used only to stage the offspring of the adult-dispersal model. */
  function AddAdult(a: PlantArray, p: Plant): (r: PlantArray)
    ensures r.resident == a.resident && r.cache == a.cache && r.limit == a.limit
    ensures |a.storage| < a.limit ==> r.storage == a.storage + [p]
    ensures |a.storage| >= a.limit ==> r.storage == a.storage
    ensures |a.storage| <= a.limit ==> |r.storage| <= a.limit
  {
    if |a.storage| < a.limit then a.(storage := a.storage + [p]) else a
  }

  // ---------------------------------------------------------------------------------------
  // The source's cache patching, as written (plants.py:199-224)

  /**
   * `addPlant` exactly as written. On eviction it decrements `dictionaryFormat[index]`, keyed
   * by the storage index rather than a species id, which raises KeyError (None here) when no
   * species has that id; and adding a Juvenile overwrites the species' adult count with 0.
   * Storage and resident evolve as in AddPlant.
   */
  function AddPlantAsWritten(a: PlantArray, p: Plant, slot: nat): (r: Option<PlantArray>)
    requires CanEvict(a, p)
    ensures r.Some? ==> r.value.storage == AddPlant(a, p, slot).storage && r.value.resident == AddPlant(a, p, slot).resident
    ensures r.None? ==> p.stage == Adult && a.resident.None? && |a.storage| >= a.limit && !HasKey(a.cache, slot % |a.storage|)
  {
    if (p.stage == Adult && a.resident.Some?) || (p.stage == Juvenile && |a.storage| >= a.limit) then Some(a)
    else if p.stage == Adult then
      if |a.storage| >= a.limit then
        var k := slot % |a.storage|;
        if !HasKey(a.cache, k) then None
        else
          var c := Put(a.cache, k, Counts(CacheAt(a.cache, k).adults, CacheAt(a.cache, k).juveniles - 1));
          Some(PlantArray(Some(p), a.storage[k := p], a.limit, SetAdult(c, p.species.id)))
      else
        Some(PlantArray(Some(p), a.storage + [p], a.limit, SetAdult(a.cache, p.species.id)))
    else if |a.storage| < a.limit then
      var id := p.species.id;
      Some(PlantArray(a.resident, a.storage + [p], a.limit, Put(a.cache, id, Counts(0, CacheAt(a.cache, id).juveniles + 1))))
    else Some(a)
  }

  function TestSpecies(id: int, t1: int): Species
  {
    Species(id, -1, t1, 5, 1, 1.0, 1.0, 1.0, 1.0, 0.0, 0.0)
  }

  /** plants.py:206: a full array of one species-7 juvenile; an incoming Adult evicts index 0,
      and `dictionaryFormat[0]` does not exist, so addPlant raises KeyError. */
  lemma EvictionIndexKeyError()
    ensures var j := Plant(TestSpecies(7, 3), 0, Juvenile);
            var a := PlantArray(None, [j], 1, [(7, Counts(0, 1))]);
            && Valid(a)
            && AddPlantAsWritten(a, Plant(TestSpecies(8, 3), 0, Adult), 0) == None
            && Valid(AddPlant(a, Plant(TestSpecies(8, 3), 0, Adult), 0))
  {
    var j := Plant(TestSpecies(7, 3), 0, Juvenile);
    var a := PlantArray(None, [j], 1, [(7, Counts(0, 1))]);
    CountSingleton(j);
    forall id ensures CacheAt(a.cache, id) == CountsOf(a.storage, id) {
      assert a.cache[1..] == [];
      assert id != 7 ==> Lookup(a.cache, id) == Lookup(a.cache[1..], id);
    }
    AddPlantValid(a, Plant(TestSpecies(8, 3), 0, Adult), 0);
  }

  /** plants.py:221: a juvenile of the resident's species resets the cached adult count to 0,
      so the cache no longer matches a recount. */
  lemma JuvenileResetsAdultCount()
    ensures var ad := Plant(TestSpecies(1, 3), 4, Adult);
            var a := PlantArray(Some(ad), [ad], 5, [(1, Counts(1, 0))]);
            var j := Plant(TestSpecies(1, 3), 0, Juvenile);
            && Valid(a)
            && AddPlantAsWritten(a, j, 0).Some?
            && CacheAt(AddPlantAsWritten(a, j, 0).value.cache, 1) == Counts(0, 1)
            && CountsOf(AddPlantAsWritten(a, j, 0).value.storage, 1) == Counts(1, 1)
            && Valid(AddPlant(a, j, 0))
  {
    var ad := Plant(TestSpecies(1, 3), 4, Adult);
    var a := PlantArray(Some(ad), [ad], 5, [(1, Counts(1, 0))]);
    var j := Plant(TestSpecies(1, 3), 0, Juvenile);
    CountSingleton(ad);
    forall id ensures CacheAt(a.cache, id) == CountsOf(a.storage, id) {
      assert a.cache[1..] == [];
      assert id != 1 ==> Lookup(a.cache, id) == Lookup(a.cache[1..], id);
    }
    AddPlantValid(a, j, 0);
    CountAppend([ad], j);
    assert AddPlantAsWritten(a, j, 0).value.storage == [ad] + [j];
  }

  // ---------------------------------------------------------------------------------------
  // mergeArray

  /** The first Adult of `ps`, if any. */
  function FirstAdult(ps: seq<Plant>): Option<Plant>
  {
    if |ps| == 0 then None
    else if ps[0].stage == Adult then Some(ps[0])
    else FirstAdult(ps[1..])
  }

  /** Offer each plant of `ps` to `a` through addPlant, in order; `slot(k + j)` is the
      eviction draw of the j-th offer. */
  function AddAll(a: PlantArray, ps: seq<Plant>, slot: nat -> nat, k: nat): (r: PlantArray)
    requires 0 < a.limit
    ensures r.limit == a.limit
    ensures a.resident.Some? ==> r.resident == a.resident
    ensures a.resident.None? ==> r.resident == FirstAdult(ps)
    ensures |a.storage| <= a.limit ==> |r.storage| <= a.limit
    decreases |ps|
  {
    if |ps| == 0 then a
    else AddAll(AddPlant(a, ps[0], slot(k)), ps[1..], slot, k + 1)
  }

  /**
   * `mergeArray` (plants.py:251-256): a no-op when both arrays hold an adult, otherwise every
   * stored plant of `src` is offered through addPlant in order. A resident always wins over
   * incoming adults; without one, the first incoming Adult becomes the resident.
   */
  function MergeArray(a: PlantArray, src: PlantArray, slot: nat -> nat): (r: PlantArray)
    requires 0 < a.limit
    ensures a.resident.Some? && src.resident.Some? ==> r == a
    ensures !(a.resident.Some? && src.resident.Some?) ==> r == AddAll(a, src.storage, slot, 0)
    ensures a.resident.Some? ==> r.resident == a.resident
    ensures a.resident.None? ==> r.resident == FirstAdult(src.storage)
    ensures r.limit == a.limit
    ensures |a.storage| <= a.limit ==> |r.storage| <= a.limit
  {
    if a.resident.Some? && src.resident.Some? then a
    else AddAll(a, src.storage, slot, 0)
  }

  lemma {:induction false} AddAllValid(a: PlantArray, ps: seq<Plant>, slot: nat -> nat, k: nat)
    requires Valid(a) && NoDead(ps)
    ensures Valid(AddAll(a, ps, slot, k))
    decreases |ps|
  {
    if |ps| > 0 {
      AddPlantValid(a, ps[0], slot(k));
      AddAllValid(AddPlant(a, ps[0], slot(k)), ps[1..], slot, k + 1);
    }
  }

  /** Merging keeps the invariant: at most one adult, the capacity, and the cache. */
  lemma MergeArrayValid(a: PlantArray, src: PlantArray, slot: nat -> nat)
    requires Valid(a) && NoDead(src.storage)
    ensures Valid(MergeArray(a, src, slot))
  {
    AddAllValid(a, src.storage, slot, 0);
  }

  /** Conservation: juveniles offered to an array are kept, after the existing occupants and
      in their order, until the array is full; the ones that no longer fit are dropped. */
  lemma {:induction false} AddAllKeepsJuveniles(a: PlantArray, ps: seq<Plant>, slot: nat -> nat, k: nat)
    requires 0 < a.limit && |a.storage| <= a.limit
    requires forall j :: 0 <= j < |ps| ==> ps[j].stage == Juvenile
    ensures AddAll(a, ps, slot, k).storage == a.storage + ps[..Min(|ps|, a.limit - |a.storage|)]
    decreases |ps|
  {
    if |ps| == 0 {
      assert ps[..0] == [];
    } else {
      var a' := AddPlant(a, ps[0], slot(k));
      assert AddAll(a, ps, slot, k) == AddAll(a', ps[1..], slot, k + 1);
      AddAllKeepsJuveniles(a', ps[1..], slot, k + 1);
      assert a'.limit == a.limit;
      assert a'.storage == if |a.storage| < a.limit then a.storage + [ps[0]] else a.storage;
      OfferPrefix(a.storage, a'.storage, ps, a.limit);
    }
  }

  /** One offer followed by the rest: the kept prefix grows by the first plant while there is
      room, and stays as it is once the array is full. */
  lemma OfferPrefix(st: seq<Plant>, st': seq<Plant>, ps: seq<Plant>, limit: int)
    requires |ps| > 0 && |st| <= limit
    requires st' == if |st| < limit then st + [ps[0]] else st
    ensures st' + ps[1..][..Min(|ps| - 1, limit - |st'|)] == st + ps[..Min(|ps|, limit - |st|)]
  {
    if |st| < limit {
      assert [ps[0]] + ps[1..][..Min(|ps| - 1, limit - |st'|)] == ps[..Min(|ps|, limit - |st|)];
    } else {
      assert ps[1..][..0] == [] && ps[..0] == [];
    }
  }

  lemma MergeKeepsJuveniles(a: PlantArray, src: PlantArray, slot: nat -> nat)
    requires 0 < a.limit && |a.storage| <= a.limit
    requires forall j :: 0 <= j < |src.storage| ==> src.storage[j].stage == Juvenile
    requires src.resident.None?
    ensures var room := a.limit - |a.storage|;
      MergeArray(a, src, slot).storage == a.storage + src.storage[..Min(|src.storage|, room)]
    ensures |a.storage| + |src.storage| <= a.limit ==> MergeArray(a, src, slot).storage == a.storage + src.storage
  {
    AddAllKeepsJuveniles(a, src.storage, slot, 0);
    assert src.storage[..|src.storage|] == src.storage;
  }

  // ---------------------------------------------------------------------------------------
  // produceSeeds

  function Min(x: int, y: int): int { if x <= y then x else y }
  function Max(x: int, y: int): int { if x <= y then y else x }

  /** Offer `n` copies of `p` to `arr`: with addAdult in the adult-dispersal (boomer) model,
      with addPlant otherwise. */
  function Sow(arr: PlantArray, p: Plant, n: int, boomer: bool): (r: PlantArray)
    requires p.stage == (if boomer then Adult else Juvenile)
    requires arr.resident.None?
    requires forall k :: 0 <= k < |arr.storage| ==> arr.storage[k] == p
    ensures r.resident == None && r.limit == arr.limit
    ensures |r.storage| == Min(|arr.storage| + Max(n, 0), Max(arr.limit, |arr.storage|))
    ensures forall k :: 0 <= k < |r.storage| ==> r.storage[k] == p
    decreases n
  {
    if n <= 0 then arr
    else if boomer then Sow(AddAdult(arr, p), p, n - 1, boomer)
    else Sow(AddPlant(arr, p, 0), p, n - 1, boomer)
  }

  /**
   * `produceSeeds` (plants.py:265-273): nothing without a resident; otherwise min(ns,
   * storageLimit) age-0 offspring of the resident's species, Adults in the boomer model and
   * Juveniles otherwise, in a fresh array without a resident.
   */
  function ProduceSeeds(a: PlantArray, boomer: bool): (r: PlantArray)
    ensures r.limit == a.limit && r.resident == None
    ensures NoDead(r.storage) && (boomer ==> AllAdult(r.storage))
    ensures a.resident.None? ==> r.storage == []
    ensures a.resident.Some? ==>
      && |r.storage| == Min(Max(a.resident.value.species.ns, 0), Max(a.limit, 0))
      && forall k :: 0 <= k < |r.storage| ==>
           r.storage[k] == Plant(a.resident.value.species, 0, if boomer then Adult else Juvenile)
  {
    match a.resident
    case None => Empty(a.limit)
    case Some(ad) =>
      Sow(Empty(a.limit), Plant(ad.species, 0, if boomer then Adult else Juvenile), ad.species.ns, boomer)
  }

  lemma {:induction false} SowJuvenilesValid(arr: PlantArray, p: Plant, n: int)
    requires Valid(arr) && p.stage == Juvenile && arr.resident.None?
    requires forall k :: 0 <= k < |arr.storage| ==> arr.storage[k] == p
    ensures Valid(Sow(arr, p, n, false))
    decreases n
  {
    if n > 0 {
      AddPlantValid(arr, p, 0);
      SowJuvenilesValid(AddPlant(arr, p, 0), p, n - 1);
    }
  }

  /** In the juvenile-dispersal model the seed array is itself a valid population. */
  lemma ProduceSeedsValid(a: PlantArray)
    requires 0 < a.limit
    ensures Valid(ProduceSeeds(a, false))
  {
    if a.resident.Some? {
      SowJuvenilesValid(Empty(a.limit), Plant(a.resident.value.species, 0, Juvenile), a.resident.value.species.ns);
    }
  }

  // ---------------------------------------------------------------------------------------
  // Neighbour aggregation: mergeDict, boomerMergeDict, zoomerMergeDict

  /**
   * `boomerMergeDict` (plants.py:305-311): add one for the resident's species, if there is a
   * resident, and change nothing else.
   */
  function BoomerMergeDict(a: PlantArray, nd: Dict<int>): (r: Dict<int>)
    ensures forall k :: Get0(r, k) == Get0(nd, k) + (if a.resident.Some? && k == a.resident.value.species.id then 1 else 0)
    ensures forall k :: HasKey(nd, k) ==> HasKey(r, k)
    ensures a.resident.Some? ==> HasKey(r, a.resident.value.species.id)
    ensures Sum(r) == Sum(nd) + (if a.resident.Some? then 1 else 0)
  {
    match a.resident
    case None => nd
    case Some(ad) => AddTo(nd, ad.species.id, 1)
  }

  /** The total (adults plus juveniles) of all entries of `c` with key `k`. */
  function EntryTotal(c: Dict<Counts>, k: int): int
  {
    if |c| == 0 then 0
    else EntryTotal(c[..|c| - 1], k) + (if c[|c| - 1].0 == k then c[|c| - 1].1.adults + c[|c| - 1].1.juveniles else 0)
  }

  /** In a map without repeated keys the entry total of a species is its single entry. */
  lemma {:induction false} EntryTotalKeyed(c: Dict<Counts>, k: int)
    requires Keyed(c)
    ensures EntryTotal(c, k) == CacheAt(c, k).adults + CacheAt(c, k).juveniles
  {
    if |c| > 0 {
      var pre := c[..|c| - 1];
      assert Keyed(pre);
      EntryTotalKeyed(pre, k);
      LookupPrefix(c, k);
      if c[|c| - 1].0 == k {
        NoEntryNoKey(pre, k);
      }
    }
  }

  /** Fold the entries of the cache into `nd`, in insertion order. */
  function ZoomerFold(c: Dict<Counts>, nd: Dict<int>): (r: Dict<int>)
    ensures forall k :: Get0(r, k) == Get0(nd, k) + EntryTotal(c, k)
    ensures forall k :: HasKey(nd, k) ==> HasKey(r, k)
    ensures forall i :: 0 <= i < |c| ==> HasKey(r, c[i].0)
  {
    if |c| == 0 then nd
    else
      var last := c[|c| - 1];
      var r := AddTo(ZoomerFold(c[..|c| - 1], nd), last.0, last.1.adults + last.1.juveniles);
      assert forall i :: 0 <= i < |c| - 1 ==> c[i] == c[..|c| - 1][i];
      r
  }

  /** `zoomerMergeDict` (plants.py:325-331): add adults plus juveniles of every cached
      species. */
  function ZoomerMergeDict(a: PlantArray, nd: Dict<int>): (r: Dict<int>)
    ensures forall k :: Get0(r, k) == Get0(nd, k) + EntryTotal(a.cache, k)
    ensures forall k :: HasKey(nd, k) ==> HasKey(r, k)
    ensures forall k :: HasKey(a.cache, k) ==> HasKey(r, k)
  {
    KeyHasEntry(a.cache);
    ZoomerFold(a.cache, nd)
  }

  lemma KeyHasEntry<V>(d: Dict<V>)
    ensures forall k :: HasKey(d, k) ==> exists i :: 0 <= i < |d| && d[i].0 == k
  {
    forall k | HasKey(d, k) ensures exists i :: 0 <= i < |d| && d[i].0 == k {
      var i := KeyIndex(d, k);
    }
  }

  /** The position of the entry that `HasKey` found. */
  function KeyIndex<V>(d: Dict<V>, k: int): (i: nat)
    requires HasKey(d, k)
    ensures i < |d| && d[i].0 == k
  {
    if d[0].0 == k then 0 else 1 + KeyIndex(d[1..], k)
  }

  /** `mergeDict` (plants.py:289-291): the policy chosen by the model flag. */
  function MergeDict(a: PlantArray, nd: Dict<int>, boomer: bool): (r: Dict<int>)
    ensures forall k :: HasKey(nd, k) ==> HasKey(r, k)
    ensures boomer ==> r == BoomerMergeDict(a, nd)
    ensures !boomer ==> r == ZoomerMergeDict(a, nd)
  {
    if boomer then BoomerMergeDict(a, nd) else ZoomerMergeDict(a, nd)
  }

  /** Every species stored in the cell is a key of the map into which the cell itself has
      been merged: in the boomer model provided the only stored plant is the resident. */
  lemma MergeDictCoversSelf(a: PlantArray, nd: Dict<int>, boomer: bool)
    requires Valid(a)
    requires boomer ==> forall k :: 0 <= k < |a.storage| ==> a.storage[k].stage == Adult
    ensures forall k :: 0 <= k < |a.storage| ==> HasKey(MergeDict(a, nd, boomer), a.storage[k].species.id)
  {
    forall k | 0 <= k < |a.storage| ensures HasKey(MergeDict(a, nd, boomer), a.storage[k].species.id) {
      var p := a.storage[k];
      if boomer {
        OnlyAdultIsResident(a, k);
      } else {
        CountOfPresent(a.storage, k);
        assert CacheAt(a.cache, p.species.id) == CountsOf(a.storage, p.species.id);
      }
    }
  }

  // ---------------------------------------------------------------------------------------
  // toDict

  /** Count every stored plant as a juvenile of its species, in storage order. */
  function TallyAsJuveniles(s: seq<Plant>): Dict<Counts>
  {
    if |s| == 0 then [] else BumpJuvenile(TallyAsJuveniles(s[..|s| - 1]), s[|s| - 1].species.id)
  }

  /**
   * `toDict` (plants.py:345-360): a full recount of the storage that first counts every plant
   * as a juvenile and then moves the resident into the adult column.
   */
  function ToDict(a: PlantArray): Dict<Counts>
  {
    var d := TallyAsJuveniles(a.storage);
    match a.resident
    case None => d
    case Some(ad) =>
      var id := ad.species.id;
      if HasKey(d, id) then Put(d, id, Counts(CacheAt(d, id).adults + 1, CacheAt(d, id).juveniles - 1))
      else Put(d, id, Counts(1, 0))
  }

  lemma {:induction false} TallyAsJuvenilesCounts(s: seq<Plant>)
    ensures forall id ::
              CacheAt(TallyAsJuveniles(s), id) ==
              Counts(0, CountOf(s, id, Juvenile) + CountOf(s, id, Adult) + CountOf(s, id, Dead))
  {
    if |s| > 0 {
      var pre := s[..|s| - 1];
      TallyAsJuvenilesCounts(pre);
      var id := s[|s| - 1].species.id;
      var d := TallyAsJuveniles(pre);
      CacheAtPut(d, id, Counts(CacheAt(d, id).adults, CacheAt(d, id).juveniles + 1));
    }
  }

  lemma NoDeadCount(s: seq<Plant>, id: int)
    requires NoDead(s)
    ensures CountOf(s, id, Dead) == 0
  {
    if CountOf(s, id, Dead) > 0 {
      CountOfBelowStage(s, id, Dead);
      CountStageZero(s, Dead);
    }
  }

  /** The recount agrees with the incrementally patched cache of a valid array. */
  lemma ToDictRecounts(a: PlantArray)
    requires Valid(a)
    ensures CacheMatches(ToDict(a), a.storage)
    ensures forall id :: CacheAt(ToDict(a), id) == CacheAt(a.cache, id)
  {
    var d := TallyAsJuveniles(a.storage);
    TallyAsJuvenilesCounts(a.storage);
    forall id ensures CacheAt(ToDict(a), id) == CountsOf(a.storage, id) {
      NoDeadCount(a.storage, id);
      CountOfBelowStage(a.storage, id, Adult);
      match a.resident
      case None =>
        CountStageZero(a.storage, Adult);
      case Some(ad) =>
        var rid := ad.species.id;
        var i :| 0 <= i < |a.storage| && a.storage[i] == ad;
        CountOfPresent(a.storage, i);
        if id == rid {
          CacheAtPut(d, rid, Counts(CacheAt(d, rid).adults + 1, CacheAt(d, rid).juveniles - 1));
        } else {
          CacheAtPut(d, rid, Counts(CacheAt(d, rid).adults + 1, CacheAt(d, rid).juveniles - 1));
          CacheAtPut(d, rid, Counts(1, 0));
          if CountOf(a.storage, id, Adult) > 0 {
            CountStageOne(a.storage, Adult, i);
            CountOfAt(a.storage, id, Adult);
          }
        }
    }
  }

  lemma {:induction false} CountOfAt(s: seq<Plant>, id: int, st: Stage)
    requires CountOf(s, id, st) > 0
    ensures exists k :: 0 <= k < |s| && s[k].species.id == id && s[k].stage == st
  {
    var pre := s[..|s| - 1];
    if CountOf(pre, id, st) > 0 {
      CountOfAt(pre, id, st);
      var k :| 0 <= k < |pre| && pre[k].species.id == id && pre[k].stage == st;
      assert s[k] == pre[k];
    }
  }

  // ---------------------------------------------------------------------------------------
  // update

  /** Every stored species is a key of the neighbour map; plants.py:403 raises KeyError
      otherwise. */
  predicate KeysCovered(nd: Dict<int>, s: seq<Plant>)
  {
    forall k :: 0 <= k < |s| ==> HasKey(nd, s[k].species.id)
  }

  /**
   * The crowding of one plant (plants.py:403-404). The map covers the 3x3 block including the
   * cell itself, so one is subtracted for the plant itself from its own species' entry; the
   * heterospecific count is everything else in the map, and the two add up to the map total.
   */
  function NeighbourCounts(nd: Dict<int>, id: int): (r: (int, int))
    requires HasKey(nd, id)
    ensures r.0 == Get0(nd, id) - 1
    ensures r.0 + r.1 == Sum(nd)
  {
    var con := Get0(nd, id) - 1;
    (con, Sum(nd) - con)
  }

  /** Plant `k` of `s` after its tick, with `draw(k)` as its survival draw. */
  function Outcome(s: seq<Plant>, k: nat, nd: Dict<int>, draw: nat -> real): Plant
    requires k < |s| && KeysCovered(nd, s)
  {
    var c := NeighbourCounts(nd, s[k].species.id);
    Advance(s[k], c.0, c.1, draw(k))
  }

  /** Reference definition: the outcomes of the first `n` plants that are at stage `st`, in
      storage order. */
  function Survivors(s: seq<Plant>, n: nat, nd: Dict<int>, draw: nat -> real, st: Stage): seq<Plant>
    requires n <= |s| && KeysCovered(nd, s)
  {
    if n == 0 then []
    else
      var o := Outcome(s, n - 1, nd, draw);
      Survivors(s, n - 1, nd, draw, st) + (if o.stage == st then [o] else [])
  }

  /** State of the loop at plants.py:401-422: surviving juveniles, grown adults, the new cache
      and currentAdult. */
  datatype Sweep = Sweep(juveniles: seq<Plant>, adults: seq<Plant>, cache: Dict<Counts>, resident: Option<Plant>)

  /** One iteration: `before` is the stored plant and `after` its outcome. */
  function Step(acc: Sweep, before: Plant, after: Plant): Sweep
  {
    if after.stage == Dead then
      if Some(before) == acc.resident then acc.(resident := None) else acc
    else if after.stage == Adult then
      acc.(adults := acc.adults + [after], resident := if Some(before) == acc.resident then Some(after) else acc.resident)
    else
      acc.(juveniles := acc.juveniles + [after], cache := BumpJuvenile(acc.cache, after.species.id))
  }

  /** The loop after its first `n` iterations, starting from currentAdult `start`. */
  function SweepUpTo(s: seq<Plant>, n: nat, nd: Dict<int>, draw: nat -> real, start: Option<Plant>): Sweep
    requires n <= |s| && KeysCovered(nd, s)
  {
    if n == 0 then Sweep([], [], [], start)
    else Step(SweepUpTo(s, n - 1, nd, draw, start), s[n - 1], Outcome(s, n - 1, nd, draw))
  }

  /** The loop keeps exactly the surviving juveniles and the grown adults, in order, and its
      cache counts the juveniles. */
  lemma {:induction false} SweepShape(s: seq<Plant>, n: nat, nd: Dict<int>, draw: nat -> real, start: Option<Plant>)
    requires n <= |s| && KeysCovered(nd, s)
    ensures var sw := SweepUpTo(s, n, nd, draw, start);
      && sw.juveniles == Survivors(s, n, nd, draw, Juvenile)
      && sw.adults == Survivors(s, n, nd, draw, Adult)
      && CacheMatches(sw.cache, sw.juveniles) && Keyed(sw.cache)
      && |sw.juveniles| + |sw.adults| <= n
  {
    if n == 0 {
      assert SweepUpTo(s, 0, nd, draw, start) == Sweep([], [], [], start);
    } else {
      SweepShape(s, n - 1, nd, draw, start);
      SweepStepShape(s, n, nd, draw, start);
    }
  }

  /** One iteration extends the survivor lists by the outcome of its stage and keeps the
      cache counting the juveniles. */
  lemma SweepStepShape(s: seq<Plant>, n: nat, nd: Dict<int>, draw: nat -> real, start: Option<Plant>)
    requires 0 < n <= |s| && KeysCovered(nd, s)
    requires var sw := SweepUpTo(s, n - 1, nd, draw, start);
      && sw.juveniles == Survivors(s, n - 1, nd, draw, Juvenile)
      && sw.adults == Survivors(s, n - 1, nd, draw, Adult)
      && CacheMatches(sw.cache, sw.juveniles) && Keyed(sw.cache)
      && |sw.juveniles| + |sw.adults| <= n - 1
    ensures var sw := SweepUpTo(s, n, nd, draw, start);
      && sw.juveniles == Survivors(s, n, nd, draw, Juvenile)
      && sw.adults == Survivors(s, n, nd, draw, Adult)
      && CacheMatches(sw.cache, sw.juveniles) && Keyed(sw.cache)
      && |sw.juveniles| + |sw.adults| <= n
  {
    var sw := SweepUpTo(s, n - 1, nd, draw, start);
    var o := Outcome(s, n - 1, nd, draw);
    assert SweepUpTo(s, n, nd, draw, start) == Step(sw, s[n - 1], o);
    if o.stage == Juvenile {
      CacheAppendJuvenile(sw.cache, sw.juveniles, o);
      PatchesKeyed(sw.cache, o.species.id);
    }
  }

  lemma {:induction false} SurvivorsStage(s: seq<Plant>, n: nat, nd: Dict<int>, draw: nat -> real, st: Stage)
    requires n <= |s| && KeysCovered(nd, s)
    ensures forall k :: 0 <= k < |Survivors(s, n, nd, draw, st)| ==> Survivors(s, n, nd, draw, st)[k].stage == st
  {
    if n > 0 {
      SurvivorsStage(s, n - 1, nd, draw, st);
    }
  }

  /** An outcome at stage `st` is among the survivors at `st` of any longer prefix. */
  lemma {:induction false} SurvivorsContain(s: seq<Plant>, n: nat, nd: Dict<int>, draw: nat -> real, i: nat)
    requires i < n <= |s| && KeysCovered(nd, s)
    ensures Outcome(s, i, nd, draw) in Survivors(s, n, nd, draw, Outcome(s, i, nd, draw).stage)
  {
    if i < n - 1 {
      SurvivorsContain(s, n - 1, nd, draw, i);
    }
  }

  /** Without a currentAdult, the loop never acquires one. */
  lemma {:induction false} SweepNoResident(s: seq<Plant>, n: nat, nd: Dict<int>, draw: nat -> real)
    requires n <= |s| && KeysCovered(nd, s)
    ensures SweepUpTo(s, n, nd, draw, None).resident == None
  {
    if n > 0 {
      SweepNoResident(s, n - 1, nd, draw);
    }
  }

  /**
   * With the currentAdult stored at position `i` and no other Adult stored, the loop's
   * currentAdult follows that plant: unchanged before it is reached, its outcome afterwards
   * if it survived, and none if it died.
   */
  lemma {:induction false} SweepResident(s: seq<Plant>, n: nat, nd: Dict<int>, draw: nat -> real, i: nat)
    requires n <= |s| && KeysCovered(nd, s)
    requires i < |s| && s[i].stage == Adult
    requires forall k :: 0 <= k < |s| && k != i ==> s[k].stage != Adult
    ensures SweepUpTo(s, n, nd, draw, Some(s[i])).resident ==
      if n <= i then Some(s[i])
      else if Outcome(s, i, nd, draw).stage == Dead then None
      else Some(Outcome(s, i, nd, draw))
  {
    if n > 0 {
      SweepResident(s, n - 1, nd, draw, i);
    }
  }

  /**
   * `update` (plants.py:372-441) with the election corrected: every plant takes its tick;
   * dead plants are dropped; juveniles are kept in order; the resident stays resident if it
   * survived, otherwise one of the newly grown adults, picked by `pick`, is elected; every
   * other adult is discarded. The resident is appended after the juveniles.
   */
  function Update(a: PlantArray, nd: Dict<int>, draw: nat -> real, pick: nat): (r: PlantArray)
    requires KeysCovered(nd, a.storage)
    ensures r.limit == a.limit
    ensures r.storage == Survivors(a.storage, |a.storage|, nd, draw, Juvenile)
      + (if r.resident.Some? then [r.resident.value] else [])
  {
    var sw := SweepUpTo(a.storage, |a.storage|, nd, draw, a.resident);
    SweepShape(a.storage, |a.storage|, nd, draw, a.resident);
    match sw.resident
    case Some(ad) =>
      PlantArray(Some(ad), sw.juveniles + [ad], a.limit, BumpAdult(sw.cache, ad.species.id))
    case None =>
      if |sw.adults| > 0 then
        var ad := sw.adults[pick % |sw.adults|];
        PlantArray(Some(ad), sw.juveniles + [ad], a.limit, BumpAdult(sw.cache, ad.species.id))
      else
        PlantArray(None, sw.juveniles, a.limit, sw.cache)
  }

  /** Index of the resident in a valid array's storage. */
  function ResidentIndex(a: PlantArray): (i: nat)
    requires Valid(a) && a.resident.Some?
    ensures i < |a.storage| && a.storage[i] == a.resident.value
  {
    IndexOf(a.storage, a.resident.value)
  }

  function IndexOf(s: seq<Plant>, p: Plant): (i: nat)
    requires p in s
    ensures i < |s| && s[i] == p
  {
    if s[0] == p then 0 else 1 + IndexOf(s[1..], p)
  }

  /**
   * The resident policy of `update`: a resident that survives its tick stays (aged by one);
   * otherwise the new resident, if any, is the `pick`-th of the plants that grew up this tick,
   * and there is one exactly when some plant grew up.
   */
  lemma UpdateResident(a: PlantArray, nd: Dict<int>, draw: nat -> real, pick: nat)
    requires Valid(a) && KeysCovered(nd, a.storage)
    ensures var r := Update(a, nd, draw, pick);
      var grown := Survivors(a.storage, |a.storage|, nd, draw, Adult);
      if a.resident.Some? && Outcome(a.storage, ResidentIndex(a), nd, draw).stage != Dead then
        r.resident == Some(Outcome(a.storage, ResidentIndex(a), nd, draw))
      else
        && (r.resident.Some? <==> |grown| > 0)
        && (r.resident.Some? ==> r.resident.value == grown[pick % |grown|])
  {
    var s := a.storage;
    SweepShape(s, |s|, nd, draw, a.resident);
    if a.resident.Some? {
      var i := ResidentIndex(a);
      CountStageOne(s, Adult, i);
      SweepResident(s, |s|, nd, draw, i);
    } else {
      SweepNoResident(s, |s|, nd, draw);
    }
  }

  /** `update` preserves the invariant: capacity, one resident adult, no dead plants, and a
      cache that counts the storage. */
  lemma UpdateValid(a: PlantArray, nd: Dict<int>, draw: nat -> real, pick: nat)
    requires Valid(a) && KeysCovered(nd, a.storage)
    ensures Valid(Update(a, nd, draw, pick))
  {
    var s := a.storage;
    var r := Update(a, nd, draw, pick);
    var sw := SweepUpTo(s, |s|, nd, draw, a.resident);
    SweepShape(s, |s|, nd, draw, a.resident);
    SurvivorsStage(s, |s|, nd, draw, Juvenile);
    SurvivorsStage(s, |s|, nd, draw, Adult);
    UpdateResident(a, nd, draw, pick);
    CountStageZero(sw.juveniles, Adult);
    assert NoDead(sw.juveniles);
    if r.resident.Some? {
      var ad := r.resident.value;
      if a.resident.Some? && Outcome(s, ResidentIndex(a), nd, draw).stage != Dead {
        SurvivorsContain(s, |s|, nd, draw, ResidentIndex(a));
      }
      assert ad in sw.adults;
      CountAppend(sw.juveniles, ad);
      CacheAppendAdult(sw.cache, sw.juveniles, ad);
      PatchesKeyed(sw.cache, ad.species.id);
    }
  }

  /**
   * `update` as written: when the resident died or there was none, plants.py:423-431 elects a
   * grown adult but leaves `speciesID` at -1, so the elected adult is neither appended to the
   * storage nor counted in the cache. Everything else agrees with `Update`.
   */
  function UpdateAsWritten(a: PlantArray, nd: Dict<int>, draw: nat -> real, pick: nat): (r: PlantArray)
    requires KeysCovered(nd, a.storage)
    ensures r.resident == Update(a, nd, draw, pick).resident && r.limit == a.limit
    ensures r.storage == Update(a, nd, draw, pick).storage
         || r.storage == Survivors(a.storage, |a.storage|, nd, draw, Juvenile)
  {
    var sw := SweepUpTo(a.storage, |a.storage|, nd, draw, a.resident);
    SweepShape(a.storage, |a.storage|, nd, draw, a.resident);
    match sw.resident
    case Some(ad) =>
      PlantArray(Some(ad), sw.juveniles + [ad], a.limit, BumpAdult(sw.cache, ad.species.id))
    case None =>
      if |sw.adults| > 0 then
        PlantArray(Some(sw.adults[pick % |sw.adults|]), sw.juveniles, a.limit, sw.cache)
      else
        PlantArray(None, sw.juveniles, a.limit, sw.cache)
  }

  /** A one-plant array of capacity 1 whose juvenile (t1 = 1) grows up in a tick without
      crowding. */
  function GrowingCell(): PlantArray
  {
    PlantArray(None, [Plant(TestSpecies(1, 1), 0, Juvenile)], 1, [(1, Counts(0, 1))])
  }

  lemma GrowingCellValid()
    ensures Valid(GrowingCell())
  {
    var a := GrowingCell();
    CountSingleton(a.storage[0]);
    forall id ensures CacheAt(a.cache, id) == CountsOf(a.storage, id) {
      assert a.cache[1..] == [];
      assert id != 1 ==> Lookup(a.cache, id) == Lookup(a.cache[1..], id);
    }
  }

  /** Survival draws that every plant with a positive margin survives. */
  function ZeroDraws(k: nat): real { 0.0 }

  lemma GrowingCellKeys()
    ensures KeysCovered([(1, 1)], GrowingCell().storage)
  {
  }

  lemma GrowingCellCrowding()
    ensures NeighbourCounts([(1, 1)], 1) == (0, 1)
  {
    var nd: Dict<int> := [(1, 1)];
    assert Sum(nd) == 1 by { assert nd[1..] == []; }
  }

  lemma GrowingCellOutcome()
    ensures KeysCovered([(1, 1)], GrowingCell().storage)
    ensures Outcome(GrowingCell().storage, 0, [(1, 1)], ZeroDraws) == Plant(TestSpecies(1, 1), 1, Adult)
  {
    GrowingCellKeys();
    GrowingCellCrowding();
    GrowingJuvenileGrows();
  }

  lemma GrowingJuvenileGrows()
    ensures Advance(Plant(TestSpecies(1, 1), 0, Juvenile), 0, 1, 0.0) == Plant(TestSpecies(1, 1), 1, Adult)
  {
  }

  /** The tick of `GrowingCell`: its juvenile grows up and nothing else survives. */
  lemma GrowingCellSweep()
    ensures KeysCovered([(1, 1)], GrowingCell().storage)
    ensures SweepUpTo(GrowingCell().storage, 1, [(1, 1)], ZeroDraws, None)
         == Sweep([], [Plant(TestSpecies(1, 1), 1, Adult)], [], None)
  {
    GrowingCellOutcome();
  }

  /** plants.py:431: the juvenile grows up and is elected, but the as-written update leaves
      it out of the storage, so the resident is no longer stored. */
  lemma ElectedAdultLeftOut()
    ensures var a := GrowingCell();
            && Valid(a)
            && UpdateAsWritten(a, [(1, 1)], ZeroDraws, 0) == PlantArray(Some(Plant(TestSpecies(1, 1), 1, Adult)), [], 1, [])
            && !Valid(UpdateAsWritten(a, [(1, 1)], ZeroDraws, 0))
  {
    GrowingCellValid();
    GrowingCellSweep();
  }

  /** The corrected update stores and counts the elected adult in the same situation. */
  lemma ElectedAdultStored()
    ensures var grown := Plant(TestSpecies(1, 1), 1, Adult);
            && Update(GrowingCell(), [(1, 1)], ZeroDraws, 0) == PlantArray(Some(grown), [grown], 1, [(1, Counts(1, 0))])
            && Valid(Update(GrowingCell(), [(1, 1)], ZeroDraws, 0))
  {
    GrowingCellValid();
    GrowingCellSweep();
    UpdateValid(GrowingCell(), [(1, 1)], ZeroDraws, 0);
  }

  /** The cell left by the as-written update, after a species-2 juvenile (t1 = 5) merged in. */
  function OverflowCell(): PlantArray
  {
    AddPlant(PlantArray(Some(Plant(TestSpecies(1, 1), 1, Adult)), [], 1, []), Plant(TestSpecies(2, 5), 0, Juvenile), 0)
  }

  lemma OverflowCellContents()
    ensures OverflowCell().storage == [Plant(TestSpecies(2, 5), 0, Juvenile)]
    ensures OverflowCell().resident == Some(Plant(TestSpecies(1, 1), 1, Adult))
    ensures KeysCovered([(2, 1)], OverflowCell().storage)
  {
  }

  lemma OverflowCellOutcome()
    ensures KeysCovered([(2, 1)], OverflowCell().storage)
    ensures Outcome(OverflowCell().storage, 0, [(2, 1)], ZeroDraws) == Plant(TestSpecies(2, 5), 1, Juvenile)
  {
    OverflowCellContents();
    var nd: Dict<int> := [(2, 1)];
    assert Sum(nd) == 1 by { assert nd[1..] == []; }
    assert NeighbourCounts(nd, 2) == (0, 1);
    SmallJuvenileSurvives();
  }

  lemma SmallJuvenileSurvives()
    ensures Advance(Plant(TestSpecies(2, 5), 0, Juvenile), 0, 1, 0.0) == Plant(TestSpecies(2, 5), 1, Juvenile)
  {
  }

  /**
   * plants.py:431, one tick later: the juvenile of `OverflowCell` fills the single slot, and at
   * the next as-written update the unstored resident is appended after it, so the cell holds
   * two plants against a capacity of one.
   */
  lemma ElectedAdultOverflows()
    ensures KeysCovered([(2, 1)], OverflowCell().storage)
    ensures var next := UpdateAsWritten(OverflowCell(), [(2, 1)], ZeroDraws, 0);
            && next.storage == [Plant(TestSpecies(2, 5), 1, Juvenile), Plant(TestSpecies(1, 1), 1, Adult)]
            && |next.storage| > next.limit
  {
    OverflowCellContents();
    OverflowCellOutcome();
  }

  // ---------------------------------------------------------------------------------------
  // The adult-dispersal (boomer) model stores adults only

  predicate AllAdult(s: seq<Plant>)
  {
    forall k :: 0 <= k < |s| ==> s[k].stage == Adult
  }

  /** A valid array that stores adults only holds exactly its resident, or nothing. */
  lemma AdultsOnlyMeansResidentOnly(a: PlantArray)
    requires Valid(a) && AllAdult(a.storage)
    ensures a.storage == if a.resident.Some? then [a.resident.value] else []
  {
    if |a.storage| > 0 {
      OnlyAdultIsResident(a, 0);
      if |a.storage| > 1 {
        OnlyAdultIsResident(a, 1);
        CountStageOne(a.storage, Adult, 0);
      }
    }
  }

  lemma {:induction false} SurvivorsOfAdults(s: seq<Plant>, n: nat, nd: Dict<int>, draw: nat -> real)
    requires n <= |s| && KeysCovered(nd, s) && AllAdult(s)
    ensures Survivors(s, n, nd, draw, Juvenile) == []
  {
    if n > 0 {
      SurvivorsOfAdults(s, n - 1, nd, draw);
    }
  }

  /** In the boomer model `update` keeps an adults-only array adults-only. */
  lemma UpdateKeepsAdultsOnly(a: PlantArray, nd: Dict<int>, draw: nat -> real, pick: nat)
    requires KeysCovered(nd, a.storage) && AllAdult(a.storage)
    requires Valid(a)
    ensures AllAdult(Update(a, nd, draw, pick).storage)
  {
    SurvivorsOfAdults(a.storage, |a.storage|, nd, draw);
    UpdateResidentAdult(a, nd, draw, pick);
    var r := Update(a, nd, draw, pick);
    assert r.storage == [] + (if r.resident.Some? then [r.resident.value] else []);
  }

  /** Whoever `update` makes resident is an Adult. */
  lemma UpdateResidentAdult(a: PlantArray, nd: Dict<int>, draw: nat -> real, pick: nat)
    requires Valid(a) && KeysCovered(nd, a.storage)
    ensures var r := Update(a, nd, draw, pick);
      r.resident.Some? ==> r.resident.value.stage == Adult
  {
    UpdateResident(a, nd, draw, pick);
    SurvivorsStage(a.storage, |a.storage|, nd, draw, Adult);
    if a.resident.Some? {
      assert a.storage[ResidentIndex(a)].stage == Adult;
    }
  }

  /** Offering adults to an adults-only array keeps it adults-only. */
  lemma {:induction false} AddAllKeepsAdultsOnly(a: PlantArray, ps: seq<Plant>, slot: nat -> nat, k: nat)
    requires 0 < a.limit && AllAdult(a.storage) && AllAdult(ps)
    ensures AllAdult(AddAll(a, ps, slot, k).storage)
    decreases |ps|
  {
    if |ps| > 0 {
      var a' := AddPlant(a, ps[0], slot(k));
      assert AllAdult(a'.storage) by {
        forall i | 0 <= i < |a'.storage| ensures a'.storage[i].stage == Adult {
          assert a'.storage[i] in a'.storage;
        }
      }
      AddAllKeepsAdultsOnly(a', ps[1..], slot, k + 1);
    }
  }
}
