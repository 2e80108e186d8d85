/**
 * The plant classes of the Java re-implementation: Species.java (a record compared by
 * species id) and four variants of the Juvenile and Adult transitions, each returning the
 * surviving plant or null (here `None`). The uniform draw of `Math.random()` is an explicit
 * parameter `draw`.
 *
 * The variants differ only in their survival threshold and in the age of a promoted plant:
 *   BaseInitAdult/Juvenile.java        threshold seedPerTick, promotion keeps the age
 *   CorrectedBivDev1-50Adult/Juvenile  threshold p1, promotion resets the age to 0
 *   Adult.java                         threshold 1
 *   Base1-50/Adult.java                threshold p2
 */
module JPlants {
  import opened Options
  import Species
  import Plants

  /** The fields of Species.java, in their declaration order. */
  datatype JSpecies = JSpecies(
    speciesId: int,
    t1: int,
    p1: real,
    seedPerTick: real,
    t2: int,
    p2: real,
    adultPerTick: real,
    conNDD: real,
    hetNDD: real)

  /** The constructor of Species.java, whose parameter order differs from the field order:
      every argument lands in the field of the same name. */
  function NewSpecies(speciesId: int, p1: real, p2: real, t1: int, t2: int,
                      seedPerTick: real, adultPerTick: real, conNDD: real, hetNDD: real): (r: JSpecies)
    ensures r.speciesId == speciesId && r.t1 == t1 && r.t2 == t2
    ensures r.p1 == p1 && r.p2 == p2
    ensures r.seedPerTick == seedPerTick && r.adultPerTick == adultPerTick
    ensures r.conNDD == conNDD && r.hetNDD == hetNDD
  {
    JSpecies(speciesId, t1, p1, seedPerTick, t2, p2, adultPerTick, conNDD, hetNDD)
  }

  /** A Java reference as seen by `equals`: null, a Species object, or an object of another
      class. Two values are the same reference exactly when they are equal. */
  datatype Object = Null | SpeciesObject(ref: nat, species: JSpecies) | OtherObject(ref: nat)

  /**
   * `Species.equals` (Species.java:33-45): false for null, true for the object itself, and
   * for another Species true exactly when the species ids agree; false for any other class.
   */
  function Equals(self: Object, obj: Object): (r: bool)
    requires self.SpeciesObject?
    ensures obj.Null? ==> !r
    ensures obj == self ==> r
    ensures obj.SpeciesObject? ==> (r <==> self.species.speciesId == obj.species.speciesId)
    ensures obj.OtherObject? ==> !r
  {
    if obj.Null? then false
    else if self == obj then true
    else if obj.SpeciesObject? then self.species.speciesId == obj.species.speciesId
    else false
  }

  /** On Species objects `equals` is an equivalence: it is symmetric and transitive. */
  lemma EqualsIsEquivalence(a: Object, b: Object, c: Object)
    requires a.SpeciesObject? && b.SpeciesObject? && c.SpeciesObject?
    ensures Equals(a, b) == Equals(b, a)
    ensures Equals(a, b) && Equals(b, c) ==> Equals(a, c)
  {
  }

  datatype JStage = Juvenile | Adult

  /** A Java plant: its species, its age, and its class. */
  datatype JPlant = JPlant(species: JSpecies, age: int, stage: JStage)

  /** `Juvenile.calculateNDD`: crowding counts twice for juveniles. */
  function JuvenileNDD(sp: JSpecies, c: real, h: real): real
  {
    2.0 * c * sp.conNDD + 2.0 * h * sp.hetNDD
  }

  /** `Adult.calculateNDD`. */
  function AdultNDD(sp: JSpecies, c: real, h: real): real
  {
    c * sp.conNDD + h * sp.hetNDD
  }

  /**
   * BaseInitAdult/Juvenile.java `update`: the juvenile survives when the draw does not
   * exceed seedPerTick minus its crowding; it then ages by one and, once its age reaches t1,
   * is replaced by an Adult of the same species and age. A failed draw yields null.
   */
  function BaseJuvenileUpdate(sp: JSpecies, age: int, c: int, h: int, draw: real): (r: Option<JPlant>)
    ensures r.Some? <==> draw <= sp.seedPerTick - JuvenileNDD(sp, c as real, h as real)
    ensures r.Some? ==> r.value.species == sp && r.value.age == age + 1
    ensures r.Some? ==> (r.value.stage == Adult <==> age + 1 >= sp.t1)
  {
    if draw <= sp.seedPerTick - JuvenileNDD(sp, c as real, h as real) then
      if age + 1 >= sp.t1 then Some(JPlant(sp, age + 1, Adult)) else Some(JPlant(sp, age + 1, Juvenile))
    else None
  }

  /**
   * CorrectedBivDev1-50Adult/Juvenile.java `update`: as the base juvenile, but the threshold
   * is p1 and the crowding counts are doubles; a promoted plant starts as an Adult of age 0.
   */
  function CorrectedJuvenileUpdate(sp: JSpecies, age: int, c: real, h: real, draw: real): (r: Option<JPlant>)
    ensures r.Some? <==> draw <= sp.p1 - JuvenileNDD(sp, c, h)
    ensures r.Some? ==> r.value.species == sp
    ensures r.Some? ==> (r.value.stage == Adult <==> age + 1 >= sp.t1)
    ensures r.Some? ==> r.value.age == if r.value.stage == Adult then 0 else age + 1
  {
    if draw <= sp.p1 - JuvenileNDD(sp, c, h) then
      if age + 1 >= sp.t1 then Some(JPlant(sp, 0, Adult)) else Some(JPlant(sp, age + 1, Juvenile))
    else None
  }

  /** Adult.java `update`: the adult survives when the draw does not exceed 1 minus its
      crowding, the species' survival rates playing no part; it then ages by one. */
  function AdultUpdate(sp: JSpecies, age: int, c: int, h: int, draw: real): (r: Option<JPlant>)
    ensures r.Some? <==> draw <= 1.0 - AdultNDD(sp, c as real, h as real)
    ensures r.Some? ==> r.value == JPlant(sp, age + 1, Adult)
  {
    if draw <= 1.0 - AdultNDD(sp, c as real, h as real) then Some(JPlant(sp, age + 1, Adult)) else None
  }

  /** Base1-50/Adult.java `update`: the threshold is p2, with double crowding counts. */
  function Base150AdultUpdate(sp: JSpecies, age: int, c: real, h: real, draw: real): (r: Option<JPlant>)
    ensures r.Some? <==> draw <= sp.p2 - AdultNDD(sp, c, h)
    ensures r.Some? ==> r.value == JPlant(sp, age + 1, Adult)
  {
    if draw <= sp.p2 - AdultNDD(sp, c, h) then Some(JPlant(sp, age + 1, Adult)) else None
  }

  /** The plant update dispatched on the class, as the BaseInitAdult build links it: its
      Juvenile.java and the top-level Adult.java. */
  function Update(p: JPlant, c: int, h: int, draw: real): (r: Option<JPlant>)
    ensures r.Some? ==> r.value.species == p.species
    ensures p.stage == Adult && r.Some? ==> r.value.stage == Adult
  {
    match p.stage
    case Juvenile => BaseJuvenileUpdate(p.species, p.age, c, h, draw)
    case Adult => AdultUpdate(p.species, p.age, c, h, draw)
  }

  // ---------------------------------------------------------------------------------------
  // Against the Python transition

  /** The Python species with the same constants; the Java record has no parent and no
      offspring count. */
  function ToPython(sp: JSpecies): Species.Species
  {
    Species.Species(sp.speciesId, -1, sp.t1, sp.t2, 0, sp.p1, sp.p2, sp.seedPerTick, sp.adultPerTick, sp.conNDD, sp.hetNDD)
  }

  /** What a Java result is in Python terms: null is a DeadPlant of the old age. */
  function AsPython(sp: JSpecies, age: int, r: Option<JPlant>): Plants.Plant
  {
    match r
    case None => Plants.Plant(ToPython(sp), age, Plants.Dead)
    case Some(p) => Plants.Plant(ToPython(p.species), p.age, if p.stage == Adult then Plants.Adult else Plants.Juvenile)
  }

  /** The base Java juvenile and the Python juvenile make the same transition on the same
      draw and counts. */
  lemma BaseJuvenileMatchesPython(sp: JSpecies, age: int, c: int, h: int, draw: real)
    ensures AsPython(sp, age, BaseJuvenileUpdate(sp, age, c, h, draw))
         == Plants.Advance(Plants.Plant(ToPython(sp), age, Plants.Juvenile), c, h, draw)
  {
    var pp := Plants.Plant(ToPython(sp), age, Plants.Juvenile);
    assert Plants.Penalty(pp, c, h) == JuvenileNDD(sp, c as real, h as real);
  }

  /** The Java adult of Adult.java is the Python adult whose per-tick rate is 1. */
  lemma AdultMatchesPythonAtUnitRate(sp: JSpecies, age: int, c: int, h: int, draw: real)
    requires sp.adultPerTick == 1.0
    ensures AsPython(sp, age, AdultUpdate(sp, age, c, h, draw))
         == Plants.Advance(Plants.Plant(ToPython(sp), age, Plants.Adult), c, h, draw)
  {
    var pp := Plants.Plant(ToPython(sp), age, Plants.Adult);
    assert Plants.Penalty(pp, c, h) == AdultNDD(sp, c as real, h as real);
  }

  /** The corrected juvenile is the base juvenile run at rate p1, except that a promoted
      plant restarts at age 0. */
  lemma CorrectedIsBaseAtRateP1(sp: JSpecies, age: int, c: int, h: int, draw: real)
    ensures var base := BaseJuvenileUpdate(sp.(seedPerTick := sp.p1), age, c, h, draw);
      var fixed := CorrectedJuvenileUpdate(sp, age, c as real, h as real, draw);
      && (fixed.Some? <==> base.Some?)
      && (fixed.Some? ==> fixed.value.stage == base.value.stage)
      && (fixed.Some? && fixed.value.stage == Juvenile ==> fixed.value.age == base.value.age)
      && (fixed.Some? && fixed.value.stage == Adult ==> fixed.value.age == 0 && base.value.age == age + 1)
  {
  }
}
