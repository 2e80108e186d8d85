/**
 * The life-stage state machine of simulation_utils/plants.py (Juvenile, Adult and DeadPlant),
 * which simulation.py repeats line for line. The uniform draw of `random.random()` is an
 * explicit parameter `draw`.
 */
module Plants {
  import opened Species

  datatype Stage = Juvenile | Adult | Dead

  datatype Plant = Plant(species: Species, age: int, stage: Stage)

  /** The crowding multiplier of `calculateNDD`: twice as strong for juveniles. A DeadPlant
      inherits the base class's multiplier of 0. */
  function Multiplier(stage: Stage): real
  {
    match stage
    case Juvenile => 2.0
    case Adult => 1.0
    case Dead => 0.0
  }

  /** The decrease of the survival probability caused by `con` conspecific and `het`
      heterospecific neighbours (`calculateNDD`). */
  function Penalty(p: Plant, con: int, het: int): real
  {
    Multiplier(p.stage) * (con as real * p.species.conNDD + het as real * p.species.hetNDD)
  }

  /** The per-tick survival rate before crowding (`seedPerTick`, `adultPerTick`, or 1 for
      the base class). */
  function BaseRate(p: Plant): real
  {
    match p.stage
    case Juvenile => p.species.seedPerTick
    case Adult => p.species.adultPerTick
    case Dead => 1.0
  }

  /** `updateTick`: the draw survives iff it does not exceed the rate minus the penalty; no
      clamping, so a negative right-hand side means certain death for a draw in [0, 1). */
  predicate Survives(p: Plant, con: int, het: int, draw: real)
  {
    draw <= BaseRate(p) - Penalty(p, con, het)
  }

  /**
   * `update`: one tick of an individual. A surviving Juvenile ages by one and is promoted to
   * an Adult of the same age once that age reaches `t1`; a surviving Adult ages by one; a
   * failed draw yields a DeadPlant of the same species and age. A DeadPlant (never stored by
   * the source) stays dead, aging only on a passing draw as the base class does.
   */
  function Advance(p: Plant, con: int, het: int, draw: real): (r: Plant)
    ensures r.species == p.species
    ensures p.stage != Dead ==> (r.stage == Dead <==> !Survives(p, con, het, draw))
    ensures p.stage != Dead && r.stage != Dead ==> r.age == p.age + 1
    ensures p.stage != Dead && r.stage == Dead ==> r.age == p.age
    ensures p.stage == Juvenile && r.stage != Dead ==> (r.stage == Adult <==> p.age + 1 >= p.species.t1)
    ensures p.stage == Adult ==> r.stage != Juvenile
    ensures p.stage == Dead ==> r.stage == Dead
  {
    if Survives(p, con, het, draw) then
      match p.stage
      case Juvenile =>
        if p.age + 1 >= p.species.t1 then Plant(p.species, p.age + 1, Adult)
        else Plant(p.species, p.age + 1, Juvenile)
      case Adult => Plant(p.species, p.age + 1, Adult)
      case Dead => Plant(p.species, p.age + 1, Dead)
    else
      Plant(p.species, p.age, Dead)
  }

  /** The order Juvenile < Adult < Dead along which a plant may move. */
  function Rank(s: Stage): nat
  {
    match s
    case Juvenile => 0
    case Adult => 1
    case Dead => 2
  }

  /** No transition goes back: adults never become juveniles and the dead stay dead. */
  lemma StageNeverRegresses(p: Plant, con: int, het: int, draw: real)
    ensures Rank(Advance(p, con, het, draw).stage) >= Rank(p.stage)
  {
  }

  /** The juvenile penalty is exactly twice the adult penalty for the same neighbours. */
  lemma JuvenilePenaltyIsDouble(sp: Species, age: int, con: int, het: int)
    ensures Penalty(Plant(sp, age, Juvenile), con, het) == 2.0 * Penalty(Plant(sp, age, Adult), con, het)
  {
  }

  /** With non-negative coefficients, a plant that survives a draw among some neighbours also
      survives it among no more neighbours of either kind. */
  lemma FewerNeighboursNeverHurt(p: Plant, con: int, het: int, con': int, het': int, draw: real)
    requires p.species.conNDD >= 0.0 && p.species.hetNDD >= 0.0
    requires con' <= con && het' <= het
    requires Survives(p, con, het, draw)
    ensures Survives(p, con', het', draw)
  {
    var c := p.species.conNDD;
    var h := p.species.hetNDD;
    ScaleMonotone(con' as real, con as real, c);
    ScaleMonotone(het' as real, het as real, h);
    var before := con as real * c + het as real * h;
    var after := con' as real * c + het' as real * h;
    ScaleMonotone(after, before, Multiplier(p.stage));
  }

  /** Scaling by a non-negative factor keeps the order. */
  lemma ScaleMonotone(x: real, y: real, c: real)
    requires x <= y && 0.0 <= c
    ensures x * c <= y * c
  {
    ProductNonNegative(y - x, c);
    assert y * c - x * c == (y - x) * c;
  }

  lemma ProductNonNegative(a: real, b: real)
    requires 0.0 <= a && 0.0 <= b
    ensures 0.0 <= a * b
  {
  }

  /** Under crowding heavy enough to push the rate below zero, no draw in [0, 1) survives. */
  lemma OvercrowdedPlantDies(p: Plant, con: int, het: int, draw: real)
    requires p.stage != Dead
    requires BaseRate(p) - Penalty(p, con, het) < 0.0
    requires 0.0 <= draw
    ensures Advance(p, con, het, draw).stage == Dead
  {
  }
}
