/**
 * The per-species constants read by the Python simulation (simulation_utils/species.py and
 * the Species class of simulation.py). The per-tick survival rates are derived in the source
 * by floating-point exponentiation; here they are given constants of the record.
 */
module Species {

  datatype Species = Species(
    id: int,             // speciesID
    parentId: int,       // parentID, -1 when there is none
    t1: int,             // ticks from seed to adult
    t2: int,             // horizon of the adult survival probability p2
    ns: int,             // offspring per resident adult per tick
    p1: real,            // probability that a seed reaches adulthood
    p2: real,            // probability that an adult is alive after t2 ticks
    seedPerTick: real,   // per-tick survival rate of a juvenile
    adultPerTick: real,  // per-tick survival rate of an adult
    conNDD: real,        // conspecific density-dependence coefficient
    hetNDD: real)        // heterospecific density-dependence coefficient
}
