/** The samples of the selection scripts' main loops: one background
    sample (one per gamma in the linear script) and one signal sample per
    (mass, gamma) point, some of which are skipped.
 */
module Samples {

  /** The keys under which the main loops store each sample's table:
      `atmos`, `atmos_<gamma>` and `e<E>_m<mass>`. The signal key is
      identified by its (mass, gamma) point; the spelling of the energy in
      the key string is not modelled. */
  datatype SampleKey = Atmos | AtmosGamma(gamma: real) | Signal(mass: nat, gamma: real)

  /** The main loops skip the signal points of masses 5, 20 and 40 at
      gamma 2. */
  predicate Skipped(mass: nat, gamma: real) {
    mass in [5, 20, 40] && gamma == 2.0
  }
}
