/** Measured quantities as the analysis scripts read them from a sheet. */
module Uncertain {

  /** A reading with its standard deviation, as `ufloat(value, error)` carries it. */
  datatype Reading = Reading(nominal: real, stddev: real)
}
