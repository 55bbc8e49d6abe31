/** The record the discovery produces for each installed Java runtime. */
module Distributions {
  import opened Text

  /**
   * One installed Java runtime. In the source a mutable object whose
   * properties default to "" and false; here a value, since the one property
   * set after construction (isActive) is set before the object is shared.
   */
  datatype JavaDistribution = JavaDistribution(
    displayName: string,
    version: string,
    vendor: string,
    homePath: string,
    isActive: bool,
    runtimeName: string)

  /** No two entries have home paths that are equal under ordinal ignore-case comparison. */
  predicate DistinctHomes(ds: seq<JavaDistribution>) {
    forall i, j | 0 <= i < j < |ds| :: !EqualsIgnoreCase(ds[i].homePath, ds[j].homePath)
  }
}
