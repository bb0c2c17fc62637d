/** The two catch-all classes (internal/kea/classes.go). */
module ClassNames {

  /** Green-GO devices without a pool of their own. */
  const GGO_OTHERS := "GGO-OTHERS"

  /** Every other device. */
  const OTHERS := "OTHERS"
}
