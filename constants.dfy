/** The enumerations of src/constants.ts. */
module Constants {

  /** FORWARD = 1, REVERSE = -1 in the source. */
  datatype ScrollDirection = Forward | Reverse

  /** NONE = 0, OBSERVED = 1 (a scroll event), REQUESTED = 2 (a programmatic scroll). */
  datatype ScrollTrigger = NoTrigger | Observed | Requested
}
