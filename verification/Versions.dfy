/** Semantic versions (precedence of section 11 of Semantic Versioning 2.0.0, releases only)
    and the version pairs a conversion is named by. */
module Versions {
  import Sorting

  datatype Version = Version(major: nat, minor: nat, patch: nat)

  /** -1, 0 or 1: the first of major, minor and patch that differs decides. */
  function Compare(a: Version, b: Version): (r: int) {
    if a.major != b.major then (if a.major < b.major then -1 else 1)
    else if a.minor != b.minor then (if a.minor < b.minor then -1 else 1)
    else if a.patch != b.patch then (if a.patch < b.patch then -1 else 1)
    else 0
  }

  predicate Less(a: Version, b: Version) {
    Compare(a, b) < 0
  }

  datatype Tuple = Tuple(source: Version, target: Version) {
    /** An equal pair counts as an upwards conversion. */
    predicate IsUp() {
      Compare(source, target) <= 0
    }
  }

  /** Precedence is decided by the most significant number that differs, and going from a version to
      another and back is up one way and down the other, unless they are the same. */
  lemma {:induction false} DirectionsOpposed(a: Version, b: Version)
    ensures Less(a, b) ==> a.major < b.major || (a.major == b.major && a.minor <= b.minor)
    ensures Less(a, b) && a.major == b.major ==> a.minor < b.minor || (a.minor == b.minor && a.patch < b.patch)
    ensures Tuple(a, b).IsUp() <==> a == b || Less(a, b)
    ensures Tuple(a, b).IsUp() && Tuple(b, a).IsUp() <==> a == b
  {
  }

  /** Two steps in one direction make one step in that direction. */
  lemma {:induction false} SameDirection(a: Version, b: Version, c: Version)
    requires Tuple(a, b).IsUp() == Tuple(b, c).IsUp()
    ensures Tuple(a, c).IsUp() == Tuple(b, c).IsUp()
  {
  }

  lemma {:induction false} LessIsStrictTotal()
    ensures Sorting.StrictTotalOrder(Less)
  {
  }
}
