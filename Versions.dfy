/**
 * `System.Version`: four integer components (Build and Revision are -1 when
 * unspecified), compared component by component.
 */
module Versions {

  datatype Version = Version(Major: int, Minor: int, Build: int, Revision: int)

  /** `a < b` on versions: lexicographic on (Major, Minor, Build, Revision). */
  predicate Less(a: Version, b: Version) {
    || a.Major < b.Major
    || (a.Major == b.Major && a.Minor < b.Minor)
    || (a.Major == b.Major && a.Minor == b.Minor && a.Build < b.Build)
    || (a.Major == b.Major && a.Minor == b.Minor && a.Build == b.Build && a.Revision < b.Revision)
  }

  /** A two-component version such as `new Version(4, 5)`. */
  function V2(major: int, minor: int): Version {
    Version(major, minor, -1, -1)
  }

  /** `Less` is a strict total order. */
  lemma LessIsStrictTotalOrder(a: Version, b: Version, c: Version)
    ensures !Less(a, a)
    ensures Less(a, b) ==> !Less(b, a)
    ensures Less(a, b) && Less(b, c) ==> Less(a, c)
    ensures a == b || Less(a, b) || Less(b, a)
  {
  }
}
