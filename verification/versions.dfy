/**
 * Package versions and version ranges.
 *
 * NuGet's versions are compared with a release-aware order that ignores build
 * metadata. The model abstracts a version to its position in that order: two
 * versions are equal under the comparer exactly when their ranks are equal.
 * The normalised string is carried along because the solver reports it.
 */
module Versions {
  import opened Wrappers

  datatype Version = Version(rank: nat, normalized: string)

  /** One end of a range; `inclusive` says whether the end point itself satisfies it. */
  datatype Bound = Bound(version: Version, inclusive: bool)

  /** An interval of versions; a missing bound leaves that side unconstrained. */
  datatype VersionRange = VersionRange(min: Option<Bound>, max: Option<Bound>)

  /** The range every version satisfies (NuGet's `VersionRange.All`). */
  const All: VersionRange := VersionRange(None, None)

  predicate AboveMin(min: Option<Bound>, v: Version) {
    match min
    case None => true
    case Some(b) => if b.inclusive then b.version.rank <= v.rank else b.version.rank < v.rank
  }

  predicate BelowMax(max: Option<Bound>, v: Version) {
    match max
    case None => true
    case Some(b) => if b.inclusive then v.rank <= b.version.rank else v.rank < b.version.rank
  }

  /** Range membership, each end checked against its own inclusive flag. */
  predicate Satisfies(r: VersionRange, v: Version) {
    AboveMin(r.min, v) && BelowMax(r.max, v)
  }

  /** Membership in a possibly missing range: a missing (null) range allows every version. */
  predicate Allows(range: Option<VersionRange>, v: Version) {
    range.None? || Satisfies(range.value, v)
  }

  /** A missing range and the all-versions range admit the same versions. */
  lemma NullRangeIsAll(v: Version)
    ensures Allows(None, v) && Allows(Some(All), v)
  {
  }
}
