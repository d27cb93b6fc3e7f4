/** Darwin kernel versions: triples of naturals, compared the way Python compares tuples. */
module DarwinVersions {
  datatype Version = Version(major: nat, minor: nat, patch: nat)

  predicate Less(a: Version, b: Version) {
    || a.major < b.major
    || (a.major == b.major && a.minor < b.minor)
    || (a.major == b.major && a.minor == b.minor && a.patch < b.patch)
  }

  predicate AtMost(a: Version, b: Version) {
    a == b || Less(a, b)
  }

  /** A closed range of kernel versions; empty when `max` lies below `min`. */
  datatype Range = Range(min: Version, max: Version) {
    predicate Accepts(v: Version) {
      AtMost(min, v) && AtMost(v, max)
    }
  }

  /** What lies in both ranges. */
  function Meet(a: Range, b: Range): Range {
    Range(if Less(b.min, a.min) then a.min else b.min, if Less(a.max, b.max) then a.max else b.max)
  }

  // ------------------------------------------------------------------ the order as the order of numbers

  lemma TimesGrows(x: nat, y: nat, base: nat)
    requires x < y
    ensures x * base + base <= y * base
  {
    assert y * base == (y - x) * base + x * base;
    assert (y - x) * base >= base by { assert (y - x) * base == (y - x - 1) * base + base; }
  }

  lemma PairsByNumber(x: nat, a: nat, y: nat, b: nat, base: nat)
    requires a < base && b < base
    ensures x * base + a < y * base + b <==> x < y || (x == y && a < b)
  {
    if x < y { TimesGrows(x, y, base); }
    if y < x { TimesGrows(y, x, base); }
  }

  /**
   * Read as digits of one number, two versions compare as their numbers do; so does a range with a version. The base
   * is any number above all minor and patch numbers.
   */
  lemma OrderIsByNumber(a: Version, b: Version, base: nat)
    requires a.minor < base && a.patch < base && b.minor < base && b.patch < base
    ensures Less(a, b) <==> (a.major * base + a.minor) * base + a.patch < (b.major * base + b.minor) * base + b.patch
    ensures AtMost(a, b) <==> (a.major * base + a.minor) * base + a.patch <= (b.major * base + b.minor) * base + b.patch
  {
    PairsByNumber(a.major, a.minor, b.major, b.minor, base);
    PairsByNumber(b.major, b.minor, a.major, a.minor, base);
    PairsByNumber(a.major * base + a.minor, a.patch, b.major * base + b.minor, b.patch, base);
    PairsByNumber(b.major * base + b.minor, b.patch, a.major * base + a.minor, a.patch, base);
  }

  /** A range accepts the versions from its lower to its upper bound. */
  lemma RangeIsByNumber(r: Range, v: Version, base: nat)
    requires r.min.minor < base && r.min.patch < base && r.max.minor < base && r.max.patch < base
    requires v.minor < base && v.patch < base
    ensures r.Accepts(v) <==>
      (r.min.major * base + r.min.minor) * base + r.min.patch
      <= (v.major * base + v.minor) * base + v.patch
      <= (r.max.major * base + r.max.minor) * base + r.max.patch
  {
    OrderIsByNumber(r.min, v, base);
    OrderIsByNumber(v, r.max, base);
  }
}
