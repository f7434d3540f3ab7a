/** Versions as the registry sees them: a `semver::Version` carries a numeric
    core plus pre-release and build text, but only the core is ever stored,
    compared or used as a key. Requirements (`semver::VersionReq`) belong to a
    foreign crate and are kept opaque: any predicate on versions. */
module SemVer {
  import opened Prelude

  datatype Version = Version(major: u64, minor: u64, patch: u64, pre: string, build: string)

  /** A (major, minor, patch) triple. The same shape holds both the unsigned
      version core and the signed integers a catalog row stores. */
  datatype Triple = Triple(major: int, minor: int, patch: int)

  /** `Version::new`: a version with empty pre-release and build data. */
  function Plain(major: u64, minor: u64, patch: u64): (v: Version)
    ensures IsPlain(v)
    ensures Core(v) == Triple(major, minor, patch)
  {
    Version(major, minor, patch, "", "")
  }

  predicate IsPlain(v: Version) {
    v.pre == "" && v.build == ""
  }

  function Core(v: Version): Triple {
    Triple(v.major, v.minor, v.patch)
  }

  predicate InU64(t: Triple) {
    0 <= t.major < U64_MODULUS && 0 <= t.minor < U64_MODULUS && 0 <= t.patch < U64_MODULUS
  }

  /** Version precedence restricted to versions without a pre-release tag
      (section 11 of Semantic Versioning 2.0.0): lexicographic on the three
      components, each compared numerically, so 9.0.0 < 10.0.0. */
  predicate Lt(a: Triple, b: Triple) {
    || a.major < b.major
    || (a.major == b.major && a.minor < b.minor)
    || (a.major == b.major && a.minor == b.minor && a.patch < b.patch)
  }

  /** A version requirement, as far as the registry uses it: `req.matches(v)`. */
  type Req = Version -> bool

  /** `VersionReq::any()`. */
  const Any: Req := (v: Version) => true
}
