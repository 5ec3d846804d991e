/**
 * Semantic versions as the release tasks use them: `baseVersion`, the
 * increment `bump-develop` applies, the rendering into the strings that the
 * package record and the tag carry, and the precedence order of Semantic
 * Versioning 2.0.0, section 11.
 */
module Versions {
  import opened Wrappers
  import opened Text

  /** A parsed semantic version. Build metadata is not modelled. */
  datatype Version = Version(major: nat, minor: nat, patch: nat, prerelease: Option<string>)

  /** The increments `bump-develop` accepts. */
  datatype BumpType = Major | Minor | Patch

  /** The label `bump-develop` appends to the next development version. */
  const DevelopLabel: string := "prerelease"

  predicate IsRelease(v: Version)
  {
    v.prerelease.None?
  }

  /** `baseVersion`: major.minor.patch of `v`, without its prerelease label. */
  function BaseVersion(v: Version): (b: Version)
    ensures IsRelease(b)
    ensures b == v <==> IsRelease(v)
  {
    Version(v.major, v.minor, v.patch, None)
  }

  /** `semver.inc` on a release version: Semantic Versioning 2.0.0, section 6
      (patch), 7 (minor, which resets patch) and 8 (major, which resets minor
      and patch). The result is a release version. */
  function Inc(v: Version, t: BumpType): (r: Version)
    ensures IsRelease(r) && ZeroBelow(r, t)
    ensures Less(v, r)
  {
    match t
    case Major => Version(v.major + 1, 0, 0, None)
    case Minor => Version(v.major, v.minor + 1, 0, None)
    case Patch => Version(v.major, v.minor, v.patch + 1, None)
  }

  /** The version `bump-develop` computes: the base version, incremented,
      with the label `prerelease`. */
  function NextDevelop(v: Version, t: BumpType): (r: Version)
    ensures r.prerelease == Some(DevelopLabel)
    ensures Less(BaseVersion(v), r)
  {
    Inc(BaseVersion(v), t).(prerelease := Some(DevelopLabel))
  }

  /** The bump type `bump-develop` uses: the `--bump-type` argument, else the
      `--bumpType` argument, else `minor`; an empty argument counts as absent,
      like any falsy JavaScript value. */
  function ChooseBumpType(dashed: Option<string>, camel: Option<string>): (name: string)
    ensures name != ""
    ensures Truthy(dashed) ==> name == dashed.value
    ensures !Truthy(dashed) && Truthy(camel) ==> name == camel.value
    ensures !Truthy(dashed) && !Truthy(camel) ==> name == "minor"
  {
    if Truthy(dashed) then dashed.value
    else if Truthy(camel) then camel.value
    else "minor"
  }

  /** The three increment names; any other name is not modelled. */
  function ParseBumpType(name: string): (t: Option<BumpType>)
    ensures t == Some(Major) <==> name == "major"
    ensures t == Some(Minor) <==> name == "minor"
    ensures t == Some(Patch) <==> name == "patch"
  {
    if name == "major" then Some(Major)
    else if name == "minor" then Some(Minor)
    else if name == "patch" then Some(Patch)
    else None
  }

  /** With neither argument truthy (absent or empty), the bump is a minor one. */
  lemma DefaultBumpIsMinor(dashed: Option<string>, camel: Option<string>)
    requires !Truthy(dashed) && !Truthy(camel)
    ensures ParseBumpType(ChooseBumpType(dashed, camel)) == Some(Minor)
  {
  }

  // ---------------------------------------------------------------------
  // Precedence (Semantic Versioning 2.0.0, section 11)
  // ---------------------------------------------------------------------

  function CompareNat(a: nat, b: nat): (c: int)
    ensures c == 0 <==> a == b
    ensures c < 0 <==> a < b
  {
    if a < b then -1 else if a > b then 1 else 0
  }

  /** A prerelease identifier made only of digits. */
  predicate IsNumeric(id: string)
  {
    |id| > 0 && AllDigits(id)
  }

  /** Section 11.4.1 to 11.4.3: numeric identifiers compare as numbers and
      before alphanumeric ones, alphanumeric identifiers compare by
      character code. */
  function CompareIdentifiers(a: string, b: string): (c: int)
    ensures -1 <= c <= 1
  {
    if IsNumeric(a) && IsNumeric(b) then CompareNat(DecimalValue(a), DecimalValue(b))
    else if IsNumeric(a) then -1
    else if IsNumeric(b) then 1
    else CompareStrings(a, b)
  }

  /** Section 11.4: identifier by identifier; when one list is a prefix of
      the other, the longer list is greater (section 11.4.4). */
  function ComparePrerelease(a: seq<string>, b: seq<string>): (c: int)
    ensures -1 <= c <= 1
    decreases |a|
  {
    if a == [] && b == [] then 0
    else if a == [] then -1
    else if b == [] then 1
    else if CompareIdentifiers(a[0], b[0]) != 0 then CompareIdentifiers(a[0], b[0])
    else ComparePrerelease(a[1..], b[1..])
  }

  /** Section 11.2 and 11.3: major, minor and patch numerically, then a
      prerelease version before the release with the same triple, then the
      prerelease identifiers. -1, 0 or 1. */
  function Compare(a: Version, b: Version): (c: int)
    ensures -1 <= c <= 1
  {
    if a.major != b.major then CompareNat(a.major, b.major)
    else if a.minor != b.minor then CompareNat(a.minor, b.minor)
    else if a.patch != b.patch then CompareNat(a.patch, b.patch)
    else
      match (a.prerelease, b.prerelease)
      case (None, None) => 0
      case (Some(_), None) => -1
      case (None, Some(_)) => 1
      case (Some(p), Some(q)) => ComparePrerelease(Split(p, '.'), Split(q, '.'))
  }

  /** `a` has lower precedence than `b`. */
  predicate Less(a: Version, b: Version)
  {
    Compare(a, b) < 0
  }

  lemma CompareIdentifiersAntisymmetric(a: string, b: string)
    ensures CompareIdentifiers(a, b) == -CompareIdentifiers(b, a)
  {
    CompareStringsAntisymmetric(a, b);
  }

  /** Identifiers that compare equal are interchangeable on either side. */
  lemma CompareIdentifiersCongruent(a: string, b: string, c: string)
    requires CompareIdentifiers(b, c) == 0
    ensures CompareIdentifiers(a, b) == CompareIdentifiers(a, c)
    ensures CompareIdentifiers(b, a) == CompareIdentifiers(c, a)
  {
  }

  lemma CompareIdentifiersTransitive(a: string, b: string, c: string)
    requires CompareIdentifiers(a, b) < 0 && CompareIdentifiers(b, c) < 0
    ensures CompareIdentifiers(a, c) < 0
  {
    if !IsNumeric(a) && !IsNumeric(b) && !IsNumeric(c) {
      CompareStringsTransitive(a, b, c);
    }
  }

  lemma {:induction false} ComparePrereleaseReflexive(a: seq<string>)
    ensures ComparePrerelease(a, a) == 0
    decreases |a|
  {
    if a != [] {
      ComparePrereleaseReflexive(a[1..]);
    }
  }

  lemma {:induction false} ComparePrereleaseAntisymmetric(a: seq<string>, b: seq<string>)
    ensures ComparePrerelease(a, b) == -ComparePrerelease(b, a)
    decreases |a|
  {
    if a != [] && b != [] {
      CompareIdentifiersAntisymmetric(a[0], b[0]);
      ComparePrereleaseAntisymmetric(a[1..], b[1..]);
    }
  }

  lemma {:induction false} ComparePrereleaseTransitive(a: seq<string>, b: seq<string>, c: seq<string>)
    requires ComparePrerelease(a, b) < 0 && ComparePrerelease(b, c) < 0
    ensures ComparePrerelease(a, c) < 0
    decreases |a|
  {
    if a != [] {
      var ab, bc := CompareIdentifiers(a[0], b[0]), CompareIdentifiers(b[0], c[0]);
      if ab < 0 && bc < 0 {
        CompareIdentifiersTransitive(a[0], b[0], c[0]);
      } else if ab < 0 {
        CompareIdentifiersCongruent(a[0], b[0], c[0]);
      } else if bc < 0 {
        CompareIdentifiersAntisymmetric(a[0], b[0]);
        CompareIdentifiersCongruent(c[0], b[0], a[0]);
        CompareIdentifiersAntisymmetric(c[0], a[0]);
        CompareIdentifiersAntisymmetric(c[0], b[0]);
      } else {
        CompareIdentifiersCongruent(a[0], b[0], c[0]);
        ComparePrereleaseTransitive(a[1..], b[1..], c[1..]);
      }
    }
  }

  /** Every version has the same precedence as itself. */
  lemma CompareReflexive(a: Version)
    ensures Compare(a, a) == 0
  {
    if a.prerelease.Some? {
      ComparePrereleaseReflexive(Split(a.prerelease.value, '.'));
    }
  }

  /** Swapping the operands negates the comparison. */
  lemma CompareAntisymmetric(a: Version, b: Version)
    ensures Compare(a, b) == -Compare(b, a)
  {
    if a.prerelease.Some? && b.prerelease.Some? {
      ComparePrereleaseAntisymmetric(Split(a.prerelease.value, '.'), Split(b.prerelease.value, '.'));
    }
  }

  /** Precedence is transitive. */
  lemma LessTransitive(a: Version, b: Version, c: Version)
    requires Less(a, b) && Less(b, c)
    ensures Less(a, c)
  {
    if a.major == b.major == c.major && a.minor == b.minor == c.minor && a.patch == b.patch == c.patch
       && a.prerelease.Some? && b.prerelease.Some? && c.prerelease.Some?
    {
      ComparePrereleaseTransitive(
        Split(a.prerelease.value, '.'), Split(b.prerelease.value, '.'), Split(c.prerelease.value, '.'));
    }
  }

  // ---------------------------------------------------------------------
  // Properties of the version transitions
  // ---------------------------------------------------------------------

  /** `baseVersion` keeps the triple, drops the label, and applying it twice
      is applying it once. */
  lemma BaseVersionIdempotent(v: Version)
    ensures IsRelease(BaseVersion(v))
    ensures BaseVersion(v).major == v.major && BaseVersion(v).minor == v.minor && BaseVersion(v).patch == v.patch
    ensures BaseVersion(BaseVersion(v)) == BaseVersion(v)
  {
  }

  /** Stripping the label never lowers precedence: a release version is its
      own base version, and a prerelease version is below its base version
      (section 11.3). */
  lemma BaseVersionPrecedence(v: Version)
    ensures BaseVersion(v) == v <==> IsRelease(v)
    ensures Less(v, BaseVersion(v)) <==> !IsRelease(v)
    ensures !Less(BaseVersion(v), v)
  {
    CompareReflexive(v);
  }

  /** Every increment strictly raises precedence. */
  lemma IncIncreases(v: Version, t: BumpType)
    ensures Less(v, Inc(v, t))
    ensures IsRelease(Inc(v, t))
  {
  }

  /** The components below the increment are zero. */
  predicate ZeroBelow(w: Version, t: BumpType)
  {
    match t
    case Major => w.minor == 0 && w.patch == 0
    case Minor => w.patch == 0
    case Patch => true
  }

  /** `Inc(v, t)` is the least release version above the release version `v`
      whose components below `t` are zero: it is one of them, and no other
      such version comes before it. */
  lemma IncIsLeast(v: Version, t: BumpType, w: Version)
    requires IsRelease(v) && IsRelease(w) && ZeroBelow(w, t) && Less(v, w)
    ensures ZeroBelow(Inc(v, t), t)
    ensures !Less(w, Inc(v, t))
  {
  }

  /** The next development version is strictly above both `v` and its base
      version, and carries the label `prerelease`. */
  lemma NextDevelopIncreases(v: Version, t: BumpType)
    ensures Less(BaseVersion(v), NextDevelop(v, t))
    ensures Less(v, NextDevelop(v, t))
    ensures NextDevelop(v, t).prerelease == Some(DevelopLabel) && DevelopLabel != ""
  {
  }

  /** The three increment rules on the base version: major gives
      (M+1).0.0, minor gives M.(m+1).0, patch gives M.m.(p+1). */
  lemma NextDevelopRules(v: Version, t: BumpType)
    ensures t == Major ==> NextDevelop(v, t) == Version(v.major + 1, 0, 0, Some("prerelease"))
    ensures t == Minor ==> NextDevelop(v, t) == Version(v.major, v.minor + 1, 0, Some("prerelease"))
    ensures t == Patch ==> NextDevelop(v, t) == Version(v.major, v.minor, v.patch + 1, Some("prerelease"))
  {
  }

  // ---------------------------------------------------------------------
  // Rendering
  // ---------------------------------------------------------------------

  /** `${major}.${minor}.${patch}`. */
  function RenderCore(v: Version): string
  {
    Decimal(v.major) + "." + Decimal(v.minor) + "." + Decimal(v.patch)
  }

  /** The version string: the triple, then `-` and the label if there is one. */
  function Render(v: Version): string
  {
    match v.prerelease
    case None => RenderCore(v)
    case Some(pre) => RenderCore(v) + "-" + pre
  }

  /** The name `create-new-tag` gives the tag: `v` and the version string. */
  function TagName(v: Version): (name: string)
    ensures |name| > 1 && name[0] == 'v' && name[1..] == Render(v)
  {
    "v" + Render(v)
  }

  /** The string `baseVersion` returns splits on `.` into three numerals
      that read back as major, minor and patch. */
  lemma {:induction false} RenderBaseVersionReadsBack(v: Version)
    ensures Render(BaseVersion(v)) == RenderCore(v)
    ensures var parts := Split(RenderCore(v), '.');
      && |parts| == 3
      && AllDigits(parts[0]) && AllDigits(parts[1]) && AllDigits(parts[2])
      && DecimalValue(parts[0]) == v.major
      && DecimalValue(parts[1]) == v.minor
      && DecimalValue(parts[2]) == v.patch
  {
    var parts := [Decimal(v.major), Decimal(v.minor), Decimal(v.patch)];
    forall k | 0 <= k < 3 ensures '.' !in parts[k] {
      assert AllDigits(parts[k]);
    }
    assert Join(parts, ".") == RenderCore(v) by {
      assert Join(parts[2..], ".") == Decimal(v.patch);
      assert Join(parts[1..], ".") == Decimal(v.minor) + "." + Decimal(v.patch);
    }
    JoinThenSplit(parts, '.');
    DecimalRoundTrip(v.major);
    DecimalRoundTrip(v.minor);
    DecimalRoundTrip(v.patch);
  }

  /** The string `bump-develop` stores, `${v}-prerelease` with `v` the
      incremented base version, is the rendering of `NextDevelop`. */
  lemma RenderNextDevelop(v: Version, t: BumpType)
    ensures Render(NextDevelop(v, t)) == Render(Inc(BaseVersion(v), t)) + "-prerelease"
  {
  }

  /** Distinct release versions get distinct tag names. */
  lemma TagNameInjective(a: Version, b: Version)
    requires IsRelease(a) && IsRelease(b)
    requires TagName(a) == TagName(b)
    ensures a == b
  {
    assert Render(a) == TagName(a)[1..] == TagName(b)[1..] == Render(b);
    RenderBaseVersionReadsBack(a);
    RenderBaseVersionReadsBack(b);
  }
}
