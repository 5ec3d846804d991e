/**
 * The package record and the two tasks that rewrite it:
 * `strip-prerelease-version`, guarded by the current branch, and
 * `bump-develop`. The working copy (the branch git reports and the contents
 * of package.json) is an object whose fields the tasks update in place.
 */
module Packages {
  import opened Wrappers
  import opened Versions
  import opened Tasks

  /** A JSON value, for the fields of the package record no task touches. */
  datatype Json =
    | JNull
    | JBool(b: bool)
    | JNumber(n: int)
    | JString(s: string)
    | JArray(items: seq<Json>)
    | JObject(fields: map<string, Json>)

  /** The package record: its `version` field read as a semantic version
      (None when it is absent or not a valid version) and all other fields. */
  datatype Package = Package(version: Option<Version>, others: map<string, Json>)

  /** What package.json holds: a package record, or a bare JSON string. */
  datatype Document = Record(pkg: Package) | JsonString(text: string)

  /** Reading the version of the stored document. An undefined or invalid
      version makes `semver.major` throw; the model reports that throw as
      the error `InvalidVersion`. */
  function ReadPackage(d: Document): (r: Result<Package, Error>)
    ensures r.Success? <==> d.Record? && d.pkg.version.Some?
    ensures r.Success? ==> r.value == d.pkg
    ensures r.Failure? ==> r.error == InvalidVersion
  {
    if d.Record? && d.pkg.version.Some? then Success(d.pkg) else Failure(InvalidVersion)
  }

  /** The record `strip-prerelease-version` writes back. */
  function Stripped(pkg: Package): (r: Package)
    requires pkg.version.Some?
    ensures r.version.Some? && IsRelease(r.version.value)
    ensures r.version.value.major == pkg.version.value.major
    ensures r.version.value.minor == pkg.version.value.minor
    ensures r.version.value.patch == pkg.version.value.patch
    ensures r.others == pkg.others
  {
    pkg.(version := Some(BaseVersion(pkg.version.value)))
  }

  /** The outcome `strip-prerelease-version` reports for the branch git
      names and the stored document. */
  function StripOutcome(branch: string, d: Document): (r: Outcome<Error>)
    ensures r.Pass? <==> branch == "master" && ReadPackage(d).Success?
    ensures branch != "master" ==> r == Fail(NotOnMaster)
    ensures branch == "master" && ReadPackage(d).Failure? ==> r == Fail(InvalidVersion)
  {
    if branch != "master" then Fail(NotOnMaster)
    else match ReadPackage(d)
      case Failure(err) => Fail(err)
      case Success(_) => Pass
  }

  /** What `bump-develop` as written stores: the path string it passes as
      the record, while the bumped record itself is dropped. */
  function BumpDevelopWriteAsWritten(pkg: Package, t: BumpType): Document
  {
    JsonString("./package.json")
  }

  /** The record `bump-develop` evidently means to store: the version
      replaced by the next development version. */
  function Bumped(pkg: Package, t: BumpType): (r: Package)
    requires pkg.version.Some?
    ensures r.version == Some(NextDevelop(pkg.version.value, t))
    ensures r.version.value.prerelease == Some(DevelopLabel)
    ensures r.others == pkg.others
  {
    pkg.(version := Some(NextDevelop(pkg.version.value, t)))
  }

  /** Stripping replaces the version by its base version, which is a release
      version not below the old one, keeps every other field, and a second
      strip changes nothing more. */
  lemma StrippedChangesOnlyVersion(pkg: Package)
    requires pkg.version.Some?
    ensures Stripped(pkg).others == pkg.others
    ensures Stripped(pkg).version.Some? && IsRelease(Stripped(pkg).version.value)
    ensures !Less(Stripped(pkg).version.value, pkg.version.value)
    ensures Stripped(Stripped(pkg)) == Stripped(pkg)
    ensures Stripped(pkg) == pkg <==> IsRelease(pkg.version.value)
  {
    BaseVersionPrecedence(pkg.version.value);
  }

  /** Finding: as written, `bump-develop` leaves package.json holding the
      string "./package.json"; the next read finds no version and the
      bumped version is lost. */
  lemma BumpDevelopAsWrittenLosesVersion(pkg: Package, t: BumpType)
    requires pkg.version.Some?
    ensures ReadPackage(BumpDevelopWriteAsWritten(pkg, t)) == Failure(InvalidVersion)
    ensures BumpDevelopWriteAsWritten(pkg, t) != Record(Bumped(pkg, t))
  {
  }

  /** The corrected write stores a record that reads back with the next
      development version, strictly above the old one, and every other field
      unchanged. */
  lemma BumpedReadsBack(pkg: Package, t: BumpType)
    requires pkg.version.Some?
    ensures ReadPackage(Record(Bumped(pkg, t))) == Success(Bumped(pkg, t))
    ensures Bumped(pkg, t).others == pkg.others
    ensures Less(pkg.version.value, Bumped(pkg, t).version.value)
    ensures Bumped(pkg, t).version.value.prerelease == Some("prerelease")
  {
    NextDevelopIncreases(pkg.version.value, t);
  }

  /** The working copy: the branch `git rev-parse --abbrev-ref HEAD`
      reports, the contents of package.json, and the log of every document
      written to it, oldest first. */
  class Workspace {
    var branch: string
    var file: Document
    var writes: seq<Document>

    constructor (branch: string, file: Document)
      ensures this.branch == branch && this.file == file && writes == []
    {
      this.branch := branch;
      this.file := file;
      writes := [];
    }

    /** `writeJsonSync`: replaces the whole document. */
    method Write(d: Document)
      modifies this
      ensures file == d && writes == old(writes) + [d]
      ensures branch == old(branch)
    {
      file := d;
      writes := writes + [d];
    }

    /** `strip-prerelease-version`: off `master` it fails and writes
      nothing; on `master` it rewrites the record with only its version
      replaced by the base version. */
    method StripPrereleaseVersion() returns (r: Outcome<Error>)
      modifies this
      ensures branch == old(branch)
      ensures r == StripOutcome(old(branch), old(file))
      ensures r.Fail? ==> file == old(file) && writes == old(writes)
      ensures r.Pass? ==> old(file).Record? && old(file).pkg.version.Some?
      ensures r.Pass? ==> file == Record(Stripped(old(file).pkg)) && writes == old(writes) + [file]
    {
      if branch != "master" {
        return Fail(NotOnMaster);
      }
      var read := ReadPackage(file);
      if read.Failure? {
        return Fail(read.error);
      }
      var pkg := read.value;
      var stripped := BaseVersion(pkg.version.value);
      pkg := pkg.(version := Some(stripped));
      Write(Record(pkg));
      return Pass;
    }

    /** `bump-develop` as written: it computes the next development version
      into the record, then stores the path string instead of the record. */
    method BumpDevelopAsWritten(t: BumpType) returns (r: Outcome<Error>)
      modifies this
      ensures branch == old(branch)
      ensures r.Pass? <==> ReadPackage(old(file)).Success?
      ensures r.Fail? ==> r.error == InvalidVersion && file == old(file) && writes == old(writes)
      ensures r.Pass? ==> file == BumpDevelopWriteAsWritten(old(file).pkg, t) && writes == old(writes) + [file]
    {
      var read := ReadPackage(file);
      if read.Failure? {
        return Fail(read.error);
      }
      var pkg := read.value;
      var v := BaseVersion(pkg.version.value);
      v := Inc(v, t);
      pkg := pkg.(version := Some(v.(prerelease := Some(DevelopLabel))));
      Write(BumpDevelopWriteAsWritten(pkg, t));
      return Pass;
    }

    /** `bump-develop` as evidently intended: the record with its version
      replaced by the next development version is stored. */
    method BumpDevelop(t: BumpType) returns (r: Outcome<Error>)
      modifies this
      ensures branch == old(branch)
      ensures r.Pass? <==> ReadPackage(old(file)).Success?
      ensures r.Fail? ==> r.error == InvalidVersion && file == old(file) && writes == old(writes)
      ensures r.Pass? ==> old(file).Record? && old(file).pkg.version.Some?
      ensures r.Pass? ==> file == Record(Bumped(old(file).pkg, t)) && writes == old(writes) + [file]
    {
      var read := ReadPackage(file);
      if read.Failure? {
        return Fail(read.error);
      }
      var pkg := read.value;
      var v := BaseVersion(pkg.version.value);
      v := Inc(v, t);
      pkg := pkg.(version := Some(v.(prerelease := Some(DevelopLabel))));
      Write(Record(pkg));
      return Pass;
    }
  }
}
