/**
 * The entities the generator passes between its stages: the hand-curated
 * modifications, registry summaries and package identifiers, materialised
 * packages, and the two output records.
 */
module Crates {
  import opened Wrappers
  import Toml
  import Semver

  /** `crate-modifications.toml`: names to exclude and names to add. */
  datatype Modifications = Modifications(blacklist: seq<string>, additions: set<string>)

  /** `iter().any(|n| n == name)` over a list of names. */
  function AnyMatches(list: seq<string>, name: string): (r: bool)
    ensures r <==> name in list
    decreases |list|
  {
    |list| > 0 && (list[0] == name || AnyMatches(list[1..], name))
  }

  /** `Modifications::blacklisted`. */
  function Blacklisted(mods: Modifications, name: string): (r: bool)
    ensures r <==> name in mods.blacklist
  {
    AnyMatches(mods.blacklist, name)
  }

  /** A registry summary: one published version of a crate. */
  datatype Summary = Summary(name: string, version: Semver.Version)

  /** An exact package, as the resolver reports it. */
  datatype PackageId = PackageId(name: string, version: Semver.Version)

  /** Cargo's target kinds; only `Lib` provides a library crate. */
  datatype TargetKind = Lib | Bin | Test | Bench | ExampleLib | ExampleBin | CustomBuild

  datatype Target = Target(kind: TargetKind, name: string)

  /** What the registry returns for a package id. */
  datatype Descriptor = Descriptor(
    targets: seq<Target>,
    features: map<string, seq<string>>,
    customMetadata: Option<Toml.Value>)

  /**
   * A materialised package: its id, its targets, its declared features (each
   * feature name with the features it turns on) and its `[package.metadata]`
   * table, if any.
   */
  datatype Package = Package(
    name: string,
    version: Semver.Version,
    targets: seq<Target>,
    features: map<string, seq<string>>,
    customMetadata: Option<Toml.Value>)

  /** One entry of the generated manifest's `[dependencies]` table. */
  datatype DependencySpec = DependencySpec(
    package: string,
    version: string,
    features: seq<string>,
    defaultFeatures: bool)

  /** One entry of the generated crate index. */
  datatype CrateInformation = CrateInformation(name: string, version: string, id: string)

  /** The fatal conditions of a run; each aborts it with no output written. */
  datatype Error =
    | QueryFailed(name: string)
    | NoViableVersion(name: string)
    | ResolveFailed
    | DownloadFailed(id: PackageId)
    | NoLibrary(name: string)
}
