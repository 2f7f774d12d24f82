/**
 * The generator's main routine end to end: candidate list, root versions,
 * resolution, download, sort and grouping. The registry, the resolver and
 * the package downloads are parameters.
 */
module Pipeline {
  import opened Wrappers
  import opened Crates
  import SortedSets
  import Catalog
  import VersionSelection
  import Disambiguation
  import Semver

  /** The package the download of `id` yields, given the registry's descriptor for it. */
  function PackageOf(id: PackageId, d: Descriptor): Package {
    Package(id.name, id.version, d.targets, d.features, d.customMetadata)
  }

  /**
   * `PackageSet::get_many`: every id is downloaded; one failed download
   * aborts the run. The first id (in order) that cannot be fetched is the
   * one reported.
   */
  function Materialize(ids: seq<PackageId>, fetch: PackageId -> Option<Descriptor>): (r: Result<seq<Package>, Error>)
    ensures r.Success? <==> forall i :: 0 <= i < |ids| ==> fetch(ids[i]).Some?
    ensures r.Success? ==> |r.value| == |ids|
    ensures r.Success? ==> forall i :: 0 <= i < |ids| ==> r.value[i] == PackageOf(ids[i], fetch(ids[i]).value)
    ensures r.Failure? ==>
      exists i :: 0 <= i < |ids| && fetch(ids[i]).None? && r.error == DownloadFailed(ids[i]) &&
        (forall j :: 0 <= j < i ==> fetch(ids[j]).Some?)
    decreases |ids|
  {
    if ids == [] then Success([])
    else match fetch(ids[0])
      case None => Failure(DownloadFailed(ids[0]))
      case Some(d) =>
        match Materialize(ids[1..], fetch)
        case Failure(e) =>
          ghost var k :| 0 <= k < |ids[1..]| && fetch(ids[1..][k]).None? && e == DownloadFailed(ids[1..][k]) &&
            (forall j :: 0 <= j < k ==> fetch(ids[1..][j]).Some?);
          assert fetch(ids[k + 1]).None? && forall j :: 0 <= j < k + 1 ==> fetch(ids[j]).Some?;
          Failure(e)
        case Success(rest) => Success([PackageOf(ids[0], d)] + rest)
  }

  /** The candidate list of a run: the downloaded ranking followed by the curated additions. */
  ghost function CandidateList(downloaded: seq<string>, mods: Modifications): seq<string> {
    downloaded + SortedSets.SortedSeq(mods.additions)
  }

  /**
   * The downloaded packages of a run, before sorting, or the error that
   * aborts it: a query failure first, then a failed resolution, then a
   * failed download.
   */
  ghost function Packages(downloaded: seq<string>, mods: Modifications, query: string -> Option<seq<Summary>>,
                          resolve: seq<Summary> -> Option<seq<PackageId>>,
                          fetch: PackageId -> Option<Descriptor>): Result<seq<Package>, Error>
  {
    match VersionSelection.Roots(CandidateList(downloaded, mods), mods, query)
    case Failure(e) => Failure(e)
    case Success(roots) =>
      match resolve(roots)
      case None => Failure(ResolveFailed)
      case Some(ids) => Materialize(VersionSelection.WithoutBlacklisted(ids, mods), fetch)
  }

  /**
   * The main routine: every step's error aborts the run; otherwise the
   * output is the grouping loop's result on a sorted arrangement of the
   * downloaded packages.
   */
  method Generate(downloaded: seq<string>, mods: Modifications, query: string -> Option<seq<Summary>>,
                  resolve: seq<Summary> -> Option<seq<PackageId>>,
                  fetch: PackageId -> Option<Descriptor>)
    returns (r: Result<Disambiguation.Output, Error>)
    ensures Packages(downloaded, mods, query, resolve, fetch).Failure? ==>
      r == Failure(Packages(downloaded, mods, query, resolve, fetch).error)
    ensures Packages(downloaded, mods, query, resolve, fetch).Success? ==>
      exists s :: Disambiguation.Sorted(s) &&
        multiset(s) == multiset(Packages(downloaded, mods, query, resolve, fetch).value) &&
        r == Disambiguation.Synthesize(s)
  {
    var top := new Catalog.TopCrates(downloaded);
    top.AddCuratedCrates(mods);
    var roots := VersionSelection.SelectRoots(top.crates, mods, query);
    if roots.Failure? {
      return Failure(roots.error);
    }
    var resolved := resolve(roots.value);
    if resolved.None? {
      return Failure(ResolveFailed);
    }
    var ids := VersionSelection.WithoutBlacklisted(resolved.value, mods);
    var pkgs := Materialize(ids, fetch);
    if pkgs.Failure? {
      return Failure(pkgs.error);
    }
    var a := new Package[|pkgs.value|](i requires 0 <= i < |pkgs.value| => pkgs.value[i]);
    assert a[..] == pkgs.value;
    Disambiguation.SortPackages(a);
    r := Disambiguation.Expose(a[..]);
  }

  /**
   * Every record of the crate index names one of the packages the grouping
   * loop was given, in whatever order they arrived, under its version.
   */
  lemma IndexFromPackages(s: seq<Package>, pkgs: seq<Package>)
    requires multiset(s) == multiset(pkgs) && Disambiguation.Synthesize(s).Success?
    ensures forall info :: info in Disambiguation.Synthesize(s).value.infos ==>
      exists k :: 0 <= k < |pkgs| && pkgs[k].name == info.name && Semver.ToString(pkgs[k].version) == info.version
  {
    var infos := Disambiguation.Infos(s, |s|);
    assert Disambiguation.Synthesize(s).value.infos == infos;
    forall info | info in infos
      ensures exists k :: 0 <= k < |pkgs| && pkgs[k].name == info.name && Semver.ToString(pkgs[k].version) == info.version
    {
      var i :| 0 <= i < |infos| && infos[i] == info;
      assert s[i] in multiset(pkgs);
      var k :| 0 <= k < |pkgs| && pkgs[k] == s[i];
    }
  }

  /**
   * Every crate in the index of a successful run is one the resolver
   * chose, under the version it chose, and none is blacklisted.
   */
  lemma IndexFromResolvedIds(downloaded: seq<string>, mods: Modifications, query: string -> Option<seq<Summary>>,
                             resolve: seq<Summary> -> Option<seq<PackageId>>,
                             fetch: PackageId -> Option<Descriptor>, s: seq<Package>)
    requires Packages(downloaded, mods, query, resolve, fetch).Success?
    requires multiset(s) == multiset(Packages(downloaded, mods, query, resolve, fetch).value)
    requires Disambiguation.Synthesize(s).Success?
    ensures VersionSelection.Roots(CandidateList(downloaded, mods), mods, query).Success?
    ensures resolve(VersionSelection.Roots(CandidateList(downloaded, mods), mods, query).value).Some?
    ensures forall info :: info in Disambiguation.Synthesize(s).value.infos ==> !Blacklisted(mods, info.name)
    ensures forall info :: info in Disambiguation.Synthesize(s).value.infos ==>
      exists id :: id in resolve(VersionSelection.Roots(CandidateList(downloaded, mods), mods, query).value).value &&
        id.name == info.name && Semver.ToString(id.version) == info.version
  {
    var roots := VersionSelection.Roots(CandidateList(downloaded, mods), mods, query).value;
    var ids := resolve(roots).value;
    var kept := VersionSelection.WithoutBlacklisted(ids, mods);
    var pkgs := Materialize(kept, fetch).value;
    IndexFromPackages(s, pkgs);
    forall info | info in Disambiguation.Synthesize(s).value.infos
      ensures !Blacklisted(mods, info.name) &&
        exists id :: id in ids && id.name == info.name && Semver.ToString(id.version) == info.version
    {
      var k :| 0 <= k < |pkgs| && pkgs[k].name == info.name && Semver.ToString(pkgs[k].version) == info.version;
      assert kept[k] in kept;
    }
  }

  /**
   * Every entry of the manifest's `[dependencies]` table names one of the
   * packages the grouping loop was given, under its version.
   */
  lemma ManifestFromPackages(s: seq<Package>, pkgs: seq<Package>)
    requires multiset(s) == multiset(pkgs) && Disambiguation.Synthesize(s).Success?
    ensures var deps := Disambiguation.Synthesize(s).value.dependencies;
      forall key :: key in deps ==>
        exists k :: 0 <= k < |pkgs| && pkgs[k].name == deps[key].package && Semver.ToString(pkgs[k].version) == deps[key].version
  {
    var deps := Disambiguation.Synthesize(s).value.dependencies;
    Disambiguation.SynthesizeEntries(s);
    forall key | key in deps
      ensures exists k :: 0 <= k < |pkgs| && pkgs[k].name == deps[key].package && Semver.ToString(pkgs[k].version) == deps[key].version
    {
      var j :| 0 <= j < |s| && deps[key].package == s[j].name && deps[key].version == Semver.ToString(s[j].version);
      assert s[j] in multiset(pkgs);
      var k :| 0 <= k < |pkgs| && pkgs[k] == s[j];
    }
  }

  /**
   * Every entry of the manifest of a successful run is for a package the
   * resolver chose, under the version it chose, and no entry is for a
   * blacklisted package.
   */
  lemma ManifestFromResolvedIds(downloaded: seq<string>, mods: Modifications, query: string -> Option<seq<Summary>>,
                                resolve: seq<Summary> -> Option<seq<PackageId>>,
                                fetch: PackageId -> Option<Descriptor>, s: seq<Package>)
    requires Packages(downloaded, mods, query, resolve, fetch).Success?
    requires multiset(s) == multiset(Packages(downloaded, mods, query, resolve, fetch).value)
    requires Disambiguation.Synthesize(s).Success?
    ensures VersionSelection.Roots(CandidateList(downloaded, mods), mods, query).Success?
    ensures resolve(VersionSelection.Roots(CandidateList(downloaded, mods), mods, query).value).Some?
    ensures var deps := Disambiguation.Synthesize(s).value.dependencies;
      forall key :: key in deps ==> !Blacklisted(mods, deps[key].package)
    ensures var deps := Disambiguation.Synthesize(s).value.dependencies;
      forall key :: key in deps ==>
        exists id :: id in resolve(VersionSelection.Roots(CandidateList(downloaded, mods), mods, query).value).value &&
          id.name == deps[key].package && Semver.ToString(id.version) == deps[key].version
  {
    var roots := VersionSelection.Roots(CandidateList(downloaded, mods), mods, query).value;
    var ids := resolve(roots).value;
    var kept := VersionSelection.WithoutBlacklisted(ids, mods);
    var pkgs := Materialize(kept, fetch).value;
    var deps := Disambiguation.Synthesize(s).value.dependencies;
    ManifestFromPackages(s, pkgs);
    forall key | key in deps
      ensures !Blacklisted(mods, deps[key].package) &&
        exists id :: id in ids && id.name == deps[key].package && Semver.ToString(id.version) == deps[key].version
    {
      var k :| 0 <= k < |pkgs| && pkgs[k].name == deps[key].package && Semver.ToString(pkgs[k].version) == deps[key].version;
      assert kept[k] in kept;
    }
  }
}
