# top-crates: a verified model of the playground's crate-list generator

`top-crates` builds the dependency manifest of the Rust playground. It also
builds the crate index that goes with the manifest. It works in these stages:

- It takes the most downloaded crates from crates.io and appends the
  hand-curated additions.
- It drops the blacklisted names.
- For each remaining name, it picks the newest version that is not a
  pre-release.
- It resolves the transitive dependency set and downloads every package in it.
- It sorts the packages by name, newest version first. Within each run of equal
  names, the first package keeps its library crate name. Each later package gets
  `_major_minor_patch` appended to that name.
- Each package then contributes one `[dependencies]` entry to the manifest and
  one record to the index. An entry's features and `default-features` flag come
  from the package's `[package.metadata.playground]` table.

This project models that pipeline in Dafny and proves properties of it.
Modules follow the stages:

| module | file | what it holds |
|---|---|---|
| `Wrappers` | wrappers.dfy | `Option`, `Result` |
| `Strings` | strings.dfy | string order (Rust's `Ord` on `String`), decimal rendering of integers |
| `Semver` | semver.dfy | versions, their order, `is_prerelease`, `to_string` |
| `Toml` | toml.dfy | the TOML values the model reads and writes |
| `SortedSets` | sorted_sets.dfy | iteration of a `BTreeSet<String>` in ascending order |
| `Crates` | crates.dfy | the records passed between stages, `Modifications::blacklisted`, fatal errors |
| `Catalog` | catalog.dfy | `TopCrates` and `add_curated_crates` (a class: the list is extended in place) |
| `VersionSelection` | version_selection.dfy | the root-selection loop, newest release, the resolved-package blacklist filter |
| `Features` | features.dfy | `playground_metadata_features` (a method with its removal loop, against a specification function) |
| `Manifest` | manifest.dfy | the `DependencySpec` field rules: `exact_version`, `is_true`, skipped fields |
| `Disambiguation` | disambiguation.dfy | the in-place sort (on an `array`), the grouping loop with its `first` flag, the table and index |
| `Pipeline` | pipeline.dfy | `main` end to end, with the registry, resolver and downloads as parameters |

The imperative parts of the source are methods proved against ghost
specification functions:

- `AddCuratedCrates` is a method of the `TopCrates` class.
- `SelectRoots` is proved against `Roots`.
- `PlaygroundMetadataFeatures` is proved against `MetadataFeatures`.
- `SortPackages` is an insertion sort on an array.
- `Expose`, `ExposeGroup` and `ExposeOne` are proved against `Synthesize`.
- `Generate` is proved against `Packages` and `Synthesize`.

The properties the source promises are proved as lemmas about those
functions.

Notes on what the code does, which the model follows:

- **Duplicate candidates.** `extend` appends, so a popular crate that is
  also a curated addition is listed, queried and required twice. See
  `Catalog.AdditionAlsoDownloadedIsListedTwice`.
- **When `package` is written.** `skip_serializing_if = "String::is_empty"`
  leaves `package` out only when it is empty. The grouping loop always fills
  it with the package name (`name.to_string()`), so it is always written.
  See `Manifest.FieldPresence`.
- **Exposed identifiers are not unique in general.** The code does not check
  for collisions. In a collision, `BTreeMap::insert` keeps the later entry,
  while `infos` keeps both records. A collision happens in these cases:
  - Two different packages have the same library crate name.
  - A suffixed name equals another crate's library name.
  - A library target was renamed between two versions of one package. If the
    newer version's library is `a_1_0_0` and version 1.0.0's library is `a`,
    both are exposed as `a_1_0_0` (`Disambiguation.ExampleRenamedLibraryCollides`).
  - Two pre-releases of the same release triple, neither first in its group,
    get the same suffix, because the suffix holds only major, minor and patch.
    `1.0.0-beta` and `1.0.0-alpha` of `foo`, after `foo 2.0.0`, are both exposed
    as `foo_1_0_0` (`Disambiguation.SameTripleSameName`,
    `Disambiguation.ExamplePrereleasesCollide`). Cargo's resolver activates at
    most one semver-compatible version of a crate, so this case probably does
    not arise in practice; the model's `resolve` is an unconstrained parameter,
    so the model admits it.

  The model does what the code does.
  `Disambiguation.SynthesizeLastWins` and
  `Disambiguation.DistinctNamesOneEntryEach` state what holds in general.
  `Disambiguation.DistinctWithinGroup` states the uniqueness the code does
  guarantee: versions of one package with different release triples whose
  libraries have the same crate name.
- **Blacklisted names and manifest keys.** No entry of the manifest and no
  index record is for a blacklisted package (`Pipeline.ManifestFromResolvedIds`,
  `Pipeline.IndexFromResolvedIds`). A manifest key is a library crate name,
  though, and can still equal a blacklisted name when another package's
  library has that name.

## Model

| member | source | states |
|---|---|---|
| Crates.AnyMatches | top-crates/src/main.rs:116-120 | `blacklisted(name)` holds exactly when `name` is in the blacklist |
| Crates.Blacklisted | top-crates/src/main.rs:116-120 | a name is blacklisted exactly when it occurs in the blacklist |
| Catalog.TopCrates.constructor | top-crates/src/main.rs:23-27 | the crate list starts as the downloaded ranking |
| Catalog.TopCrates.AddCuratedCrates | top-crates/src/main.rs:147-156 | the old list is kept as a prefix; exactly the additions, each once and in ascending order, are appended; the length grows by the number of additions |
| Catalog.AdditionAlsoDownloadedIsListedTwice | top-crates/src/main.rs:148-156 | a name that is both downloaded and added occurs at least twice in the candidate list |
| SortedSets.SortedSeq | top-crates/src/main.rs:73-74 | a set's iteration order is strictly ascending and lists exactly the set's elements |
| SortedSets.AscendingUnique | top-crates/src/main.rs:73-74 | a strictly ascending sequence is determined by its elements, so the iteration order is unique |
| SortedSets.AscendingCardinality | top-crates/src/main.rs:149-155 | a strictly ascending sequence has as many entries as distinct elements, so each addition is appended once |
| SortedSets.Ascending | top-crates/src/main.rs:149-155 | iterating a set by repeatedly taking its least unvisited element yields its ascending order |
| Strings.LessTotal | top-crates/src/main.rs:317-321 | name comparison is total on distinct names |
| Strings.LessTransitive | top-crates/src/main.rs:317-321 | name comparison is transitive |
| Strings.NatToStringInjective | top-crates/src/main.rs:348-351 | different numbers are rendered as different decimal strings |
| Strings.NatToString | top-crates/src/main.rs:348-351 | defines the decimal rendering of a number, as `{}` prints a `u64`: at least one character, all digits; `ParseNatToString` reads it back and `NatToStringInjective` states that different numbers print differently |
| Strings.ParseNatToString | top-crates/src/main.rs:348-351 | reading the digits back gives the number rendered |
| Semver.LessTotal | top-crates/src/main.rs:266-268 | version order is total on distinct versions |
| Semver.LessTransitive | top-crates/src/main.rs:266-268 | version order is transitive |
| Semver.AtLeastTransitive | top-crates/src/main.rs:266-268 | "at least" on versions is transitive, which makes a running maximum correct |
| Semver.Less | top-crates/src/main.rs:266-268 | defines semver's `Ord for Version`: triple first, then a release above its pre-releases, then the identifier lists; `LessTotal`, `LessTransitive`, `AtLeastTransitive` and `PrereleaseBelowRelease` state its properties |
| Semver.PrereleaseBelowRelease | top-crates/src/main.rs:266-268 | a pre-release sorts below the release of its triple |
| Semver.IsPrerelease | top-crates/src/main.rs:267 | defines `is_prerelease`: the pre-release list is not empty; `VersionSelection.NewestStable` and `ToStringTriple` use it |
| Semver.ToString | top-crates/src/main.rs:361 | defines `version.to_string()`: the triple, then `-` and the dot-joined pre-release identifiers when there are any; `ToStringTriple` states when it is the bare triple |
| Semver.ToStringTriple | top-crates/src/main.rs:361 | a version prints as its bare `major.minor.patch` exactly when it is not a pre-release |
| VersionSelection.NewestStable | top-crates/src/main.rs:265-269 | there is a result exactly when some match is not a pre-release; the result is one of the matches, is not a pre-release, and no non-pre-release match is greater |
| VersionSelection.Candidates | top-crates/src/main.rs:251-254 | a name reaches selection exactly when it is listed and not blacklisted |
| VersionSelection.Roots | top-crates/src/main.rs:250-278 | defines the roots of a run: blacklisted names skipped, the first query failure or missing release aborts, otherwise each candidate's newest release in list order; its properties are the `Roots…` lemmas below |
| VersionSelection.SelectRoots | top-crates/src/main.rs:250-278 | the loop returns the roots specified by `Roots`: skip blacklisted names, fail on a query error or no release, otherwise append the newest release |
| VersionSelection.RootsFailurePersists | top-crates/src/main.rs:258-269 | once a prefix of the list fails, the whole run fails with the same error |
| VersionSelection.RootsSucceedIff | top-crates/src/main.rs:251-278 | selection succeeds exactly when the registry answers every candidate with some release |
| VersionSelection.RootsValues | top-crates/src/main.rs:251-278 | on success there is one root per candidate, in order, each the newest release the registry has for that candidate |
| VersionSelection.RootsFirstFailure | top-crates/src/main.rs:258-269 | on failure the error names the first candidate without a release: a query failure if the registry does not answer, otherwise the lack of a release |
| VersionSelection.RootsIgnoreBlacklisted | top-crates/src/main.rs:252-254 | what the registry says about blacklisted names cannot change the roots |
| VersionSelection.WithoutBlacklisted | top-crates/src/main.rs:289-291 | a resolved id survives the filter exactly when its name is not blacklisted |
| Toml.StringList | top-crates/src/main.rs:176 | an array reads as a list of strings exactly when every element is a string, element by element |
| Features.PlaygroundSection | top-crates/src/main.rs:170-171 | the metadata section exists exactly when there is custom metadata with a `playground` table, and it is that table |
| Features.ParseMetadata | top-crates/src/main.rs:173-199 | defines decoding of the playground table with the serde defaults: missing fields take their defaults, other keys are ignored, a field of the wrong kind fails; `ParseMetadataTable` and `ParseEmptyTable` state its behaviour |
| Features.MetadataFeatures | top-crates/src/main.rs:169-229 | defines the override: the requested features less those the defaults imply, in ascending order, with the flag, or none; `MetadataFeaturesCases` and the lemmas below state its cases |
| Features.ParseMetadataTable | top-crates/src/main.rs:173-192 | a table that sets all three fields parses back to those fields |
| Features.ParseEmptyTable | top-crates/src/main.rs:181-189 | an empty table parses to no features, default features on, all features off |
| Features.EnabledFeatures | top-crates/src/main.rs:201-219 | defines the enabled set: the requested features (all declared ones under `all-features`, else the listed ones) less those the kept defaults imply; `AllFeaturesIgnoresList`, `ListedFeaturesRequested`, `DefaultGroupRemoved` and `NothingRemovedOtherwise` state its cases |
| Features.PlaygroundMetadataFeatures | top-crates/src/main.rs:169-229 | the method, with its removal loop, returns the override specified by `MetadataFeatures` |
| Features.AllFeaturesIgnoresList | top-crates/src/main.rs:201-207 | under `all-features` the enabled set is every declared feature, less the defaults, and the listed features do not matter |
| Features.ListedFeaturesRequested | top-crates/src/main.rs:201-207 | without `all-features` a feature is enabled exactly when it is listed and not implied by the defaults |
| Features.DefaultGroupRemoved | top-crates/src/main.rs:209-219 | keeping the defaults of a crate with a `default` group removes `default` and every feature it lists |
| Features.NothingRemovedOtherwise | top-crates/src/main.rs:209-219 | with no `default` group, or with the defaults off, nothing is removed |
| Features.MetadataFeaturesCases | top-crates/src/main.rs:169-228 | there is no override exactly when the metadata is absent, does not parse, or selects nothing while keeping the defaults; otherwise the override is the selection in strictly ascending order with the `default-features` flag |
| Features.ExampleDefaultImpliedFeature | top-crates/src/main.rs:209-228 | asking only for a feature the default group implies gives no override |
| Features.ExampleAllFeatures | top-crates/src/main.rs:201-228 | `all-features` on a crate declaring `std` and `extra` gives `["extra", "std"]` with the defaults kept |
| Manifest.LookupSpecFields | top-crates/src/main.rs:92-103 | each field of a written entry is found under its own kebab-case name and under no other |
| Manifest.ExactVersion | top-crates/src/main.rs:105-110 | the written version is `=` followed by exactly the version string |
| Manifest.IsTrue | top-crates/src/main.rs:112-114 | the skip test for `default-features`: skipped exactly when true, as `FieldPresence` states |
| Manifest.SpecFields | top-crates/src/main.rs:92-114 | defines the fields one entry serialises to, in declaration order with the skip rules; `LookupSpecFields`, `ReadSpecFields` and `FieldPresence` state its properties |
| Manifest.ReadSpecFields | top-crates/src/main.rs:92-114 | an entry read back, with the skipped fields at their defaults and `=` removed from the version, is the entry written |
| Manifest.FieldPresence | top-crates/src/main.rs:94-114 | the version is always written as `=` plus the version; `features` appears exactly when non-empty, `default-features` exactly when false, `package` exactly when non-empty |
| Disambiguation.BeforeTotal | top-crates/src/main.rs:317-321 | the sort's comparator orders any two packages one way or the other |
| Disambiguation.Before | top-crates/src/main.rs:317-321 | defines the sort comparator: name ascending, then version descending; `BeforeTotal`, `BeforeTransitive` and `BeforeBothWays` state its order properties |
| Disambiguation.BeforeTransitive | top-crates/src/main.rs:317-321 | the comparator is transitive |
| Disambiguation.BeforeBothWays | top-crates/src/main.rs:317-321 | packages that compare equal have the same name and version |
| Disambiguation.InsertBackwards | top-crates/src/main.rs:317-321 | one step of the in-place sort extends the sorted prefix by one element, leaves the rest of the array unchanged, and permutes the array |
| Disambiguation.SortPackages | top-crates/src/main.rs:314-321 | the array ends up sorted by name ascending, then version descending, and is a permutation of what it held |
| Disambiguation.SortedUnique | top-crates/src/main.rs:314-321 | two sorted arrangements of the same packages with distinct ids are equal, so the download order does not matter |
| Disambiguation.ReplaceHyphens | top-crates/src/main.rs:336 | the crate name is the target name with every `-` replaced by `_`, character by character |
| Disambiguation.LibraryCrateNameFirstLib | top-crates/src/main.rs:332-340 | there is no crate name exactly when no target is a library; otherwise it comes from the first library target |
| Disambiguation.LibraryCrateName | top-crates/src/main.rs:332-340 | defines the crate name of the first library target, if any; `LibraryCrateNameFirstLib` states it |
| Disambiguation.SuffixedInjective | top-crates/src/main.rs:345-352 | a suffixed name determines the major, minor and patch it was made from |
| Disambiguation.Suffixed | top-crates/src/main.rs:348-351 | defines `crate_name_major_minor_patch`; `SuffixedInjective` states that the suffix determines the triple |
| Disambiguation.ExposedName | top-crates/src/main.rs:342-352 | defines the `if first` choice: the bare crate name at a group start, the suffixed name otherwise; `BareNameOnlyForFirst`, `DistinctWithinGroup` and `SameTripleSameName` state its properties |
| Disambiguation.BareNameOnlyForFirst | top-crates/src/main.rs:342-352 | a package is exposed under the bare crate name exactly when it starts its group |
| Disambiguation.Infos | top-crates/src/main.rs:367-371 | the index has one record per package, in processing order, with the package's name, version string and exposed name |
| Disambiguation.TableIsInsertions | top-crates/src/main.rs:357-365 | the table is the result of inserting each package's entry at its exposed name, in order |
| Disambiguation.Table | top-crates/src/main.rs:357-365 | defines the `dependencies` map after the first packages: each package's entry inserted at its exposed name; `TableIsInsertions`, `TableValues` and `SynthesizeKeys` state its properties |
| Disambiguation.TableValues | top-crates/src/main.rs:357-365 | every entry of the table is the entry inserted for one of the packages |
| Disambiguation.InsertionsKeys | top-crates/src/main.rs:357-365 | the table's keys are exactly the names inserted at |
| Disambiguation.InsertionsLastWins | top-crates/src/main.rs:357-365 | a key holds the value of the last insertion at it |
| Disambiguation.InsertionsSize | top-crates/src/main.rs:357-365 | with pairwise different keys, the table has one entry per insertion |
| Disambiguation.FirstWithoutLibrary | top-crates/src/main.rs:332-340 | the package that aborts the loop is one without a library, and every package before it has one |
| Disambiguation.FirstWithoutLibraryIs | top-crates/src/main.rs:332-340 | the first package without a library that the loop meets is exactly that package |
| Disambiguation.PartialExtend | top-crates/src/main.rs:357-371 | one more package's insert and push extend the loop's table and index to the next package |
| Disambiguation.Expose | top-crates/src/main.rs:323-375 | the grouping loop returns the table and index specified by `Synthesize`, or the error for the first package without a library |
| Disambiguation.Synthesize | top-crates/src/main.rs:323-375 | defines the grouping loop's result: the table and index built from all packages, or `NoLibrary` for the first package without a library; `SynthesizeKeys`, `SynthesizeEntries`, `SynthesizeLastWins` and `DistinctNamesOneEntryEach` state its properties |
| Disambiguation.ExposeGroup | top-crates/src/main.rs:326-375 | one group of packages with the same name extends the table and index through the whole group, or fails with the error for the first package without a library |
| Disambiguation.ExposeOne | top-crates/src/main.rs:329-373 | one package, under the name the `first` flag selects, extends the table and index by its entry and record |
| Disambiguation.DependencyEntry | top-crates/src/main.rs:354-365 | the inserted entry carries the package name, the version string, and the override, or no features and the defaults when there is none |
| Disambiguation.SpecOf | top-crates/src/main.rs:354-365 | defines the `DependencySpec` built for a package: its name, its version string, and the override or no features with the defaults; `DependencyEntry` states it for the loop and `SynthesizeEntries` for the table |
| Disambiguation.SynthesizeKeys | top-crates/src/main.rs:357-371 | the table's keys are exactly the ids of the index records |
| Disambiguation.SynthesizeEntries | top-crates/src/main.rs:357-365 | every entry of the table carries the name and version string of one of the packages |
| Disambiguation.SynthesizeLastWins | top-crates/src/main.rs:357-365 | a record's id holds that package's entry unless a later record has the same id |
| Disambiguation.DistinctNamesOneEntryEach | top-crates/src/main.rs:357-371 | with pairwise different ids, the table has one entry per package |
| Disambiguation.FirstInGroupIsNewest | top-crates/src/main.rs:314-327 | after sorting, the group head comes before and is at least as new as every package with its name |
| Disambiguation.OneFirstPerName | top-crates/src/main.rs:326-346 | after sorting, each name starts exactly one group |
| Disambiguation.DistinctWithinGroup | top-crates/src/main.rs:332-352 | after sorting, two versions of one package with different release triples whose libraries have the same crate name are exposed under different names |
| Disambiguation.SameTripleSameName | top-crates/src/main.rs:345-352 | two later versions of one package with the same triple and the same library crate name are exposed under the same name |
| Disambiguation.ExamplePrereleasesCollide | top-crates/src/main.rs:342-352 | after `foo 2.0.0`, `foo 1.0.0-beta` and `foo 1.0.0-alpha` are both exposed as `foo_1_0_0` |
| Disambiguation.TwoUnderOneName | top-crates/src/main.rs:357-371 | two packages exposed under one name give two index records with that id and one table entry, the second package's |
| Disambiguation.ExampleRenamedLibraryCollides | top-crates/src/main.rs:332-371 | a library renamed from `a` (1.0.0) to `a_1_0_0` (2.0.0) makes both versions `a_1_0_0`: two records, one entry |
| Disambiguation.ExampleTwoVersions | top-crates/src/main.rs:342-352 | for versions 1.2.0 and 1.1.0 of `foo`, the ids are `foo` and `foo_1_1_0` |
| Pipeline.Materialize | top-crates/src/main.rs:310-312 | downloading succeeds exactly when every id can be fetched, yielding one package per id in order; otherwise the first id that cannot be fetched is reported |
| Pipeline.Packages | top-crates/src/main.rs:245-312 | defines `main` from the candidate list to the download: the roots, then the resolver, then the blacklist filter and the download, each failure aborting; `Generate`, `IndexFromResolvedIds` and `ManifestFromResolvedIds` state its properties |
| Pipeline.Generate | top-crates/src/main.rs:237-375 | a failing stage's error aborts the run: query, then resolve, then download; otherwise the output is the grouping loop's result on a sorted permutation of the downloaded packages |
| Pipeline.IndexFromPackages | top-crates/src/main.rs:323-371 | every index record names a downloaded package under its version string |
| Pipeline.ManifestFromPackages | top-crates/src/main.rs:323-365 | every manifest entry names a downloaded package under its version string |
| Pipeline.ManifestFromResolvedIds | top-crates/src/main.rs:285-365 | on success every manifest entry is for a resolved, non-blacklisted package under the version chosen for it |
| Pipeline.IndexFromResolvedIds | top-crates/src/main.rs:285-371 | on success every index record is a resolved, non-blacklisted package id with the same version |

## Left out

- `TopCrates::download` (HTTP and JSON decoding) is left out. The downloaded ranking is an input of `Pipeline.Generate`.
- Loading `MODIFICATIONS` (file reading and TOML parsing) is left out. `Modifications` is a plain input value.
- The cargo calls are parameters of `Pipeline.Generate`: `query` stands for the registry query, `resolve` for the resolver and `fetch` for the package download.
  - The config, the cache lock and the registry update have no counterpart.
  - The resolver's algorithm is not modelled.
- `Dependency::parse_no_deprecated`, `PackageId::new` and `PackageSet::new` are taken to succeed. Their failures depend on cargo internals that are not part of this model.
- `Pipeline.Materialize`: `PackageSet` is keyed by id and lists its ids in hash order. The model downloads the ids in resolver order, so duplicate ids are kept and the failure reported is the first in that order. `Disambiguation.SortedUnique` shows that the order does not reach the output when the ids are distinct.
- `Disambiguation.SortPackages`: the source's `sort_by` is a stable merge sort; the model uses an insertion sort. Both give sorted permutations, and `Disambiguation.SortedUnique` shows that these are equal when no two packages share a name and version.
- `Pipeline.Generate` states the output for some sorted permutation of the downloaded packages, not for the one a stable sort yields. The two coincide for distinct ids.
- `FeatureValue::to_string` is left out. A crate's `default` group is given directly as feature-name strings.
- The TOML and JSON writers are left out, along with the manifest header and the profile constants. `Manifest` models only the field rules of one entry.
- How the `BTreeMap` table is ordered when written out is left out, because a Dafny `map` has no order.
- TOML floats, date-times and inline-table details are left out.
- `Features.ParseMetadata` accepts the playground section only as a table. serde's derived deserializer also accepts an array whose elements fill the fields in declaration order, with defaults for the missing ones (`playground = [["std"]]` parses in the source). The model treats such an array as a parse failure.
- Semver build metadata is left out. It plays no part in `is_prerelease` or in the version order. `Version`'s `Display` does print it as `+build`, though. So `version.to_string()` writes it into the manifest's version pin and the index record, for example `0.9.0+wasi-snapshot-preview1` for that `wasi` release. `Semver.ToString` leaves it out, so for such packages the model's `DependencySpec.version` and `CrateInformation.version` lack the `+build` part.
- Version numbers are unbounded naturals; the `u64` width is not modelled. No registry version comes near it.
- `Strings.Less` compares code points, not bytes. On UTF-8 strings the two orders agree.
- Panics become `Error` values, and the model carries no message text.
- `eprintln!` and `println!` logging are left out.
- Writing the two output files and their failures are left out.
