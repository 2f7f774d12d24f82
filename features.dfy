/**
 * Feature overrides taken from a package's `[package.metadata.playground]`
 * table: which features to enable and whether to keep the default ones.
 */
module Features {
  import opened Wrappers
  import opened Crates
  import Toml
  import SortedSets
  import Strings
  import Semver

  /** The playground table after decoding, with its defaults filled in. */
  datatype Metadata = Metadata(features: seq<string>, defaultFeatures: bool, allFeatures: bool)

  /** `custom_metadata()?.get("playground")?`: the table is absent unless both lookups succeed. */
  function PlaygroundSection(custom: Option<Toml.Value>): (r: Option<Toml.Value>)
    ensures r.Some? <==> custom.Some? && custom.value.Table? && "playground" in custom.value.entries
    ensures r.Some? ==> r.value == custom.value.entries["playground"]
  {
    match custom
    case Some(Table(entries)) => if "playground" in entries then Some(entries["playground"]) else None
    case _ => None
  }

  /** An optional boolean field: absent gives the default, a non-boolean fails. */
  function BoolField(entries: map<string, Toml.Value>, key: string, default: bool): Option<bool> {
    if key !in entries then Some(default)
    else if entries[key].Boolean? then Some(entries[key].b)
    else None
  }

  /** An optional list-of-strings field: absent gives `[]`, anything else but such a list fails. */
  function ListField(entries: map<string, Toml.Value>, key: string): Option<seq<string>> {
    if key !in entries then Some([])
    else if entries[key].Array? then Toml.StringList(entries[key].items)
    else None
  }

  /**
   * `try_into::<Metadata>()` with `#[serde(default, rename_all = "kebab-case")]`:
   * `features` defaults to empty, `default-features` to true, `all-features`
   * to false; other keys are ignored; `None` is a parse failure.
   */
  function ParseMetadata(v: Toml.Value): Option<Metadata> {
    match v
    case Table(entries) =>
      var features := ListField(entries, "features");
      var defaultFeatures := BoolField(entries, "default-features", true);
      var allFeatures := BoolField(entries, "all-features", false);
      if features.Some? && defaultFeatures.Some? && allFeatures.Some? then
        Some(Metadata(features.value, defaultFeatures.value, allFeatures.value))
      else None
    case _ => None
  }

  /** The table a package author writes to request `md`. */
  function MetadataTable(md: Metadata): Toml.Value {
    Toml.Table(map[
      "features" := Toml.StringArray(md.features),
      "default-features" := Toml.Boolean(md.defaultFeatures),
      "all-features" := Toml.Boolean(md.allFeatures)])
  }

  lemma ParseMetadataTable(md: Metadata)
    ensures ParseMetadata(MetadataTable(md)) == Some(md)
  {
    Toml.StringListOfArray(md.features);
  }

  /** An empty table leaves every field at its default. */
  lemma ParseEmptyTable()
    ensures ParseMetadata(Toml.Table(map[])) == Some(Metadata([], true, false))
  {
  }

  /** The features asked for: every declared one under `all-features`, else the listed ones. */
  function Requested(declared: map<string, seq<string>>, md: Metadata): set<string> {
    if md.allFeatures then declared.Keys else SortedSets.Elements(md.features)
  }

  /** What the default feature group already brings, when defaults are kept. */
  function DefaultImplied(declared: map<string, seq<string>>, md: Metadata): set<string> {
    if md.defaultFeatures && "default" in declared then {"default"} + SortedSets.Elements(declared["default"])
    else {}
  }

  function EnabledFeatures(declared: map<string, seq<string>>, md: Metadata): set<string> {
    Requested(declared, md) - DefaultImplied(declared, md)
  }

  /** The override `playground_metadata_features` returns for `p`, if any. */
  ghost function MetadataFeatures(p: Package): Option<(seq<string>, bool)> {
    match PlaygroundSection(p.customMetadata)
    case None => None
    case Some(section) =>
      match ParseMetadata(section)
      case None => None
      case Some(md) =>
        var enabled := EnabledFeatures(p.features, md);
        if enabled != {} || !md.defaultFeatures then Some((SortedSets.SortedSeq(enabled), md.defaultFeatures))
        else None
  }

  /**
   * `playground_metadata_features`: builds the set of enabled features, then
   * removes "default" and each feature the default group implies, one at a
   * time, and lists what is left in ascending order.
   */
  method PlaygroundMetadataFeatures(pkg: Package) returns (r: Option<(seq<string>, bool)>)
    ensures r == MetadataFeatures(pkg)
  {
    var section := PlaygroundSection(pkg.customMetadata);
    if section.None? {
      return None;
    }
    var parsed := ParseMetadata(section.value);
    if parsed.None? {
      return None;
    }
    var metadata := parsed.value;
    var enabled: set<string> := if metadata.allFeatures then pkg.features.Keys else SortedSets.Elements(metadata.features);
    if metadata.defaultFeatures && "default" in pkg.features {
      var defaults := pkg.features["default"];
      enabled := enabled - {"default"};
      var i := 0;
      while i < |defaults|
        invariant 0 <= i <= |defaults|
        invariant enabled == Requested(pkg.features, metadata) - ({"default"} + SortedSets.Elements(defaults[..i]))
      {
        assert SortedSets.Elements(defaults[..i + 1]) == SortedSets.Elements(defaults[..i]) + {defaults[i]};
        enabled := enabled - {defaults[i]};
        i := i + 1;
      }
      assert defaults[..i] == defaults;
    }
    assert enabled == EnabledFeatures(pkg.features, metadata);
    if enabled != {} || !metadata.defaultFeatures {
      var list := SortedSets.Ascending(enabled);
      r := Some((list, metadata.defaultFeatures));
    } else {
      r := None;
    }
  }

  /** Under `all-features` every declared feature is asked for and the listed ones do not matter. */
  lemma AllFeaturesIgnoresList(declared: map<string, seq<string>>, md: Metadata, listed: seq<string>)
    requires md.allFeatures
    ensures EnabledFeatures(declared, md) == declared.Keys - DefaultImplied(declared, md)
    ensures EnabledFeatures(declared, md.(features := listed)) == EnabledFeatures(declared, md)
  {
  }

  /** Without `all-features` exactly the listed features are asked for, duplicates collapsed. */
  lemma ListedFeaturesRequested(declared: map<string, seq<string>>, md: Metadata)
    requires !md.allFeatures
    ensures forall f :: f in EnabledFeatures(declared, md) <==> f in md.features && f !in DefaultImplied(declared, md)
  {
  }

  /** Keeping the defaults drops "default" and everything it implies. */
  lemma DefaultGroupRemoved(declared: map<string, seq<string>>, md: Metadata)
    requires md.defaultFeatures && "default" in declared
    ensures "default" !in EnabledFeatures(declared, md)
    ensures forall f :: f in declared["default"] ==> f !in EnabledFeatures(declared, md)
  {
  }

  /** Without a "default" group, or with the defaults switched off, nothing is removed. */
  lemma NothingRemovedOtherwise(declared: map<string, seq<string>>, md: Metadata)
    requires !md.defaultFeatures || "default" !in declared
    ensures EnabledFeatures(declared, md) == Requested(declared, md)
  {
  }

  /**
   * No override for absent metadata, for metadata that does not parse, and
   * for an empty selection that keeps the defaults; otherwise the override is
   * the selection in ascending order, each feature once, with the
   * `default-features` flag.
   */
  lemma MetadataFeaturesCases(p: Package)
    ensures MetadataFeatures(p).None? <==>
      || PlaygroundSection(p.customMetadata).None?
      || ParseMetadata(PlaygroundSection(p.customMetadata).value).None?
      || (var md := ParseMetadata(PlaygroundSection(p.customMetadata).value).value;
          EnabledFeatures(p.features, md) == {} && md.defaultFeatures)
    ensures MetadataFeatures(p).Some? ==>
      var md := ParseMetadata(PlaygroundSection(p.customMetadata).value).value;
      var (list, defaultFeatures) := MetadataFeatures(p).value;
      && SortedSets.StrictlyAscending(list)
      && SortedSets.Elements(list) == EnabledFeatures(p.features, md)
      && defaultFeatures == md.defaultFeatures
  {
  }

  /** Asking only for what the default group brings records no override. */
  lemma ExampleDefaultImpliedFeature()
    ensures MetadataFeatures(Package("lib", Semver.Version(1, 0, 0, []), [],
      map["default" := ["x"], "x" := []],
      Some(Toml.Table(map["playground" := Toml.Table(map[
        "features" := Toml.Array([Toml.String("x")]),
        "default-features" := Toml.Boolean(true)])])))) == None
  {
    var md := Metadata(["x"], true, false);
    assert SortedSets.Elements(md.features) == {"x"};
  }

  /** `all-features` on a crate declaring "std" and "extra" lists both, in order. */
  lemma ExampleAllFeatures()
    ensures MetadataFeatures(Package("lib", Semver.Version(1, 0, 0, []), [],
      map["std" := [], "extra" := []],
      Some(Toml.Table(map["playground" := Toml.Table(map["all-features" := Toml.Boolean(true)])])))) ==
      Some((["extra", "std"], true))
  {
    var declared := map["std" := [], "extra" := []];
    var table := Toml.Table(map["all-features" := Toml.Boolean(true)]);
    var md := Metadata([], true, true);
    assert ParseMetadata(table) == Some(md);
    var enabled := {"std", "extra"};
    assert declared.Keys == enabled;
    assert EnabledFeatures(declared, md) == enabled;
    var list := ["extra", "std"];
    assert Strings.Less(list[0], list[1]);
    assert SortedSets.StrictlyAscending(list);
    assert SortedSets.Elements(list) == enabled;
    SortedSets.AscendingUnique(list, SortedSets.SortedSeq(enabled));
    var p := Package("lib", Semver.Version(1, 0, 0, []), [], declared, Some(Toml.Table(map["playground" := table])));
    assert PlaygroundSection(p.customMetadata) == Some(table);
    assert p.features == declared;
  }
}
