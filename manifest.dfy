/**
 * How one `[dependencies]` entry of the generated manifest is written: the
 * field skip rules and the exact-version pin of `DependencySpec`.
 */
module Manifest {
  import opened Wrappers
  import opened Crates
  import Toml

  /** `exact_version`: the version pinned with `=`. */
  function ExactVersion(version: string): (r: string)
    ensures |r| == |version| + 1 && r[0] == '=' && r[1..] == version
  {
    "=" + version
  }

  /** `is_true`: `default-features = true` is Cargo's default and is not written. */
  function IsTrue(b: bool): bool {
    b
  }

  /**
   * The fields of an entry in declaration order, kebab-case: `package` unless
   * empty, the pinned `version`, `features` unless empty, `default-features`
   * unless true.
   */
  function SpecFields(spec: DependencySpec): seq<(string, Toml.Value)> {
    PackageField(spec) + [("version", Toml.String(ExactVersion(spec.version)))]
    + FeaturesField(spec) + DefaultFeaturesField(spec)
  }

  function PackageField(spec: DependencySpec): seq<(string, Toml.Value)> {
    if spec.package == "" then [] else [("package", Toml.String(spec.package))]
  }

  function FeaturesField(spec: DependencySpec): seq<(string, Toml.Value)> {
    if spec.features == [] then [] else [("features", Toml.StringArray(spec.features))]
  }

  function DefaultFeaturesField(spec: DependencySpec): seq<(string, Toml.Value)> {
    if IsTrue(spec.defaultFeatures) then [] else [("default-features", Toml.Boolean(spec.defaultFeatures))]
  }

  /** The first field named `key`. */
  function Lookup(fields: seq<(string, Toml.Value)>, key: string): (r: Option<Toml.Value>)
    ensures r.Some? <==> exists i :: 0 <= i < |fields| && fields[i].0 == key
    decreases |fields|
  {
    if fields == [] then None
    else if fields[0].0 == key then Some(fields[0].1)
    else Lookup(fields[1..], key)
  }

  lemma {:induction false} LookupAppend(a: seq<(string, Toml.Value)>, b: seq<(string, Toml.Value)>, key: string)
    ensures Lookup(a + b, key) == if Lookup(a, key).Some? then Lookup(a, key) else Lookup(b, key)
    decreases |a|
  {
    if a != [] {
      assert (a + b)[0] == a[0] && (a + b)[1..] == a[1..] + b;
      LookupAppend(a[1..], b, key);
    } else {
      assert a + b == b;
    }
  }

  /** Each field of an entry is found under its own name and under no other. */
  lemma LookupSpecFields(spec: DependencySpec, key: string)
    ensures Lookup(SpecFields(spec), key) ==
      if key == "version" then Some(Toml.String(ExactVersion(spec.version)))
      else if key == "package" then Lookup(PackageField(spec), key)
      else if key == "features" then Lookup(FeaturesField(spec), key)
      else if key == "default-features" then Lookup(DefaultFeaturesField(spec), key)
      else None
  {
    var v := [("version", Toml.String(ExactVersion(spec.version)))];
    LookupAppend(PackageField(spec), v, key);
    LookupAppend(PackageField(spec) + v, FeaturesField(spec), key);
    LookupAppend(PackageField(spec) + v + FeaturesField(spec), DefaultFeaturesField(spec), key);
  }

  /** Reading an entry back, with the serialiser's defaults for the skipped fields. */
  function ReadSpec(fields: seq<(string, Toml.Value)>): Option<DependencySpec> {
    var package := match Lookup(fields, "package")
      case None => Some("")
      case Some(v) => if v.String? then Some(v.s) else None;
    var version := match Lookup(fields, "version")
      case Some(String(s)) => if |s| > 0 && s[0] == '=' then Some(s[1..]) else None
      case _ => None;
    var features := match Lookup(fields, "features")
      case None => Some([])
      case Some(v) => if v.Array? then Toml.StringList(v.items) else None;
    var defaultFeatures := match Lookup(fields, "default-features")
      case None => Some(true)
      case Some(v) => if v.Boolean? then Some(v.b) else None;
    if package.Some? && version.Some? && features.Some? && defaultFeatures.Some? then
      Some(DependencySpec(package.value, version.value, features.value, defaultFeatures.value))
    else None
  }

  /** Skipping fields loses nothing: every entry reads back as written. */
  lemma ReadSpecFields(spec: DependencySpec)
    ensures ReadSpec(SpecFields(spec)) == Some(spec)
  {
    LookupSpecFields(spec, "package");
    LookupSpecFields(spec, "version");
    LookupSpecFields(spec, "features");
    LookupSpecFields(spec, "default-features");
    assert ExactVersion(spec.version)[1..] == spec.version;
    Toml.StringListOfArray(spec.features);
  }

  /**
   * The version is always written, pinned; `features` appears exactly when
   * non-empty and `default-features` exactly when false.
   */
  lemma FieldPresence(spec: DependencySpec)
    ensures Lookup(SpecFields(spec), "version") == Some(Toml.String("=" + spec.version))
    ensures Lookup(SpecFields(spec), "features").Some? <==> spec.features != []
    ensures Lookup(SpecFields(spec), "default-features").Some? <==> !spec.defaultFeatures
    ensures Lookup(SpecFields(spec), "package").Some? <==> spec.package != ""
  {
    LookupSpecFields(spec, "package");
    LookupSpecFields(spec, "version");
    LookupSpecFields(spec, "features");
    LookupSpecFields(spec, "default-features");
  }
}
