/**
 * Grouping and disambiguation: the packages are sorted by name, newest
 * version first; the first package of each name keeps its library crate name
 * and every later one gets `_major_minor_patch` appended. Each package adds
 * one `[dependencies]` entry and one index record.
 */
module Disambiguation {
  import opened Wrappers
  import opened Crates
  import Semver
  import Strings
  import Features

  /** The comparator of the sort does not put `p` after `q`: name ascending, then version descending. */
  predicate Before(p: Package, q: Package) {
    Strings.Less(p.name, q.name) || (p.name == q.name && !Semver.Less(p.version, q.version))
  }

  lemma BeforeTotal(p: Package, q: Package)
    ensures Before(p, q) || Before(q, p)
  {
    if p.name != q.name {
      Strings.LessTotal(p.name, q.name);
    } else if Semver.Less(p.version, q.version) {
      Semver.LessAsymmetric(p.version, q.version);
    }
  }

  lemma BeforeTransitive(p: Package, q: Package, r: Package)
    requires Before(p, q) && Before(q, r)
    ensures Before(p, r)
  {
    if p.name == q.name && q.name == r.name {
      Strings.LessIrreflexive(p.name);
      Semver.AtLeastTransitive(p.version, q.version, r.version);
    } else if p.name != q.name && q.name != r.name {
      Strings.LessTransitive(p.name, q.name, r.name);
    }
  }

  lemma BeforeReflexive(p: Package)
    ensures Before(p, p)
  {
    Semver.LessIrreflexive(p.version);
  }

  /** Packages that sort both ways round have the same name and version. */
  lemma BeforeBothWays(p: Package, q: Package)
    requires Before(p, q) && Before(q, p)
    ensures p.name == q.name && p.version == q.version
  {
    if p.name != q.name {
      Strings.LessAsymmetric(p.name, q.name);
    } else if p.version != q.version {
      Strings.LessIrreflexive(p.name);
      Semver.LessTotal(p.version, q.version);
    }
  }

  /** A name that sorts before another is not the same name. */
  lemma BeforeNames(p: Package, q: Package)
    requires Before(p, q) && p.name != q.name
    ensures Strings.Less(p.name, q.name) && !Strings.Less(q.name, p.name)
  {
    Strings.LessAsymmetric(p.name, q.name);
  }

  ghost predicate Sorted(s: seq<Package>) {
    forall i, j :: 0 <= i < j < |s| ==> Before(s[i], s[j])
  }

  /**
   * `packages.sort_by(...)` on the vector of packages, in place. (The
   * source's sort is a stable merge sort; this is an insertion sort, which
   * yields the same order whenever no two packages share a name and version.)
   */
  method SortPackages(a: array<Package>)
    modifies a
    ensures Sorted(a[..])
    ensures multiset(a[..]) == multiset(old(a[..]))
  {
    var i := 0;
    while i < a.Length
      invariant 0 <= i <= a.Length
      invariant forall k, l :: 0 <= k < l < i ==> Before(a[k], a[l])
      invariant multiset(a[..]) == multiset(old(a[..]))
    {
      InsertBackwards(a, i);
      i := i + 1;
    }
  }

  /** One pass of the insertion sort: moves `a[i]` down into the sorted prefix `a[..i]`. */
  method InsertBackwards(a: array<Package>, i: nat)
    requires i < a.Length
    requires forall k, l :: 0 <= k < l < i ==> Before(a[k], a[l])
    modifies a
    ensures forall k, l :: 0 <= k < l <= i ==> Before(a[k], a[l])
    ensures a[i + 1..] == old(a[i + 1..])
    ensures multiset(a[..]) == multiset(old(a[..]))
  {
    var j := i;
    while j > 0 && !Before(a[j - 1], a[j])
      invariant 0 <= j <= i
      invariant forall k, l :: 0 <= k < l <= i && k != j && l != j ==> Before(a[k], a[l])
      invariant forall l :: j < l <= i ==> Before(a[j], a[l])
      invariant a[i + 1..] == old(a[i + 1..])
      invariant multiset(a[..]) == multiset(old(a[..]))
    {
      BeforeTotal(a[j - 1], a[j]);
      Swap(a, j);
      j := j - 1;
    }
    forall k | 0 <= k < j ensures Before(a[k], a[j]) {
      if k < j - 1 {
        BeforeTransitive(a[k], a[j - 1], a[j]);
      }
    }
  }

  /** Exchanges `a[j - 1]` and `a[j]`. */
  method Swap(a: array<Package>, j: nat)
    requires 0 < j < a.Length
    modifies a
    ensures a[..] == old(a[..])[j - 1 := old(a[j])][j := old(a[j - 1])]
    ensures multiset(a[..]) == multiset(old(a[..]))
  {
    a[j - 1], a[j] := a[j], a[j - 1];
  }

  /** Packages with pairwise different (name, version) pairs, as a resolve yields them. */
  ghost predicate DistinctIds(s: seq<Package>) {
    forall i, j :: 0 <= i < j < |s| ==> s[i].name != s[j].name || s[i].version != s[j].version
  }

  /**
   * The sorted order does not depend on the order the packages arrived in:
   * two sorted arrangements of the same distinct packages are equal.
   */
  lemma {:induction false} SortedUnique(a: seq<Package>, b: seq<Package>)
    requires Sorted(a) && Sorted(b) && multiset(a) == multiset(b) && DistinctIds(a)
    ensures a == b
    decreases |a|
  {
    if a == [] {
      assert |b| == |multiset(b)| == 0;
    } else {
      assert b != [] by { assert |b| == |multiset(b)| == |multiset(a)| == |a|; }
      assert b[0] in multiset(a) by { assert b[0] in multiset(b); }
      assert a[0] in multiset(b);
      var k :| 0 <= k < |a| && a[k] == b[0];
      var m :| 0 <= m < |b| && b[m] == a[0];
      BeforeReflexive(a[0]);
      assert Before(a[0], a[k]);
      assert Before(b[0], b[m]);
      BeforeBothWays(a[0], a[k]);
      assert k == 0;
      MultisetTail(a, b);
      SortedUnique(a[1..], b[1..]);
    }
  }

  lemma MultisetTail<T>(a: seq<T>, b: seq<T>)
    requires a != [] && b != [] && a[0] == b[0] && multiset(a) == multiset(b)
    ensures multiset(a[1..]) == multiset(b[1..])
  {
    assert a == [a[0]] + a[1..] && b == [b[0]] + b[1..];
    assert multiset(a[1..]) == multiset(a) - multiset{a[0]};
    assert multiset(b[1..]) == multiset(b) - multiset{b[0]};
  }

  /** `String::replace("-", "_")`, which `Target::crate_name` applies to the target name. */
  function ReplaceHyphens(s: string): (r: string)
    ensures |r| == |s| && forall i :: 0 <= i < |s| ==> r[i] == if s[i] == '-' then '_' else s[i]
    decreases |s|
  {
    if s == [] then [] else [if s[0] == '-' then '_' else s[0]] + ReplaceHyphens(s[1..])
  }

  /** A name without hyphens is its own crate name. */
  lemma NoHyphensUnchanged(s: string)
    requires '-' !in s
    ensures ReplaceHyphens(s) == s
  {
  }

  /** The crate name of the first library target, if there is one. */
  function LibraryCrateName(targets: seq<Target>): Option<string>
    decreases |targets|
  {
    if targets == [] then None
    else if targets[0].kind == Lib then Some(ReplaceHyphens(targets[0].name))
    else LibraryCrateName(targets[1..])
  }

  /** `targets[i]` is the first library target. */
  predicate FirstLib(targets: seq<Target>, i: nat) {
    i < |targets| && targets[i].kind == Lib && forall j :: 0 <= j < i ==> targets[j].kind != Lib
  }

  /** `LibraryCrateName` is absent with no library target, and otherwise comes from the first one. */
  lemma {:induction false} LibraryCrateNameFirstLib(targets: seq<Target>)
    ensures LibraryCrateName(targets).None? <==> forall i :: 0 <= i < |targets| ==> targets[i].kind != Lib
    ensures LibraryCrateName(targets).Some? ==>
      exists i: nat :: FirstLib(targets, i) && LibraryCrateName(targets).value == ReplaceHyphens(targets[i].name)
    decreases |targets|
  {
    if targets == [] {
    } else if targets[0].kind == Lib {
      assert FirstLib(targets, 0);
    } else {
      var rest := targets[1..];
      LibraryCrateNameFirstLib(rest);
      assert LibraryCrateName(targets) == LibraryCrateName(rest);
      assert forall i :: 1 <= i < |targets| ==> targets[i] == rest[i - 1];
      if LibraryCrateName(rest).Some? {
        var i: nat :| FirstLib(rest, i) && LibraryCrateName(rest).value == ReplaceHyphens(rest[i].name);
        assert FirstLib(targets, i + 1);
      }
    }
  }

  /** `format!("{}_{}_{}_{}", crate_name, major, minor, patch)`. */
  function Suffixed(crateName: string, v: Semver.Version): string {
    crateName + "_" + Strings.NatToString(v.major) + "_" + Strings.NatToString(v.minor) + "_" + Strings.NatToString(v.patch)
  }

  /** A suffixed name determines the release triple it was made from. */
  lemma SuffixedInjective(crateName: string, v: Semver.Version, w: Semver.Version)
    requires Suffixed(crateName, v) == Suffixed(crateName, w)
    ensures v.major == w.major && v.minor == w.minor && v.patch == w.patch
  {
    var a, b, c := Strings.NatToString(v.major), Strings.NatToString(v.minor), Strings.NatToString(v.patch);
    var a', b', c' := Strings.NatToString(w.major), Strings.NatToString(w.minor), Strings.NatToString(w.patch);
    Strings.DigitsHaveNo(a, '_'); Strings.DigitsHaveNo(a', '_');
    Strings.DigitsHaveNo(b, '_'); Strings.DigitsHaveNo(b', '_');
    Strings.DigitsHaveNo(c, '_'); Strings.DigitsHaveNo(c', '_');
    assert (crateName + "_" + a + "_" + b) + ['_'] + c == (crateName + "_" + a' + "_" + b') + ['_'] + c';
    Strings.SplitAtLast(crateName + "_" + a + "_" + b, c, crateName + "_" + a' + "_" + b', c', '_');
    assert (crateName + "_" + a) + ['_'] + b == (crateName + "_" + a') + ['_'] + b';
    Strings.SplitAtLast(crateName + "_" + a, b, crateName + "_" + a', b', '_');
    assert crateName + ['_'] + a == crateName + ['_'] + a';
    Strings.SplitAtLast(crateName, a, crateName, a', '_');
    Strings.NatToStringInjective(v.major, w.major);
    Strings.NatToStringInjective(v.minor, w.minor);
    Strings.NatToStringInjective(v.patch, w.patch);
  }

  /** `first` in the grouping loop: the package starts a run of equal names. */
  predicate FirstInGroup(pkgs: seq<Package>, i: nat)
    requires i < |pkgs|
  {
    i == 0 || pkgs[i - 1].name != pkgs[i].name
  }

  function ExposedName(pkgs: seq<Package>, i: nat, crateName: string): string
    requires i < |pkgs|
  {
    if FirstInGroup(pkgs, i) then crateName else Suffixed(crateName, pkgs[i].version)
  }

  /** Only the first package of a group is exposed under the bare crate name. */
  lemma BareNameOnlyForFirst(pkgs: seq<Package>, i: nat, crateName: string)
    requires i < |pkgs|
    ensures ExposedName(pkgs, i, crateName) == crateName <==> FirstInGroup(pkgs, i)
  {
  }

  /** The `[dependencies]` entry for a package: no override means no features and the defaults. */
  ghost function SpecOf(p: Package): DependencySpec {
    var (features, defaultFeatures) := Features.MetadataFeatures(p).GetOr(([], true));
    DependencySpec(p.name, Semver.ToString(p.version), features, defaultFeatures)
  }

  function InfoOf(p: Package, id: string): CrateInformation {
    CrateInformation(p.name, Semver.ToString(p.version), id)
  }

  /** The two artifacts: the `[dependencies]` table and the crate index. */
  datatype Output = Output(dependencies: map<string, DependencySpec>, infos: seq<CrateInformation>)

  /** The first `n` packages all have a library target. */
  ghost predicate HasLibraries(pkgs: seq<Package>, n: nat)
    requires n <= |pkgs|
  {
    forall j :: 0 <= j < n ==> LibraryCrateName(pkgs[j].targets).Some?
  }

  /** The name package `i` is exposed under, given that it has a library. */
  function Exposed(pkgs: seq<Package>, i: nat): string
    requires i < |pkgs| && LibraryCrateName(pkgs[i].targets).Some?
  {
    ExposedName(pkgs, i, LibraryCrateName(pkgs[i].targets).value)
  }

  /** Inserting `values[i]` at `keys[i]` for each `i` in order, later insertions overwriting earlier ones. */
  ghost function Insertions<K, V>(keys: seq<K>, values: seq<V>): map<K, V>
    requires |keys| == |values|
    decreases |keys|
  {
    if keys == [] then map[]
    else
      var n := |keys| - 1;
      Insertions(keys[..n], values[..n])[keys[n] := values[n]]
  }

  lemma InsertionsAppend<K, V>(keys: seq<K>, values: seq<V>, k: K, v: V)
    requires |keys| == |values|
    ensures Insertions(keys + [k], values + [v]) == Insertions(keys, values)[k := v]
  {
  }

  /** The keys of the table are exactly the keys inserted. */
  lemma {:induction false} InsertionsKeys<K, V>(keys: seq<K>, values: seq<V>)
    requires |keys| == |values|
    ensures forall k :: k in Insertions(keys, values) <==> k in keys
    decreases |keys|
  {
    if keys != [] {
      var n := |keys| - 1;
      InsertionsKeys(keys[..n], values[..n]);
      assert keys == keys[..n] + [keys[n]];
      forall k ensures k in keys <==> k in keys[..n] || k == keys[n] {
      }
    }
  }

  /** A key holds the value of the last insertion at it. */
  lemma {:induction false} InsertionsLastWins<K, V>(keys: seq<K>, values: seq<V>, i: nat)
    requires |keys| == |values| && i < |keys|
    requires forall j :: i < j < |keys| ==> keys[j] != keys[i]
    ensures keys[i] in Insertions(keys, values) && Insertions(keys, values)[keys[i]] == values[i]
    decreases |keys|
  {
    var n := |keys| - 1;
    if i < n {
      InsertionsLastWins(keys[..n], values[..n], i);
    }
  }

  /** Pairwise different keys give one entry per insertion. */
  lemma {:induction false} InsertionsSize<K, V>(keys: seq<K>, values: seq<V>)
    requires |keys| == |values|
    requires forall i, j :: 0 <= i < j < |keys| ==> keys[i] != keys[j]
    ensures |Insertions(keys, values)| == |keys|
    decreases |keys|
  {
    if keys != [] {
      var n := |keys| - 1;
      InsertionsSize(keys[..n], values[..n]);
      InsertionsKeys(keys[..n], values[..n]);
      assert keys[n] !in keys[..n];
    }
  }

  /** The exposed names of the first `n` packages, in order. */
  function Names(pkgs: seq<Package>, n: nat): (r: seq<string>)
    requires n <= |pkgs| && HasLibraries(pkgs, n)
    ensures |r| == n && forall i :: 0 <= i < n ==> r[i] == Exposed(pkgs, i)
    decreases n
  {
    if n == 0 then [] else Names(pkgs, n - 1) + [Exposed(pkgs, n - 1)]
  }

  /** The `[dependencies]` entries of the first `n` packages, in order. */
  ghost function Specs(pkgs: seq<Package>, n: nat): (r: seq<DependencySpec>)
    requires n <= |pkgs|
    ensures |r| == n
    decreases n
  {
    if n == 0 then [] else Specs(pkgs, n - 1) + [SpecOf(pkgs[n - 1])]
  }

  /** Entry `i` of the sequence of entries is the entry of package `i`. */
  lemma {:induction false} SpecsAt(pkgs: seq<Package>, n: nat, i: nat)
    requires i < n <= |pkgs|
    ensures Specs(pkgs, n)[i] == SpecOf(pkgs[i])
    decreases n
  {
    if i < n - 1 {
      SpecsAt(pkgs, n - 1, i);
    }
  }

  /** The `[dependencies]` table after the first `n` packages: each inserts at its exposed name. */
  ghost function Table(pkgs: seq<Package>, n: nat): map<string, DependencySpec>
    requires n <= |pkgs| && HasLibraries(pkgs, n)
    decreases n
  {
    if n == 0 then map[] else Table(pkgs, n - 1)[Exposed(pkgs, n - 1) := SpecOf(pkgs[n - 1])]
  }

  /** The table is the insertions of the packages' entries at their exposed names, in order. */
  lemma {:induction false} TableIsInsertions(pkgs: seq<Package>, n: nat)
    requires n <= |pkgs| && HasLibraries(pkgs, n)
    ensures Table(pkgs, n) == Insertions(Names(pkgs, n), Specs(pkgs, n))
    decreases n
  {
    if n > 0 {
      TableIsInsertions(pkgs, n - 1);
      InsertionsAppend(Names(pkgs, n - 1), Specs(pkgs, n - 1), Exposed(pkgs, n - 1), SpecOf(pkgs[n - 1]));
    }
  }

  /** Every entry of the table is the entry of one of the first `n` packages. */
  lemma {:induction false} TableValues(pkgs: seq<Package>, n: nat)
    requires n <= |pkgs| && HasLibraries(pkgs, n)
    ensures forall k :: k in Table(pkgs, n) ==> exists j :: 0 <= j < n && Table(pkgs, n)[k] == SpecOf(pkgs[j])
    decreases n
  {
    if n > 0 {
      TableValues(pkgs, n - 1);
    }
  }

  /** The crate index after the first `n` packages: one record per package, in order. */
  function Infos(pkgs: seq<Package>, n: nat): (r: seq<CrateInformation>)
    requires n <= |pkgs| && HasLibraries(pkgs, n)
    ensures |r| == n && forall i {:trigger r[i]} :: 0 <= i < n ==> r[i] == InfoOf(pkgs[i], Exposed(pkgs, i))
    decreases n
  {
    if n == 0 then [] else Infos(pkgs, n - 1) + [InfoOf(pkgs[n - 1], Exposed(pkgs, n - 1))]
  }

  /** The first package from `from` on that has no library target. */
  function FirstWithoutLibrary(pkgs: seq<Package>, from: nat): (r: nat)
    requires from < |pkgs| && HasLibraries(pkgs, from) && !HasLibraries(pkgs, |pkgs|)
    ensures from <= r < |pkgs| && LibraryCrateName(pkgs[r].targets).None? && HasLibraries(pkgs, r)
    decreases |pkgs| - from
  {
    if LibraryCrateName(pkgs[from].targets).None? then from
    else FirstWithoutLibrary(pkgs, from + 1)
  }

  /** The package without a library that stops the loop is the first one. */
  lemma {:induction false} FirstWithoutLibraryIs(pkgs: seq<Package>, from: nat, i: nat)
    requires from <= i < |pkgs| && HasLibraries(pkgs, i) && LibraryCrateName(pkgs[i].targets).None?
    ensures !HasLibraries(pkgs, |pkgs|) && FirstWithoutLibrary(pkgs, from) == i
    decreases i - from
  {
    if from < i {
      FirstWithoutLibraryIs(pkgs, from + 1, i);
    }
  }

  /**
   * What the grouping loop produces from the sorted packages: the table and
   * index built from all of them, or the error for the first package that
   * has no library target.
   */
  ghost function Synthesize(pkgs: seq<Package>): Result<Output, Error> {
    if HasLibraries(pkgs, |pkgs|) then Success(Output(Table(pkgs, |pkgs|), Infos(pkgs, |pkgs|)))
    else Failure(NoLibrary(pkgs[FirstWithoutLibrary(pkgs, 0)].name))
  }

  /** The grouping loop's state after the first `n` packages: the table and index built from them. */
  ghost predicate Partial(pkgs: seq<Package>, n: nat, dependencies: map<string, DependencySpec>, infos: seq<CrateInformation>)
    requires n <= |pkgs| && HasLibraries(pkgs, n)
  {
    dependencies == Table(pkgs, n) && infos == Infos(pkgs, n)
  }

  /** One package more: its exposed name, entry and record extend the state. */
  lemma PartialExtend(pkgs: seq<Package>, i: nat, dependencies: map<string, DependencySpec>, infos: seq<CrateInformation>,
                      exposed: string, spec: DependencySpec, info: CrateInformation)
    requires i < |pkgs| && HasLibraries(pkgs, i) && Partial(pkgs, i, dependencies, infos)
    requires LibraryCrateName(pkgs[i].targets).Some?
    requires exposed == Exposed(pkgs, i) && spec == SpecOf(pkgs[i]) && info == InfoOf(pkgs[i], exposed)
    ensures HasLibraries(pkgs, i + 1)
    ensures Partial(pkgs, i + 1, dependencies[exposed := spec], infos + [info])
  {
  }

  /**
   * The grouping loop of the generator's main routine: for each run of equal
   * names, inserts into `dependencies` and pushes onto `infos`.
   */
  method Expose(pkgs: seq<Package>) returns (r: Result<Output, Error>)
    ensures r == Synthesize(pkgs)
  {
    var dependencies: map<string, DependencySpec> := map[];
    var infos: seq<CrateInformation> := [];
    var i := 0;
    while i < |pkgs|
      invariant 0 <= i <= |pkgs| && HasLibraries(pkgs, i)
      invariant i < |pkgs| ==> FirstInGroup(pkgs, i)
      invariant Partial(pkgs, i, dependencies, infos)
      decreases |pkgs| - i
    {
      var next, err;
      next, dependencies, infos, err := ExposeGroup(pkgs, i, dependencies, infos);
      if err.Some? {
        return Failure(err.value);
      }
      i := next;
    }
    r := Success(Output(dependencies, infos));
  }

  /** The `[dependencies]` entry the grouping loop inserts for `pkg`. */
  method DependencyEntry(pkg: Package) returns (spec: DependencySpec)
    ensures spec == SpecOf(pkg)
  {
    var metadata := Features.PlaygroundMetadataFeatures(pkg);
    var (features, defaultFeatures) := metadata.GetOr(([], true));
    spec := DependencySpec(pkg.name, Semver.ToString(pkg.version), features, defaultFeatures);
  }

  /**
   * One group of the grouping loop: walks the packages named like
   * `pkgs[start]` with a `first` flag; the first keeps the bare crate name.
   * Stops with the error for a package that has no library target.
   */
  method ExposeGroup(pkgs: seq<Package>, start: nat, dependencies: map<string, DependencySpec>, infos: seq<CrateInformation>)
    returns (next: nat, dependencies': map<string, DependencySpec>, infos': seq<CrateInformation>, err: Option<Error>)
    requires start < |pkgs| && HasLibraries(pkgs, start) && FirstInGroup(pkgs, start)
    requires Partial(pkgs, start, dependencies, infos)
    ensures err.Some? ==> && !HasLibraries(pkgs, |pkgs|)
                          && err.value == NoLibrary(pkgs[FirstWithoutLibrary(pkgs, 0)].name)
    ensures err.None? ==> && start < next <= |pkgs| && HasLibraries(pkgs, next)
                          && (next < |pkgs| ==> FirstInGroup(pkgs, next))
                          && Partial(pkgs, next, dependencies', infos')
  {
    var name := pkgs[start].name;
    var first := true;
    var i := start;
    dependencies', infos' := dependencies, infos;
    while i < |pkgs| && pkgs[i].name == name
      invariant start <= i <= |pkgs| && HasLibraries(pkgs, i)
      invariant first ==> i == start && FirstInGroup(pkgs, i)
      invariant !first ==> start < i && pkgs[i - 1].name == name
      invariant Partial(pkgs, i, dependencies', infos')
      decreases |pkgs| - i
    {
      var crateName := LibraryCrateName(pkgs[i].targets);
      if crateName.None? {
        FirstWithoutLibraryIs(pkgs, 0, i);
        return i, dependencies', infos', Some(NoLibrary(name));
      }
      dependencies', infos' := ExposeOne(pkgs, i, first, crateName.value, dependencies', infos');
      first := false;
      i := i + 1;
    }
    return i, dependencies', infos', None;
  }

  /**
   * The body of the inner loop for a package with a library: the crate name,
   * suffixed with the version unless `first`, is the key its entry is
   * inserted under and the id of its record.
   */
  method ExposeOne(pkgs: seq<Package>, i: nat, first: bool, crateName: string,
                   dependencies: map<string, DependencySpec>, infos: seq<CrateInformation>)
    returns (dependencies': map<string, DependencySpec>, infos': seq<CrateInformation>)
    requires i < |pkgs| && HasLibraries(pkgs, i) && Partial(pkgs, i, dependencies, infos)
    requires LibraryCrateName(pkgs[i].targets) == Some(crateName) && first == FirstInGroup(pkgs, i)
    ensures HasLibraries(pkgs, i + 1) && Partial(pkgs, i + 1, dependencies', infos')
  {
    var pkg := pkgs[i];
    var exposed := if first then crateName else Suffixed(crateName, pkg.version);
    var spec := DependencyEntry(pkg);
    var info := CrateInformation(pkg.name, Semver.ToString(pkg.version), exposed);
    PartialExtend(pkgs, i, dependencies, infos, exposed, spec, info);
    dependencies' := dependencies[exposed := spec];
    infos' := infos + [info];
  }

  /** On success the table's keys are exactly the exposed names of the packages. */
  lemma SynthesizeKeys(pkgs: seq<Package>)
    requires Synthesize(pkgs).Success?
    ensures var out := Synthesize(pkgs).value;
      forall id :: id in out.dependencies <==> exists i :: 0 <= i < |pkgs| && out.infos[i].id == id
  {
    var names, specs := Names(pkgs, |pkgs|), Specs(pkgs, |pkgs|);
    InsertionsKeys(names, specs);
    TableIsInsertions(pkgs, |pkgs|);
    var out := Synthesize(pkgs).value;
    assert out.dependencies == Insertions(names, specs);
    assert |out.infos| == |pkgs| && forall j :: 0 <= j < |pkgs| ==> names[j] == out.infos[j].id;
    KeysAreIds(names, out.infos, out.dependencies);
  }

  /** A map keyed by exactly the names of a list, where each record carries its name as its id. */
  lemma KeysAreIds(names: seq<string>, infos: seq<CrateInformation>, m: map<string, DependencySpec>)
    requires |names| == |infos| && forall j :: 0 <= j < |names| ==> names[j] == infos[j].id
    requires forall k :: k in m <==> k in names
    ensures forall id :: id in m <==> exists i :: 0 <= i < |infos| && infos[i].id == id
  {
  }

  /** On success every entry of the table carries the name and version string of one of the packages. */
  lemma SynthesizeEntries(pkgs: seq<Package>)
    requires Synthesize(pkgs).Success?
    ensures var deps := Synthesize(pkgs).value.dependencies;
      forall key :: key in deps ==>
        exists j :: 0 <= j < |pkgs| && deps[key].package == pkgs[j].name && deps[key].version == Semver.ToString(pkgs[j].version)
  {
    var deps := Synthesize(pkgs).value.dependencies;
    TableValues(pkgs, |pkgs|);
    forall key | key in deps
      ensures exists j :: 0 <= j < |pkgs| && deps[key].package == pkgs[j].name && deps[key].version == Semver.ToString(pkgs[j].version)
    {
      var j :| 0 <= j < |pkgs| && deps[key] == SpecOf(pkgs[j]);
    }
  }

  /** On success each key holds the entry of the last package exposed under it. */
  lemma SynthesizeLastWins(pkgs: seq<Package>, i: nat)
    requires Synthesize(pkgs).Success? && i < |pkgs|
    requires var infos := Synthesize(pkgs).value.infos;
      forall j :: i < j < |pkgs| ==> infos[j].id != infos[i].id
    ensures var out := Synthesize(pkgs).value;
      out.infos[i].id in out.dependencies && out.dependencies[out.infos[i].id] == SpecOf(pkgs[i])
  {
    var names := Names(pkgs, |pkgs|);
    var out := Synthesize(pkgs).value;
    assert forall j :: 0 <= j < |pkgs| ==> names[j] == out.infos[j].id;
    InsertionsLastWins(names, Specs(pkgs, |pkgs|), i);
    TableIsInsertions(pkgs, |pkgs|);
    SpecsAt(pkgs, |pkgs|, i);
  }

  /** With pairwise different exposed names, the table has one entry per package. */
  lemma DistinctNamesOneEntryEach(pkgs: seq<Package>)
    requires Synthesize(pkgs).Success?
    requires var infos := Synthesize(pkgs).value.infos;
      forall i, j :: 0 <= i < j < |infos| ==> infos[i].id != infos[j].id
    ensures |Synthesize(pkgs).value.dependencies| == |pkgs|
  {
    var names := Names(pkgs, |pkgs|);
    var out := Synthesize(pkgs).value;
    assert forall j :: 0 <= j < |pkgs| ==> names[j] == out.infos[j].id;
    InsertionsSize(names, Specs(pkgs, |pkgs|));
    TableIsInsertions(pkgs, |pkgs|);
  }

  /** Sorting puts every package of one name in a single run, the newest at its head. */
  lemma FirstInGroupIsNewest(pkgs: seq<Package>, i: nat, j: nat)
    requires Sorted(pkgs) && i < |pkgs| && j < |pkgs|
    requires FirstInGroup(pkgs, i) && pkgs[j].name == pkgs[i].name
    ensures i <= j && !Semver.Less(pkgs[i].version, pkgs[j].version)
  {
    if j < i {
      assert Before(pkgs[i - 1], pkgs[i]);
      BeforeNames(pkgs[i - 1], pkgs[i]);
      if j < i - 1 {
        assert Before(pkgs[j], pkgs[i - 1]);
        if pkgs[j].name != pkgs[i - 1].name { BeforeNames(pkgs[j], pkgs[i - 1]); }
      }
    } else if j > i {
      assert Before(pkgs[i], pkgs[j]);
      Strings.LessIrreflexive(pkgs[i].name);
    } else {
      Semver.LessIrreflexive(pkgs[i].version);
    }
  }

  /** Each name starts exactly one group, so exactly one of its packages gets the bare name. */
  lemma OneFirstPerName(pkgs: seq<Package>, i: nat, j: nat)
    requires Sorted(pkgs) && i < |pkgs| && j < |pkgs|
    requires FirstInGroup(pkgs, i) && FirstInGroup(pkgs, j) && pkgs[i].name == pkgs[j].name
    ensures i == j
  {
    FirstInGroupIsNewest(pkgs, i, j);
    FirstInGroupIsNewest(pkgs, j, i);
  }

  /**
   * Within one name, packages with different release triples whose library
   * targets give the same crate name are exposed under different names.
   */
  lemma DistinctWithinGroup(pkgs: seq<Package>, i: nat, j: nat)
    requires Sorted(pkgs) && i < |pkgs| && j < |pkgs| && pkgs[i].name == pkgs[j].name
    requires LibraryCrateName(pkgs[i].targets).Some?
    requires LibraryCrateName(pkgs[i].targets) == LibraryCrateName(pkgs[j].targets)
    requires var v, w := pkgs[i].version, pkgs[j].version;
      v.major != w.major || v.minor != w.minor || v.patch != w.patch
    ensures Exposed(pkgs, i) != Exposed(pkgs, j)
  {
    var crateName := LibraryCrateName(pkgs[i].targets).value;
    BareNameOnlyForFirst(pkgs, i, crateName);
    BareNameOnlyForFirst(pkgs, j, crateName);
    if FirstInGroup(pkgs, i) && FirstInGroup(pkgs, j) {
      OneFirstPerName(pkgs, i, j);
    } else if !FirstInGroup(pkgs, i) && !FirstInGroup(pkgs, j) {
      if Suffixed(crateName, pkgs[i].version) == Suffixed(crateName, pkgs[j].version) {
        SuffixedInjective(crateName, pkgs[i].version, pkgs[j].version);
      }
    }
  }

  /** Two versions of one crate: the newer keeps the name, the older is suffixed. */
  lemma ExampleTwoVersions()
    ensures var lib := [Target(Lib, "foo")];
      var pkgs := [Package("foo", Semver.Version(1, 2, 0, []), lib, map[], None),
                   Package("foo", Semver.Version(1, 1, 0, []), lib, map[], None)];
      Synthesize(pkgs).Success? &&
      Synthesize(pkgs).value.infos[0].id == "foo" && Synthesize(pkgs).value.infos[1].id == "foo_1_1_0"
  {
    var lib := [Target(Lib, "foo")];
    var pkgs := [Package("foo", Semver.Version(1, 2, 0, []), lib, map[], None),
                 Package("foo", Semver.Version(1, 1, 0, []), lib, map[], None)];
    assert "foo"[1..] == "oo" && "oo"[1..] == "o" && "o"[1..] == [];
    assert ReplaceHyphens("foo") == "foo";
    assert LibraryCrateName(lib) == Some("foo");
    assert HasLibraries(pkgs, 2);
    assert Exposed(pkgs, 0) == "foo";
    assert Strings.NatToString(1) == "1" && Strings.NatToString(0) == "0";
    assert Exposed(pkgs, 1) == "foo_1_1_0";
  }

  /**
   * Two packages exposed under one name: the index holds two records with
   * that id and the table a single entry, the second package's.
   */
  lemma TwoUnderOneName(pkgs: seq<Package>)
    requires |pkgs| == 2 && HasLibraries(pkgs, 2) && Exposed(pkgs, 0) == Exposed(pkgs, 1)
    ensures Synthesize(pkgs).Success?
    ensures var out := Synthesize(pkgs).value;
      out.infos[0].id == out.infos[1].id == Exposed(pkgs, 0) &&
      out.dependencies == map[Exposed(pkgs, 0) := SpecOf(pkgs[1])]
  {
  }

  /** The two versions of `foo` whose library was renamed from `a` to `a_1_0_0`. */
  function RenamedLibrary(): seq<Package> {
    [Package("foo", Semver.Version(2, 0, 0, []), [Target(Lib, "a_1_0_0")], map[], None),
     Package("foo", Semver.Version(1, 0, 0, []), [Target(Lib, "a")], map[], None)]
  }

  /**
   * A library target renamed between two versions of one package can make
   * the exposed names collide: the newer version's library is called
   * `a_1_0_0` and the older one's `a`, so both are exposed as `a_1_0_0`, the
   * index holds two records with that id and the table a single entry.
   */
  lemma ExampleRenamedLibraryCollides()
    ensures Sorted(RenamedLibrary()) && Synthesize(RenamedLibrary()).Success?
    ensures var out := Synthesize(RenamedLibrary()).value;
      out.infos[0].id == "a_1_0_0" && out.infos[1].id == "a_1_0_0" && |out.dependencies| == 1
  {
    RenamedLibrarySorted();
    RenamedLibraryExposed();
    TwoUnderOneName(RenamedLibrary());
  }

  lemma RenamedLibraryExposed()
    ensures HasLibraries(RenamedLibrary(), 2)
    ensures Exposed(RenamedLibrary(), 0) == "a_1_0_0" && Exposed(RenamedLibrary(), 1) == "a_1_0_0"
  {
    RenamedLibraryCrateNames();
    RenamedSuffix();
  }

  lemma RenamedLibraryCrateNames()
    ensures LibraryCrateName(RenamedLibrary()[0].targets) == Some("a_1_0_0")
    ensures LibraryCrateName(RenamedLibrary()[1].targets) == Some("a")
  {
    NoHyphensUnchanged("a");
    NoHyphensUnchanged("a_1_0_0");
  }

  lemma RenamedLibrarySorted()
    ensures Sorted(RenamedLibrary())
  {
    var pkgs := RenamedLibrary();
    Semver.LessAsymmetric(pkgs[1].version, pkgs[0].version);
    assert Before(pkgs[0], pkgs[1]);
  }

  lemma RenamedSuffix()
    ensures Suffixed("a", Semver.Version(1, 0, 0, [])) == "a_1_0_0"
  {
    assert Strings.NatToString(1) == "1" && Strings.NatToString(0) == "0";
    assert "a" + "_" + "1" + "_" + "0" + "_" + "0" == "a_1_0_0";
  }

  /**
   * Only the release triple goes into a suffix, so two later versions of one
   * package with the same triple and the same library crate name (two
   * pre-releases of one release, say) are exposed under the same name.
   */
  lemma SameTripleSameName(pkgs: seq<Package>, i: nat, j: nat)
    requires i < |pkgs| && j < |pkgs| && !FirstInGroup(pkgs, i) && !FirstInGroup(pkgs, j)
    requires LibraryCrateName(pkgs[i].targets).Some?
    requires LibraryCrateName(pkgs[i].targets) == LibraryCrateName(pkgs[j].targets)
    requires var v, w := pkgs[i].version, pkgs[j].version;
      v.major == w.major && v.minor == w.minor && v.patch == w.patch
    ensures Exposed(pkgs, i) == Exposed(pkgs, j)
  {
  }

  /** Version 2.0.0 of `foo` and two pre-releases of 1.0.0, all with library `foo`. */
  function Prereleases(): seq<Package> {
    [Package("foo", Semver.Version(2, 0, 0, []), [Target(Lib, "foo")], map[], None),
     Package("foo", Semver.Version(1, 0, 0, [Semver.AlphaNumeric("beta")]), [Target(Lib, "foo")], map[], None),
     Package("foo", Semver.Version(1, 0, 0, [Semver.AlphaNumeric("alpha")]), [Target(Lib, "foo")], map[], None)]
  }

  /** `1.0.0-beta` and `1.0.0-alpha` of `foo` are both exposed as `foo_1_0_0`. */
  lemma ExamplePrereleasesCollide()
    ensures Sorted(Prereleases()) && HasLibraries(Prereleases(), 3)
    ensures Exposed(Prereleases(), 1) == "foo_1_0_0" && Exposed(Prereleases(), 2) == "foo_1_0_0"
  {
    PrereleasesSorted();
    NoHyphensUnchanged("foo");
    var pkgs := Prereleases();
    assert LibraryCrateName(pkgs[1].targets) == Some("foo");
    assert LibraryCrateName(pkgs[2].targets) == Some("foo");
    PrereleasesSuffix();
    SameTripleSameName(pkgs, 1, 2);
  }

  lemma PrereleasesSorted()
    ensures Sorted(Prereleases())
  {
    var pkgs := Prereleases();
    Semver.LessAsymmetric(pkgs[1].version, pkgs[0].version);
    Semver.LessAsymmetric(pkgs[2].version, pkgs[0].version);
    Strings.LessAsymmetric("alpha", "beta");
    assert Strings.Less("alpha", "beta");
    assert !Semver.Less(pkgs[1].version, pkgs[2].version);
  }

  lemma PrereleasesSuffix()
    ensures Suffixed("foo", Semver.Version(1, 0, 0, [Semver.AlphaNumeric("beta")])) == "foo_1_0_0"
  {
    assert Strings.NatToString(1) == "1" && Strings.NatToString(0) == "0";
    assert "foo" + "_" + "1" + "_" + "0" + "_" + "0" == "foo_1_0_0";
  }
}
