/**
 * Choosing one root requirement per candidate crate: skip blacklisted names,
 * query the registry, keep the newest version that is not a pre-release.
 * Also the filter that drops blacklisted packages from the resolved set.
 */
module VersionSelection {
  import opened Wrappers
  import opened Crates
  import Semver

  /**
   * `filter(!is_prerelease).max_by_key(version)`: a left fold that keeps the
   * later of two equal maxima, as `Iterator::max_by_key` does.
   */
  function NewestStable(matches: seq<Summary>): (r: Option<Summary>)
    ensures r.Some? <==> exists i :: 0 <= i < |matches| && !Semver.IsPrerelease(matches[i].version)
    ensures r.Some? ==> r.value in matches && !Semver.IsPrerelease(r.value.version)
    ensures r.Some? ==> forall i :: 0 <= i < |matches| && !Semver.IsPrerelease(matches[i].version) ==>
      !Semver.Less(r.value.version, matches[i].version)
    decreases |matches|
  {
    if matches == [] then None
    else
      var last := matches[|matches| - 1];
      var best := NewestStable(matches[..|matches| - 1]);
      assert forall i :: 0 <= i < |matches| - 1 ==> matches[..|matches| - 1][i] == matches[i];
      if Semver.IsPrerelease(last.version) then best
      else if best.None? then
        Semver.LessIrreflexive(last.version);
        Some(last)
      else if Semver.Less(last.version, best.value.version) then
        best
      else
        assert forall i :: 0 <= i < |matches| - 1 && !Semver.IsPrerelease(matches[i].version) ==>
          !Semver.Less(last.version, matches[i].version) by {
          forall i | 0 <= i < |matches| - 1 && !Semver.IsPrerelease(matches[i].version)
            ensures !Semver.Less(last.version, matches[i].version)
          {
            Semver.AtLeastTransitive(last.version, best.value.version, matches[i].version);
          }
        }
        Semver.LessIrreflexive(last.version);
        Some(last)
  }

  /** The names that reach version selection: those not blacklisted, in list order. */
  function Candidates(crates: seq<string>, mods: Modifications): (r: seq<string>)
    ensures forall n :: n in r <==> n in crates && !Blacklisted(mods, n)
    decreases |crates|
  {
    if crates == [] then []
    else
      var k := |crates| - 1;
      var prefix := Candidates(crates[..k], mods);
      assert crates == crates[..k] + [crates[k]];
      if Blacklisted(mods, crates[k]) then prefix else prefix + [crates[k]]
  }

  /** A candidate the registry can answer and that has a release version. */
  predicate Viable(query: string -> Option<seq<Summary>>, name: string) {
    query(name).Some? && NewestStable(query(name).value).Some?
  }

  /** The root summaries of a run, or the error for the first candidate that has none. */
  function Roots(crates: seq<string>, mods: Modifications, query: string -> Option<seq<Summary>>): Result<seq<Summary>, Error>
    decreases |crates|
  {
    if crates == [] then Success([])
    else
      var k := |crates| - 1;
      match Roots(crates[..k], mods, query)
      case Failure(e) => Failure(e)
      case Success(roots) =>
        var name := crates[k];
        if Blacklisted(mods, name) then Success(roots)
        else match query(name)
          case None => Failure(QueryFailed(name))
          case Some(matches) =>
            match NewestStable(matches)
            case None => Failure(NoViableVersion(name))
            case Some(summary) => Success(roots + [summary])
  }

  lemma {:induction false} RootsFailurePersists(crates: seq<string>, mods: Modifications, query: string -> Option<seq<Summary>>, i: nat)
    requires i <= |crates| && Roots(crates[..i], mods, query).Failure?
    ensures Roots(crates, mods, query) == Roots(crates[..i], mods, query)
    decreases |crates| - i
  {
    if i < |crates| {
      assert crates[..i + 1][..i] == crates[..i];
      RootsFailurePersists(crates, mods, query, i + 1);
    } else {
      assert crates[..i] == crates;
    }
  }

  /**
   * The loop of the generator's main routine that builds the root
   * requirements; a failure for one candidate aborts the whole run.
   */
  method SelectRoots(crates: seq<string>, mods: Modifications, query: string -> Option<seq<Summary>>)
    returns (r: Result<seq<Summary>, Error>)
    ensures r == Roots(crates, mods, query)
  {
    var summaries: seq<Summary> := [];
    var i := 0;
    while i < |crates|
      invariant 0 <= i <= |crates|
      invariant Roots(crates[..i], mods, query) == Success(summaries)
    {
      var name := crates[i];
      assert crates[..i + 1][..i] == crates[..i];
      if Blacklisted(mods, name) {
        i := i + 1;
        continue;
      }
      var matches := query(name);
      if matches.None? {
        RootsFailurePersists(crates, mods, query, i + 1);
        return Failure(QueryFailed(name));
      }
      var summary := NewestStable(matches.value);
      if summary.None? {
        RootsFailurePersists(crates, mods, query, i + 1);
        return Failure(NoViableVersion(name));
      }
      summaries := summaries + [summary.value];
      i := i + 1;
    }
    assert crates[..i] == crates;
    r := Success(summaries);
  }

  /** The candidates of a list with one more name: that name is appended unless it is blacklisted. */
  lemma CandidatesSnoc(crates: seq<string>, mods: Modifications)
    requires crates != []
    ensures var k := |crates| - 1; var pc := Candidates(crates[..k], mods);
      Candidates(crates, mods) == if Blacklisted(mods, crates[k]) then pc else pc + [crates[k]]
  {
  }

  /** Selection succeeds exactly when every candidate is viable. */
  lemma {:induction false} RootsSucceedIff(crates: seq<string>, mods: Modifications, query: string -> Option<seq<Summary>>)
    ensures var cands := Candidates(crates, mods);
      Roots(crates, mods, query).Success? <==> forall i :: 0 <= i < |cands| ==> Viable(query, cands[i])
    decreases |crates|
  {
    if crates != [] {
      var k := |crates| - 1;
      RootsSucceedIff(crates[..k], mods, query);
      CandidatesSnoc(crates, mods);
      var pc, cands := Candidates(crates[..k], mods), Candidates(crates, mods);
      assert forall i :: 0 <= i < |pc| ==> cands[i] == pc[i];
      if Roots(crates[..k], mods, query).Failure? {
        var i :| 0 <= i < |pc| && !Viable(query, pc[i]);
        assert !Viable(query, cands[i]);
      } else if !Blacklisted(mods, crates[k]) {
        assert cands[|pc|] == crates[k];
      }
    }
  }

  /**
   * A successful selection yields one root per candidate, in order, each the
   * newest release the registry has for that candidate.
   */
  lemma {:induction false} RootsValues(crates: seq<string>, mods: Modifications, query: string -> Option<seq<Summary>>)
    requires Roots(crates, mods, query).Success?
    ensures var cands := Candidates(crates, mods); var roots := Roots(crates, mods, query).value;
      |roots| == |cands| &&
      forall i :: 0 <= i < |cands| ==> Viable(query, cands[i]) && roots[i] == NewestStable(query(cands[i]).value).value
    decreases |crates|
  {
    RootsSucceedIff(crates, mods, query);
    if crates != [] {
      var k := |crates| - 1;
      RootsValues(crates[..k], mods, query);
      CandidatesSnoc(crates, mods);
    }
  }

  /** The error selection reports for a candidate that is not viable. */
  function FailureFor(query: string -> Option<seq<Summary>>, name: string): Error {
    if query(name).None? then QueryFailed(name) else NoViableVersion(name)
  }

  /** `cands[i]` is the first candidate that is not viable. */
  predicate FirstNotViable(query: string -> Option<seq<Summary>>, cands: seq<string>, i: nat) {
    i < |cands| && !Viable(query, cands[i]) && forall j :: 0 <= j < i ==> Viable(query, cands[j])
  }

  /**
   * A failed selection names the first candidate that is not viable: it is
   * a query failure when the registry does not know the name, and otherwise
   * the lack of a release version.
   */
  lemma {:induction false} RootsFirstFailure(crates: seq<string>, mods: Modifications, query: string -> Option<seq<Summary>>)
    requires Roots(crates, mods, query).Failure?
    ensures exists i: nat :: (FirstNotViable(query, Candidates(crates, mods), i) &&
      Roots(crates, mods, query).error == FailureFor(query, Candidates(crates, mods)[i]))
    decreases |crates|
  {
    assert crates != [];
    var k := |crates| - 1;
    CandidatesSnoc(crates, mods);
    var pc, cands := Candidates(crates[..k], mods), Candidates(crates, mods);
    assert forall i :: 0 <= i < |pc| ==> cands[i] == pc[i];
    if Roots(crates[..k], mods, query).Failure? {
      RootsFirstFailure(crates[..k], mods, query);
      var i: nat :| FirstNotViable(query, pc, i) && Roots(crates[..k], mods, query).error == FailureFor(query, pc[i]);
      assert FirstNotViable(query, cands, i);
    } else {
      var name := crates[k];
      assert !Blacklisted(mods, name);
      assert cands == pc + [name];
      RootsSucceedIff(crates[..k], mods, query);
      assert !Viable(query, name);
      assert Roots(crates, mods, query).error == FailureFor(query, name);
      assert FirstNotViable(query, cands, |pc|);
    }
  }

  /**
   * No blacklisted name reaches version selection: what the registry says
   * about blacklisted names cannot change the roots.
   */
  lemma {:induction false} RootsIgnoreBlacklisted(crates: seq<string>, mods: Modifications,
                                                  q1: string -> Option<seq<Summary>>, q2: string -> Option<seq<Summary>>)
    requires forall i :: 0 <= i < |crates| && !Blacklisted(mods, crates[i]) ==> q1(crates[i]) == q2(crates[i])
    ensures Roots(crates, mods, q1) == Roots(crates, mods, q2)
    decreases |crates|
  {
    if crates != [] {
      var k := |crates| - 1;
      RootsIgnoreBlacklisted(crates[..k], mods, q1, q2);
    }
  }

  /** The resolved package ids whose names are not blacklisted, in resolver order. */
  function WithoutBlacklisted(ids: seq<PackageId>, mods: Modifications): (r: seq<PackageId>)
    ensures forall id :: id in r <==> id in ids && !Blacklisted(mods, id.name)
    ensures |r| <= |ids|
    decreases |ids|
  {
    if ids == [] then []
    else
      var rest := WithoutBlacklisted(ids[1..], mods);
      assert ids == [ids[0]] + ids[1..];
      if Blacklisted(mods, ids[0].name) then rest else [ids[0]] + rest
  }
}
