/** The candidate crate list: the most downloaded crates plus the curated additions. */
module Catalog {
  import opened Crates
  import SortedSets

  class TopCrates {
    var crates: seq<string>

    /** The list as downloaded from the registry's popularity ranking. */
    constructor (downloaded: seq<string>)
      ensures crates == downloaded
    {
      crates := downloaded;
    }

    /**
     * `TopCrates::add_curated_crates`: the curated additions, in the
     * ascending order of their `BTreeSet`, are appended to the list, which
     * is otherwise left as it was.
     */
    method AddCuratedCrates(mods: Modifications)
      modifies this
      ensures crates == old(crates) + SortedSets.SortedSeq(mods.additions)
      ensures crates[..|old(crates)|] == old(crates)
      ensures |crates| == |old(crates)| + |mods.additions|
      ensures SortedSets.StrictlyAscending(crates[|old(crates)|..])
      ensures SortedSets.Elements(crates[|old(crates)|..]) == mods.additions
    {
      var added := SortedSets.Ascending(mods.additions);
      SortedSets.AscendingCardinality(added);
      crates := crates + added;
      assert crates[|old(crates)|..] == added;
    }
  }

  /**
   * Appending does not merge: a popular crate that is also a curated
   * addition is listed twice.
   */
  lemma AdditionAlsoDownloadedIsListedTwice(downloaded: seq<string>, additions: set<string>, name: string)
    requires name in downloaded && name in additions
    ensures multiset(downloaded + SortedSets.SortedSeq(additions))[name] >= 2
  {
  }
}
