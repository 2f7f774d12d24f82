/**
 * A `BTreeSet<String>` iterated in order: the elements of a set of strings as
 * a strictly ascending sequence.
 */
module SortedSets {
  import Strings

  /** The elements of a sequence, as a set (Rust's `collect::<BTreeSet<_>>()`). */
  function Elements(s: seq<string>): set<string> {
    set x | x in s
  }

  predicate StrictlyAscending(s: seq<string>) {
    forall i, j :: 0 <= i < j < |s| ==> Strings.Less(s[i], s[j])
  }

  predicate IsLeast(m: string, s: set<string>) {
    m in s && forall y :: y in s && y != m ==> Strings.Less(m, y)
  }

  lemma {:induction false} LeastExists(s: set<string>)
    requires s != {}
    ensures exists m :: IsLeast(m, s)
    decreases |s|
  {
    var x :| x in s;
    if s != {x} {
      LeastExists(s - {x});
      var m :| IsLeast(m, s - {x});
      if Strings.Less(m, x) {
        forall y | y in s && y != m ensures Strings.Less(m, y) {
          if y == x { } else { assert y in s - {x}; }
        }
        assert IsLeast(m, s);
      } else {
        Strings.LessTotal(m, x);
        forall y | y in s && y != x ensures Strings.Less(x, y) {
          if y != m { Strings.LessTransitive(x, m, y); }
        }
        assert IsLeast(x, s);
      }
    } else {
      assert IsLeast(x, s);
    }
  }

  lemma ConsAscending(m: string, rest: seq<string>)
    requires StrictlyAscending(rest)
    requires forall x :: x in rest ==> Strings.Less(m, x)
    ensures StrictlyAscending([m] + rest)
  {
  }

  /** The elements of `s` in ascending order, each once. */
  ghost function SortedSeq(s: set<string>): (r: seq<string>)
    ensures StrictlyAscending(r) && Elements(r) == s
    decreases |s|
  {
    if s == {} then []
    else
      LeastExists(s);
      var m :| IsLeast(m, s);
      var rest := SortedSeq(s - {m});
      assert forall x :: x in rest ==> x in Elements(rest);
      ConsAscending(m, rest);
      assert Elements([m] + rest) == {m} + Elements(rest);
      [m] + rest
  }

  lemma NonEmptyElements(b: seq<string>)
    ensures b != [] ==> b[0] in Elements(b)
  {
  }

  lemma TailElements(a: seq<string>)
    requires StrictlyAscending(a) && a != []
    ensures Elements(a[1..]) == Elements(a) - {a[0]}
  {
    forall k | 1 <= k < |a| ensures a[k] != a[0] {
      Strings.LessIrreflexive(a[0]);
    }
    assert a == [a[0]] + a[1..];
  }

  /** A strictly ascending sequence lists each of its elements once. */
  lemma {:induction false} AscendingCardinality(a: seq<string>)
    requires StrictlyAscending(a)
    ensures |Elements(a)| == |a|
    decreases |a|
  {
    if a != [] {
      TailElements(a);
      AscendingCardinality(a[1..]);
      assert a[0] in Elements(a);
    }
  }

  /** A strictly ascending sequence is determined by its elements. */
  lemma {:induction false} AscendingUnique(a: seq<string>, b: seq<string>)
    requires StrictlyAscending(a) && StrictlyAscending(b)
    requires Elements(a) == Elements(b)
    ensures a == b
    decreases |a|
  {
    if a != [] {
      assert a[0] in Elements(b);
      assert b != [];
      assert b[0] in Elements(a);
      if a[0] != b[0] {
        var i :| 0 <= i < |a| && a[i] == b[0];
        var j :| 0 <= j < |b| && b[j] == a[0];
        assert Strings.Less(a[0], b[0]);
        assert Strings.Less(b[0], a[0]);
        Strings.LessAsymmetric(a[0], b[0]);
      }
      TailElements(a);
      TailElements(b);
      AscendingUnique(a[1..], b[1..]);
    } else {
      NonEmptyElements(b);
    }
  }

  /** Moving the least unvisited element to the end of the visited ones keeps the iteration's invariant. */
  lemma AscendingStep(s: set<string>, r: seq<string>, rest: set<string>, m: string)
    requires Elements(r) + rest == s && Elements(r) !! rest
    requires StrictlyAscending(r)
    requires forall x, y :: x in r && y in rest ==> Strings.Less(x, y)
    requires IsLeast(m, rest)
    ensures Elements(r + [m]) + (rest - {m}) == s && Elements(r + [m]) !! (rest - {m})
    ensures StrictlyAscending(r + [m])
    ensures forall x, y :: x in r + [m] && y in rest - {m} ==> Strings.Less(x, y)
  {
  }

  /**
   * Iterates `s` in ascending order, as `BTreeSet::iter` does: each step
   * takes the least element not yet visited.
   */
  method Ascending(s: set<string>) returns (r: seq<string>)
    ensures r == SortedSeq(s)
  {
    var rest := s;
    r := [];
    while rest != {}
      invariant Elements(r) + rest == s && Elements(r) !! rest
      invariant StrictlyAscending(r)
      invariant forall x, y :: x in r && y in rest ==> Strings.Less(x, y)
      decreases |rest|
    {
      LeastExists(rest);
      var m :| IsLeast(m, rest);
      AscendingStep(s, r, rest, m);
      r := r + [m];
      rest := rest - {m};
    }
    AscendingUnique(r, SortedSeq(s));
  }
}
