/**
  The ranking of src/App.tsx: the catalog array sorted in place, soonest
  countdown first, with the comparator
  (a, b) => timeUntilGenerator(a) - timeUntilGenerator(b).
  One instant now is used for every comparison.
 */
module Ranking {
  import opened Data
  import opened Urgency
  import opened Sorting

  /** The sort key: an entry's countdown at instant now. */
  function CountdownKey(now: int): Generator -> int {
    g => TimeUntilGenerator(now, g)
  }

  /** A list of generators as the page lists it at instant now. */
  function Ranked(catalog: seq<Generator>, now: int): seq<Generator> {
    InsertionSort(catalog, CountdownKey(now))
  }

  /** Sorts the generators in place by countdown: afterwards they are a
      permutation of what they were, soonest first, with entries whose
      countdowns are equal left in their previous order. */
  method RankGenerators(generators: array<Generator>, now: int)
    modifies generators
    ensures generators[..] == Ranked(old(generators[..]), now)
    ensures multiset(generators[..]) == multiset(old(generators[..]))
    ensures SortedBy(generators[..], CountdownKey(now))
    ensures forall k :: WithKey(generators[..], CountdownKey(now), k) == WithKey(old(generators[..]), CountdownKey(now), k)
  {
    SortByKey(generators, CountdownKey(now));
    InsertionSortPermutes(old(generators[..]), CountdownKey(now));
    InsertionSortSorted(old(generators[..]), CountdownKey(now));
    forall k {
      InsertionSortStable(old(generators[..]), CountdownKey(now), k);
    }
  }

  /** Ranking a list of generators reorders it (each entry kept as often as
      it occurs) so that countdowns never decrease. */
  lemma RankedCatalog(catalog: seq<Generator>, now: int)
    ensures multiset(Ranked(catalog, now)) == multiset(catalog)
    ensures |Ranked(catalog, now)| == |catalog|
    ensures forall i, j :: 0 <= i < j < |Ranked(catalog, now)| ==>
              TimeUntilGenerator(now, Ranked(catalog, now)[i]) <= TimeUntilGenerator(now, Ranked(catalog, now)[j])
  {
    var r := Ranked(catalog, now);
    InsertionSortPermutes(catalog, CountdownKey(now));
    InsertionSortSorted(catalog, CountdownKey(now));
    SameLength(r, catalog);
    forall i, j | 0 <= i < j < |r|
      ensures TimeUntilGenerator(now, r[i]) <= TimeUntilGenerator(now, r[j])
    {
      assert CountdownKey(now)(r[i]) <= CountdownKey(now)(r[j]);
    }
  }

  /** The first entry listed has the soonest countdown of the list. */
  lemma FirstIsSoonest(catalog: seq<Generator>, now: int)
    requires |catalog| > 0
    ensures |Ranked(catalog, now)| == |catalog|
    ensures forall i :: 0 <= i < |catalog| ==>
              TimeUntilGenerator(now, Ranked(catalog, now)[0]) <= TimeUntilGenerator(now, catalog[i])
  {
    RankedCatalog(catalog, now);
    var r := Ranked(catalog, now);
    forall i | 0 <= i < |catalog|
      ensures TimeUntilGenerator(now, r[0]) <= TimeUntilGenerator(now, catalog[i])
    {
      assert catalog[i] in multiset(catalog);
      assert catalog[i] in multiset(r);
      var j :| 0 <= j < |r| && r[j] == catalog[i];
      if j > 0 {
        assert TimeUntilGenerator(now, r[0]) <= TimeUntilGenerator(now, r[j]);
      }
    }
  }

  /** Names stay distinct after ranking, so each rendered card keeps a
      unique key. */
  lemma RankedNamesDistinct(now: int)
    ensures forall i, j :: 0 <= i < j < |Ranked(GENERATORS, now)| ==>
              Ranked(GENERATORS, now)[i].name != Ranked(GENERATORS, now)[j].name
  {
    RankedCatalog(GENERATORS, now);
    CatalogNamesDistinct();
    PermutationKeepsDistinct(GENERATORS, Ranked(GENERATORS, now), (g: Generator) => g.name);
  }

  lemma SameLength<T>(s: seq<T>, t: seq<T>)
    requires multiset(s) == multiset(t)
    ensures |s| == |t|
  {
    assert |multiset(s)| == |s| && |multiset(t)| == |t|;
  }

  /** Reordering keeps a projection that is injective on the elements
      injective. */
  lemma PermutationKeepsDistinct<T, K>(s: seq<T>, t: seq<T>, name: T -> K)
    requires multiset(s) == multiset(t)
    requires forall i, j :: 0 <= i < j < |s| ==> name(s[i]) != name(s[j])
    ensures forall i, j :: 0 <= i < j < |t| ==> name(t[i]) != name(t[j])
  {
    forall i, j | 0 <= i < j < |t|
      ensures name(t[i]) != name(t[j])
    {
      assert t[i] in multiset(s) && t[j] in multiset(s);
      var p :| 0 <= p < |s| && s[p] == t[i];
      var q :| 0 <= q < |s| && s[q] == t[j];
      if p == q {
        TwiceInSequence(t, i, j);
        OnceIfDistinct(s, p, name);
      } else {
        assert name(s[p]) != name(s[q]) by {
          if p > q {
            assert name(s[q]) != name(s[p]);
          }
        }
      }
    }
  }

  lemma TwiceInSequence<T>(s: seq<T>, i: int, j: int)
    requires 0 <= i < j < |s| && s[i] == s[j]
    ensures multiset(s)[s[i]] >= 2
  {
    assert s == s[..j] + [s[j]] + s[j + 1..];
    assert s[i] in multiset(s[..j]);
  }

  lemma {:induction false} OnceIfDistinct<T, K>(s: seq<T>, p: int, name: T -> K)
    requires 0 <= p < |s|
    requires forall i, j :: 0 <= i < j < |s| ==> name(s[i]) != name(s[j])
    ensures multiset(s)[s[p]] == 1
    decreases |s|
  {
    var init, last := s[..|s| - 1], s[|s| - 1];
    assert s == init + [last];
    if p == |s| - 1 {
      forall k | 0 <= k < |init|
        ensures init[k] != s[p]
      {
        assert name(s[k]) != name(s[p]);
      }
      assert s[p] !in multiset(init);
    } else {
      OnceIfDistinct(init, p, name);
      assert s[p] != last by {
        assert name(s[p]) != name(s[|s| - 1]);
      }
    }
  }
}
