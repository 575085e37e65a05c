/**
 * The destination report (`get_all_destinations_with_tour` in the first draft,
 * `get_all_destinations` in the second): every destination of every itinerary,
 * sorted and without repeats, each with the sorted names of the tours that visit it.
 */
module Destinations {
  import opened Text
  import opened Sorting
  import opened Catalog

  /** One pair `(destination, tour_list)` of the report. */
  datatype Destination = Destination(name: string, visitedBy: seq<string>)

  predicate Visits(tours: Tours, t: string, d: string)
  {
    t in tours && d in tours[t].itinerary
  }

  /** The union of all itineraries. */
  function AllDestinations(tours: Tours): set<string>
  {
    set t, d | t in tours && d in tours[t].itinerary :: d
  }

  /** The destinations a report lists. */
  function NamesOf(r: seq<Destination>): set<string>
  {
    set e | e in r :: e.name
  }

  predicate NameLt(a: Destination, b: Destination)
  {
    StrLt(a.name, b.name)
  }

  /**
   * What the report must be: destinations strictly ascending and equal to the
   * union of the itineraries; each one's tour list strictly ascending and equal
   * to the set of tours whose itinerary contains it.
   */
  ghost predicate IsDestinationIndex(tours: Tours, r: seq<Destination>)
  {
    && Sorted(NameLt, r)
    && NamesOf(r) == AllDestinations(tours)
    && forall e :: e in r ==>
         Sorted(StrLt, e.visitedBy) && forall t :: t in e.visitedBy <==> Visits(tours, t, e.name)
  }

  lemma StrLtAsymmetric()
    ensures Asymmetric(StrLt)
  {
    forall a, b | StrLt(a, b) ensures !StrLt(b, a) {
      if StrLe(b, a) {
        StrLeAntisymmetric(a, b);
      }
    }
  }

  /** `sorted` on names without repeats gives a strictly ascending list of the same names. */
  lemma SortDistinctNames(s: seq<string>)
    requires NoDup(s)
    ensures Sorted(StrLt, Sort(StrLe, s))
    ensures forall x :: x in Sort(StrLe, s) <==> x in s
  {
    var r := Sort(StrLe, s);
    StrLeIsOrder();
    SortSorted(StrLe, s);
    NoDupPermutation(s, r);
    forall x ensures x in r <==> x in s {
      assert x in r <==> x in multiset(r);
    }
  }

  /** Lists the elements of a set once each, in an unspecified (hash) order. */
  method ListOf(s: set<string>) returns (r: seq<string>)
    ensures NoDup(r)
    ensures forall x :: x in r <==> x in s
  {
    r := [];
    var left := s;
    while left != {}
      invariant left <= s
      invariant NoDup(r)
      invariant forall x :: x in r <==> x in s && x !in left
      decreases left
    {
      var x :| x in left;
      r := r + [x];
      left := left - {x};
    }
  }

  /**
   * Union the itineraries into a set, `sorted` it, and for each destination
   * collect the tours whose itinerary contains it, `sorted`.
   */
  method GetAllDestinations(tours: Tours) returns (r: seq<Destination>)
    ensures IsDestinationIndex(tours, r)
  {
    var destinations: set<string> := {};
    var pending := tours.Keys;
    while pending != {}
      invariant pending <= tours.Keys
      invariant destinations == set t, d | t in tours && t !in pending && d in tours[t].itinerary :: d
      decreases pending
    {
      var t :| t in pending;
      destinations := destinations + set d | d in tours[t].itinerary;
      pending := pending - {t};
    }

    assert destinations == AllDestinations(tours);
    var listed := ListOf(destinations);
    var names := Sort(StrLe, listed);
    SortDistinctNames(listed);

    r := [];
    var i := 0;
    while i < |names|
      invariant 0 <= i <= |names|
      invariant |r| == i
      invariant forall k :: 0 <= k < i ==> r[k].name == names[k]
      invariant forall e :: e in r ==>
        Sorted(StrLt, e.visitedBy) && forall t :: t in e.visitedBy <==> Visits(tours, t, e.name)
    {
      var d := names[i];
      var tourList: seq<string> := [];
      var rest := tours.Keys;
      while rest != {}
        invariant rest <= tours.Keys
        invariant NoDup(tourList)
        invariant forall t :: t in tourList <==> t in tours && t !in rest && d in tours[t].itinerary
        decreases rest
      {
        var t :| t in rest;
        if d in tours[t].itinerary {
          tourList := tourList + [t];
        }
        rest := rest - {t};
      }
      SortDistinctNames(tourList);
      r := r + [Destination(d, Sort(StrLe, tourList))];
      i := i + 1;
    }

    forall a, b | 0 <= a < b < |r| ensures NameLt(r[a], r[b]) {
      assert StrLt(names[a], names[b]);
    }
    forall x | x in AllDestinations(tours) ensures x in NamesOf(r) {
      var k :| 0 <= k < |names| && names[k] == x;
      assert r[k] in r;
    }
    forall x | x in NamesOf(r) ensures x in AllDestinations(tours) {
      var e :| e in r && e.name == x;
      var k :| 0 <= k < |r| && r[k] == e;
      assert names[k] in names;
    }
  }

  /** Every listed destination is visited by at least one tour. */
  lemma DestinationsHaveTours(tours: Tours, r: seq<Destination>, e: Destination)
    requires IsDestinationIndex(tours, r) && e in r
    ensures |e.visitedBy| > 0
  {
    assert e.name in AllDestinations(tours);
    var t, d :| t in tours && d in tours[t].itinerary && d == e.name;
    assert t in e.visitedBy;
  }

  /** The report is determined by the catalog. */
  lemma DestinationIndexUnique(tours: Tours, a: seq<Destination>, b: seq<Destination>)
    requires IsDestinationIndex(tours, a) && IsDestinationIndex(tours, b)
    ensures a == b
  {
    StrLtAsymmetric();
    forall e | e in a ensures e in b {
      assert e.name in NamesOf(a);
      assert e.name in NamesOf(b);
      var f :| f in b && f.name == e.name;
      StrictlySortedUnique(StrLt, e.visitedBy, f.visitedBy);
    }
    forall e | e in b ensures e in a {
      assert e.name in NamesOf(b);
      assert e.name in NamesOf(a);
      var f :| f in a && f.name == e.name;
      StrictlySortedUnique(StrLt, e.visitedBy, f.visitedBy);
    }
    assert Asymmetric(NameLt);
    StrictlySortedUnique(NameLt, a, b);
  }

  /** Tours A (visiting X and Y) and B (visiting Y) give [("X", ["A"]), ("Y", ["A", "B"])]. */
  lemma ExampleReport(r: seq<Destination>)
    requires IsDestinationIndex(map["A" := Tour(0, ["X", "Y"], map[]), "B" := Tour(0, ["Y"], map[])], r)
    ensures r == [Destination("X", ["A"]), Destination("Y", ["A", "B"])]
  {
    var tours := map["A" := Tour(0, ["X", "Y"], map[]), "B" := Tour(0, ["Y"], map[])];
    var expected := [Destination("X", ["A"]), Destination("Y", ["A", "B"])];
    assert StrLt("X", "Y") && StrLt("A", "B");
    assert AllDestinations(tours) == {"X", "Y"} by {
      assert "X" in tours["A"].itinerary && "Y" in tours["B"].itinerary;
    }
    assert NamesOf(expected) == {"X", "Y"};
    forall t ensures t in ["A"] <==> Visits(tours, t, "X") {
      assert "X" !in tours["B"].itinerary;
    }
    forall t ensures t in ["A", "B"] <==> Visits(tours, t, "Y") {
    }
    assert IsDestinationIndex(tours, expected);
    DestinationIndexUnique(tours, r, expected);
  }
}
