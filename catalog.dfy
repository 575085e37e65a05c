/**
 * The two in-memory collections of the tour office and the read-only views the
 * menu derives from them: the numbered tour-group list (`get_tour_groups`), the
 * id-keyed customer dictionary (`get_customers_dict`) and the customer lookups
 * the enrollment guards use. The destination index is in module Destinations.
 */
module Catalog {
  import opened Text
  import opened Calendar
  import opened Sorting

  /** One row `[id, first_name, family_name, birth_date, email]` of `customers`. */
  datatype Customer = Customer(id: int, firstName: string, lastName: string, birthDate: Date, email: string)

  /** `tours[name]`: `{"age_restriction", "itinerary", "groups": {date: [customer ids]}}`. */
  datatype Tour = Tour(ageRestriction: int, itinerary: seq<string>, groups: map<Date, seq<int>>)

  type Tours = map<string, Tour>

  /** One entry `((tour_name, date), (age_restriction, members))` of the tour-group list. */
  datatype TourGroup = TourGroup(name: string, date: Date, ageRestriction: int, members: seq<int>)

  function Key(g: TourGroup): (string, Date)
  {
    (g.name, g.date)
  }

  /** `g` describes the group of tour `g.name` departing on `g.date`, as stored in `tours`. */
  predicate InCatalog(tours: Tours, g: TourGroup)
  {
    g.name in tours && g.date in tours[g.name].groups
    && g.ageRestriction == tours[g.name].ageRestriction
    && g.members == tours[g.name].groups[g.date]
  }

  /** Every (tour name, departure date) pair of the catalog. */
  function GroupKeys(tours: Tours): set<(string, Date)>
  {
    set name, date | name in tours && date in tours[name].groups :: (name, date)
  }

  /** The sort keys: `key=lambda x: x[0][1]` (departure date) and `key=lambda x: x[0][0]` (tour name). */
  predicate ByDate(a: TourGroup, b: TourGroup)
  {
    DateLe(a.date, b.date)
  }

  predicate ByName(a: TourGroup, b: TourGroup)
  {
    StrLe(a.name, b.name)
  }

  /** Strict (tour name, departure date) order. */
  predicate GroupLt(a: TourGroup, b: TourGroup)
  {
    StrLt(a.name, b.name) || (a.name == b.name && DateLt(a.date, b.date))
  }

  /**
   * What `get_tour_groups` must return for `tours`: exactly one entry per
   * (tour, date) pair, carrying that tour's age restriction and that group's
   * members, strictly ascending by (name, date). Menu numbers are positions here.
   */
  ghost predicate IsTourGroupList(tours: Tours, r: seq<TourGroup>)
  {
    Sorted(GroupLt, r) && forall g :: g in r <==> InCatalog(tours, g)
  }

  predicate DistinctKeys(s: seq<TourGroup>)
  {
    forall i, j :: 0 <= i < j < |s| ==> Key(s[i]) != Key(s[j])
  }

  lemma StrLeIsOrder()
    ensures Total(StrLe) && Transitive(StrLe)
  {
    forall a, b ensures StrLe(a, b) || StrLe(b, a) {
      StrLeTotal(a, b);
    }
    forall a, b, c | StrLe(a, b) && StrLe(b, c) ensures StrLe(a, c) {
      StrLeTransitive(a, b, c);
    }
  }

  lemma KeyOrders()
    ensures Total(ByDate) && Transitive(ByDate)
    ensures Total(ByName) && Transitive(ByName)
    ensures Asymmetric(GroupLt)
  {
    StrLeIsOrder();
    forall a, b | GroupLt(a, b) ensures !GroupLt(b, a) {
      if StrLe(b.name, a.name) && StrLe(a.name, b.name) {
        StrLeAntisymmetric(a.name, b.name);
      }
    }
  }

  /** `sorted` by date, then `sorted` by name: ordered by name, ties in date order, same elements. */
  lemma DateThenNameSort(items: seq<TourGroup>)
    ensures var r := Sort(ByName, Sort(ByDate, items));
      Sorted(ByName, r) && TiesOrderedBy(ByDate, ByName, r) && multiset(r) == multiset(items)
  {
    KeyOrders();
    var byDate := Sort(ByDate, items);
    SortSorted(ByDate, items);
    SortSorted(ByName, byDate);
    SortStable(ByDate, ByName, byDate);
  }

  /** Name order with date-ordered ties and no repeated key is the strict (name, date) order. */
  lemma StrictGroupOrder(r: seq<TourGroup>)
    requires Sorted(ByName, r) && TiesOrderedBy(ByDate, ByName, r) && DistinctKeys(r)
    ensures Sorted(GroupLt, r)
  {
    forall i, j | 0 <= i < j < |r| ensures GroupLt(r[i], r[j]) {
      assert ByName(r[i], r[j]);
      if StrLe(r[j].name, r[i].name) {
        StrLeAntisymmetric(r[i].name, r[j].name);
        assert ByDate(r[i], r[j]);
        assert Key(r[i]) != Key(r[j]);
      }
    }
  }

  /**
   * Sorting the distinct-keyed entries by date and then, stably, by tour name
   * yields the strictly (name, date)-ordered list.
   */
  lemma DateThenNameSortOrdersGroups(tours: Tours, items: seq<TourGroup>)
    requires forall g :: g in items <==> InCatalog(tours, g)
    requires DistinctKeys(items)
    ensures IsTourGroupList(tours, Sort(ByName, Sort(ByDate, items)))
  {
    var r := Sort(ByName, Sort(ByDate, items));
    DateThenNameSort(items);
    forall g ensures g in r <==> g in items {
      assert g in r <==> g in multiset(r);
    }
    forall i, j | 0 <= i < j < |r| ensures Key(r[i]) != Key(r[j]) {
      NoDupCount(items, r[i]);
      RepeatCount(r, i, j);
      assert InCatalog(tours, r[i]) && InCatalog(tours, r[j]);
    }
    StrictGroupOrder(r);
  }

  /** The list is determined by the catalog: recomputing it gives the same numbering. */
  lemma TourGroupListUnique(tours: Tours, a: seq<TourGroup>, b: seq<TourGroup>)
    requires IsTourGroupList(tours, a) && IsTourGroupList(tours, b)
    ensures a == b
  {
    KeyOrders();
    StrictlySortedUnique(GroupLt, a, b);
  }

  lemma {:induction false} DistinctKeysCount(s: seq<TourGroup>)
    requires DistinctKeys(s)
    ensures |set i | 0 <= i < |s| :: Key(s[i])| == |s|
  {
    if s != [] {
      var init := s[..|s| - 1];
      DistinctKeysCount(init);
      var ks := set i | 0 <= i < |init| :: Key(init[i]);
      assert (set i | 0 <= i < |s| :: Key(s[i])) == ks + {Key(s[|s| - 1])};
      assert Key(s[|s| - 1]) !in ks;
    }
  }

  /** The list has one entry per departure: its length is the number of groups in the catalog. */
  lemma TourGroupListLength(tours: Tours, r: seq<TourGroup>)
    requires IsTourGroupList(tours, r)
    ensures |r| == |GroupKeys(tours)|
  {
    KeyOrders();
    forall i, j | 0 <= i < j < |r| ensures Key(r[i]) != Key(r[j]) {
      assert GroupLt(r[i], r[j]);
      if r[i].name == r[j].name {
        assert DateLt(r[i].date, r[j].date);
      }
    }
    DistinctKeysCount(r);
    var ks := set i | 0 <= i < |r| :: Key(r[i]);
    forall k | k in GroupKeys(tours) ensures k in ks {
      var g := TourGroup(k.0, k.1, tours[k.0].ageRestriction, tours[k.0].groups[k.1]);
      assert InCatalog(tours, g);
      var i :| 0 <= i < |r| && r[i] == g;
      assert Key(r[i]) == k;
    }
    forall k | k in ks ensures k in GroupKeys(tours) {
      var i :| 0 <= i < |r| && Key(r[i]) == k;
      assert InCatalog(tours, r[i]);
    }
    assert ks == GroupKeys(tours);
  }

  /** The intermediate dictionary of `get_tour_groups`: (tour name, date) to (age restriction, members). */
  type FlatGroups = map<(string, Date), (int, seq<int>)>

  /** The nested `for` loops of `get_tour_groups` filling the `(name, date)`-keyed dictionary. */
  method FlattenTours(tours: Tours) returns (flat: FlatGroups)
    ensures forall k :: k in flat <==> k.0 in tours && k.1 in tours[k.0].groups
    ensures forall k :: k in flat ==> flat[k] == (tours[k.0].ageRestriction, tours[k.0].groups[k.1])
  {
    flat := map[];
    var pending := tours.Keys;
    while pending != {}
      invariant pending <= tours.Keys
      invariant forall k :: k in flat <==> k.0 in tours && k.0 !in pending && k.1 in tours[k.0].groups
      invariant forall k :: k in flat ==> flat[k] == (tours[k.0].ageRestriction, tours[k.0].groups[k.1])
      decreases pending
    {
      var name :| name in pending;
      var tour := tours[name];
      var dates := tour.groups.Keys;
      while dates != {}
        invariant dates <= tour.groups.Keys
        invariant forall k :: k in flat <==>
          k.0 in tours && k.1 in tours[k.0].groups && (k.0 !in pending || (k.0 == name && k.1 !in dates))
        invariant forall k :: k in flat ==> flat[k] == (tours[k.0].ageRestriction, tours[k.0].groups[k.1])
        decreases dates
      {
        var date :| date in dates;
        flat := flat[(name, date) := (tour.ageRestriction, tour.groups[date])];
        dates := dates - {date};
      }
      pending := pending - {name};
    }
  }

  /** `tour_groups.items()`: one entry per key of the dictionary, in some order. */
  method ItemsOf(flat: FlatGroups) returns (items: seq<TourGroup>)
    ensures forall g :: g in items <==> Key(g) in flat && flat[Key(g)] == (g.ageRestriction, g.members)
    ensures DistinctKeys(items)
  {
    items := [];
    var left := flat.Keys;
    while left != {}
      invariant left <= flat.Keys
      invariant forall g :: g in items ==> (Key(g) in flat && Key(g) !in left
        && flat[Key(g)] == (g.ageRestriction, g.members))
      invariant forall k :: k in flat && k !in left ==> TourGroup(k.0, k.1, flat[k].0, flat[k].1) in items
      invariant DistinctKeys(items)
      decreases left
    {
      var k :| k in left;
      items := items + [TourGroup(k.0, k.1, flat[k].0, flat[k].1)];
      left := left - {k};
    }
  }

  /**
   * `get_tour_groups()`: flatten the catalog into one entry per (tour, date),
   * then sort stably by date and then by tour name.
   */
  method GetTourGroups(tours: Tours) returns (r: seq<TourGroup>)
    ensures IsTourGroupList(tours, r)
  {
    var flat := FlattenTours(tours);
    var items := ItemsOf(flat);
    forall g ensures g in items <==> InCatalog(tours, g) {
      if InCatalog(tours, g) {
        assert Key(g) in flat;
      }
    }
    r := Sort(ByName, Sort(ByDate, items));
    DateThenNameSortOrdersGroups(tours, items);
  }

  /** `[c[0] for c in customers]`. */
  function CustomerIds(cs: seq<Customer>): (ids: seq<int>)
    ensures |ids| == |cs| && forall i :: 0 <= i < |cs| ==> ids[i] == cs[i].id
  {
    seq(|cs|, i requires 0 <= i < |cs| => cs[i].id)
  }

  /** `is_customer_id_existed(id)`: some record carries `id` as its first field. */
  function IsCustomerIdExisted(cs: seq<Customer>, id: int): (b: bool)
    ensures b <==> exists i :: 0 <= i < |cs| && cs[i].id == id
  {
    id in CustomerIds(cs)
  }

  /** `[c[3] for c in customers if c[0] == customer_id]`: the birth dates recorded under `id`, in list order. */
  function BirthDatesOf(cs: seq<Customer>, id: int): (r: seq<Date>)
    ensures |r| <= |cs|
    ensures |r| > 0 <==> IsCustomerIdExisted(cs, id)
    ensures |r| > 0 ==> exists k :: (0 <= k < |cs| && cs[k].id == id && r[0] == cs[k].birthDate
      && forall j :: 0 <= j < k ==> cs[j].id != id)
  {
    if cs == [] then []
    else
      var rest := BirthDatesOf(cs[1..], id);
      assert forall j :: 0 <= j < |cs| - 1 ==> cs[1..][j] == cs[j + 1];
      if cs[0].id == id then [cs[0].birthDate] + rest else rest
  }

  /** Index of the last record carrying `id`, or -1 when there is none. */
  function LastIndexOf(cs: seq<Customer>, id: int): (k: int)
    ensures -1 <= k < |cs|
    ensures k >= 0 ==> cs[k].id == id
    ensures forall j :: k < j < |cs| ==> cs[j].id != id
  {
    if cs == [] then -1
    else if cs[|cs| - 1].id == id then |cs| - 1
    else LastIndexOf(cs[..|cs| - 1], id)
  }

  /**
   * `get_customers_dict(customers)`: `{c[0]: c for c in customers}`. Later records
   * overwrite earlier ones, so each id maps to the LAST record carrying it.
   */
  function CustomersById(cs: seq<Customer>): (m: map<int, Customer>)
    ensures forall id :: id in m <==> IsCustomerIdExisted(cs, id)
    ensures forall id :: id in m ==> LastIndexOf(cs, id) >= 0 && m[id] == cs[LastIndexOf(cs, id)]
  {
    if cs == [] then map[]
    else
      var init := cs[..|cs| - 1];
      var c := cs[|cs| - 1];
      assert forall j :: 0 <= j < |init| ==> init[j] == cs[j];
      CustomersById(init)[c.id := c]
  }

  /** With distinct ids the dictionary holds every record under its own id. */
  lemma CustomersByIdDistinct(cs: seq<Customer>, k: int)
    requires forall i, j :: 0 <= i < j < |cs| ==> cs[i].id != cs[j].id
    requires 0 <= k < |cs|
    ensures cs[k].id in CustomersById(cs) && CustomersById(cs)[cs[k].id] == cs[k]
  {
    assert IsCustomerIdExisted(cs, cs[k].id);
    assert LastIndexOf(cs, cs[k].id) == k;
  }
}
