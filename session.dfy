/**
 * The program's two module-level collections, `customers` and `tours`, as the
 * fields of one object, and the operations that change them: the enrollment
 * commit `_add_customer_to_tourgroup`, the append `_add_new_customer`, and the
 * two interactive workflows built on them.
 */
module Session {
  import opened Basics
  import opened Text
  import opened Calendar
  import opened Sorting
  import opened Catalog
  import opened Enrollment
  import opened Registration

  /** Every id listed in a group is a customer's, and no group lists an id twice. */
  predicate GroupOk(cs: seq<Customer>, members: seq<int>)
  {
    (forall i :: 0 <= i < |members| ==> IsCustomerIdExisted(cs, members[i]))
    && forall i, j :: 0 <= i < j < |members| ==> members[i] != members[j]
  }

  /** The catalog refers only to known customers and lists nobody twice in a group. */
  ghost predicate WellFormed(cs: seq<Customer>, tours: Tours)
  {
    forall name, date :: name in tours && date in tours[name].groups ==> GroupOk(cs, tours[name].groups[date])
  }

  /**
   * The catalog after `_add_customer_to_tourgroup` for entry `g` of the
   * tour-group list: `tours[g.name]["groups"][g.date]` becomes `g.members + [customerId]`.
   */
  function Enroll(tours: Tours, g: TourGroup, customerId: int): Tours
    requires g.name in tours
  {
    var tour := tours[g.name];
    tours[g.name := tour.(groups := tour.groups[g.date := g.members + [customerId]])]
  }

  /**
   * Enrolling changes exactly one member list, that of `g`'s tour and date, to
   * `g.members + [customerId]`; every other group, every other tour and every
   * age restriction and itinerary stay as they were.
   */
  lemma EnrollChangesOneGroup(tours: Tours, g: TourGroup, customerId: int)
    requires g.name in tours
    ensures var t := Enroll(tours, g, customerId);
      && t.Keys == tours.Keys
      && (forall name :: name in tours ==>
            && t[name].ageRestriction == tours[name].ageRestriction
            && t[name].itinerary == tours[name].itinerary
            && t[name].groups.Keys == tours[name].groups.Keys + (if name == g.name then {g.date} else {}))
      && (forall name, date :: name in t && date in t[name].groups ==>
            t[name].groups[date]
              == (if (name, date) == Key(g) then g.members + [customerId] else tours[name].groups[date]))
  {
  }

  /** Replacing an entry by one with the same key keeps the list in (name, date) order. */
  lemma SameKeyKeepsOrder(groups: seq<TourGroup>, i: int, h: TourGroup)
    requires Sorted(GroupLt, groups) && 0 <= i < |groups| && Key(h) == Key(groups[i])
    ensures Sorted(GroupLt, groups[i := h])
  {
    var after := groups[i := h];
    forall a, b | 0 <= a < b < |after| ensures GroupLt(after[a], after[b]) {
      assert Key(after[a]) == Key(groups[a]) && Key(after[b]) == Key(groups[b]);
      assert GroupLt(groups[a], groups[b]);
    }
  }

  /** Every group of the new catalog is an entry of the list with entry n's members extended. */
  lemma EnrolledGroupsListed(tours: Tours, groups: seq<TourGroup>, n: int, customerId: int)
    requires IsTourGroupList(tours, groups) && 1 <= n <= |groups| && groups[n - 1].name in tours
    ensures var g := groups[n - 1];
      forall h :: InCatalog(Enroll(tours, g, customerId), h) ==>
        h in groups[n - 1 := g.(members := g.members + [customerId])]
  {
    var g := groups[n - 1];
    assert InCatalog(tours, g);
    var t := Enroll(tours, g, customerId);
    EnrollChangesOneGroup(tours, g, customerId);
    var g' := g.(members := g.members + [customerId]);
    var after := groups[n - 1 := g'];
    forall h | InCatalog(t, h) ensures h in after {
      if Key(h) == Key(g) {
        assert h.name == g.name && h.date == g.date;
        assert h.ageRestriction == g.ageRestriction && h.members == g'.members;
        assert after[n - 1] == h;
      } else {
        assert h.date in tours[h.name].groups;
        assert InCatalog(tours, h);
        var i :| 0 <= i < |groups| && groups[i] == h;
        assert after[i] == h;
      }
    }
  }

  /** Every entry of the list with entry n's members extended is a group of the new catalog. */
  lemma ListedGroupsEnrolled(tours: Tours, groups: seq<TourGroup>, n: int, customerId: int)
    requires IsTourGroupList(tours, groups) && 1 <= n <= |groups| && groups[n - 1].name in tours
    ensures var g := groups[n - 1];
      forall h :: h in groups[n - 1 := g.(members := g.members + [customerId])] ==>
        InCatalog(Enroll(tours, g, customerId), h)
  {
    var g := groups[n - 1];
    assert InCatalog(tours, g);
    EnrollChangesOneGroup(tours, g, customerId);
    var after := groups[n - 1 := g.(members := g.members + [customerId])];
    forall h | h in after ensures InCatalog(Enroll(tours, g, customerId), h) {
      var i :| 0 <= i < |after| && after[i] == h;
      if i != n - 1 {
        assert InCatalog(tours, groups[i]);
        assert Key(groups[i]) != Key(g) by {
          if i < n - 1 {
            assert GroupLt(groups[i], g);
          } else {
            assert GroupLt(g, groups[i]);
          }
        }
      }
    }
  }

  /**
   * After enrolling into entry n of the list shown, the list recomputed from the
   * new catalog is the old one with only entry n's members extended: the menu
   * numbering does not move.
   */
  lemma EnrollKeepsNumbering(tours: Tours, groups: seq<TourGroup>, n: int, customerId: int)
    requires IsTourGroupList(tours, groups) && 1 <= n <= |groups|
    ensures groups[n - 1].name in tours
    ensures var g := groups[n - 1];
      IsTourGroupList(Enroll(tours, g, customerId), groups[n - 1 := g.(members := g.members + [customerId])])
  {
    var g := groups[n - 1];
    assert InCatalog(tours, g);
    SameKeyKeepsOrder(groups, n - 1, g.(members := g.members + [customerId]));
    EnrolledGroupsListed(tours, groups, n, customerId);
    ListedGroupsEnrolled(tours, groups, n, customerId);
  }

  /** An enrollment the guards allow keeps the catalog well formed. */
  lemma EnrollPreservesWellFormed(cs: seq<Customer>, tours: Tours, groups: seq<TourGroup>, n: int,
                                  customerId: int, today: Date)
    requires WellFormed(cs, tours) && IsTourGroupList(tours, groups)
    requires IsCustomerIdExisted(cs, customerId)
    requires CheckGroupChoice(cs, customerId, n, groups, today) == Eligible
    ensures groups[n - 1].name in tours
    ensures WellFormed(cs, Enroll(tours, groups[n - 1], customerId))
  {
    var g := groups[n - 1];
    assert InCatalog(tours, g);
    var t := Enroll(tours, g, customerId);
    EnrollChangesOneGroup(tours, g, customerId);
    forall name, date | name in t && date in t[name].groups ensures GroupOk(cs, t[name].groups[date]) {
      if (name, date) == Key(g) {
        var m := g.members + [customerId];
        assert GroupOk(cs, g.members);
        forall i | 0 <= i < |m| ensures IsCustomerIdExisted(cs, m[i]) {
          if i < |g.members| {
            assert m[i] == g.members[i];
          }
        }
        forall i, j | 0 <= i < j < |m| ensures m[i] != m[j] {
          if j == |g.members| {
            assert m[i] == g.members[i];
          } else {
            assert m[i] == g.members[i] && m[j] == g.members[j];
          }
        }
      }
    }
  }

  /** Appending a customer keeps the catalog well formed. */
  lemma AppendPreservesWellFormed(cs: seq<Customer>, c: Customer, tours: Tours)
    requires WellFormed(cs, tours)
    ensures WellFormed(cs + [c], tours)
  {
    forall name, date | name in tours && date in tours[name].groups
      ensures GroupOk(cs + [c], tours[name].groups[date])
    {
      var m := tours[name].groups[date];
      assert GroupOk(cs, m);
      forall i | 0 <= i < |m| ensures IsCustomerIdExisted(cs + [c], m[i]) {
        var k :| 0 <= k < |cs| && cs[k].id == m[i];
        assert (cs + [c])[k] == cs[k];
      }
    }
  }

  /** Registration never touches a group, so it keeps the catalog well formed. */
  lemma {:induction false} AppendEntriesPreservesWellFormed(cs: seq<Customer>, es: seq<Entry>,
                                                            uniqueId: seq<Customer> -> int, tours: Tours)
    requires WellFormed(cs, tours)
    ensures WellFormed(AppendEntries(cs, es, uniqueId), tours)
    decreases |es|
  {
    if es != [] {
      var c := Customer(uniqueId(cs), es[0].first, es[0].last, es[0].birth, es[0].email);
      AppendPreservesWellFormed(cs, c, tours);
      AppendEntriesPreservesWellFormed(cs + [c], es[1..], uniqueId, tours);
    }
  }

  /** The tour office's data: the `customers` list and the `tours` dictionary. */
  class Office {
    var customers: seq<Customer>
    var tours: Tours

    constructor(customers0: seq<Customer>, tours0: Tours)
      ensures customers == customers0 && tours == tours0
    {
      customers := customers0;
      tours := tours0;
    }

    /**
     * `_add_customer_to_tourgroup(customer_id, tour_group_no, tour_groups)`:
     * store entry n's members followed by the customer under that entry's tour
     * and date (a `KeyError` when the tour is gone, which the caller rules out).
     */
    method AddCustomerToGroup(customerId: int, n: int, groups: seq<TourGroup>)
      requires 1 <= n <= |groups| && groups[n - 1].name in tours
      modifies this
      ensures tours == Enroll(old(tours), groups[n - 1], customerId)
      ensures customers == old(customers)
    {
      var g := groups[n - 1];
      var tour := tours[g.name];
      var updated := tour.groups[g.date := g.members + [customerId]];
      tours := tours[g.name := tour.(groups := updated)];
    }

    /** `_add_new_customer(new_customer)`: `customers.append([unique_id(), *new_customer])`, the id given. */
    method AddNewCustomer(id: int, first: string, last: string, birth: Date, email: string)
      modifies this
      ensures customers == old(customers) + [Customer(id, first, last, birth, email)]
      ensures tours == old(tours)
    {
      customers := customers + [Customer(id, first, last, birth, email)];
    }

    /**
     * The commit after the selection loop broke: the guards passed for entry n
     * of the list just computed from the catalog.
     */
    method CommitEnrollment(customerId: int, n: int, groups: seq<TourGroup>, ghost today: Date)
      requires IsTourGroupList(tours, groups) && IsCustomerIdExisted(customers, customerId)
      requires CheckGroupChoice(customers, customerId, n, groups, today) == Eligible
      modifies this
      ensures 1 <= n <= |groups| && groups[n - 1].name in old(tours)
      ensures tours == Enroll(old(tours), groups[n - 1], customerId)
      ensures customers == old(customers)
      ensures old(WellFormed(customers, tours)) ==> WellFormed(customers, tours)
    {
      assert InCatalog(tours, groups[n - 1]);
      if WellFormed(customers, tours) {
        EnrollPreservesWellFormed(customers, tours, groups, n, customerId, today);
      }
      AddCustomerToGroup(customerId, n, groups);
    }

    /**
     * The second half of `add_customer_to_tourgroup()`, once customer
     * `customerId` is chosen and line `start` is next: compute and show the
     * tour-group list, run the selection loop, commit if it broke.
     */
    method ChooseGroup(customerId: int, lines: seq<string>, start: nat, parseInt: string -> Option<int>, today: Date)
      returns (q: Pick, shown: seq<TourGroup>)
      requires IsCustomerIdExisted(customers, customerId) && start <= |lines|
      modifies this
      ensures customers == old(customers)
      ensures IsTourGroupList(old(tours), shown)
      ensures q == PickGroupFrom(customers, customerId, shown, today, lines, start, parseInt)
      ensures q.Picked? ==> (1 <= q.value <= |shown| && shown[q.value - 1].name in old(tours)
        && tours == Enroll(old(tours), shown[q.value - 1], customerId))
      ensures !q.Picked? ==> tours == old(tours)
      ensures old(WellFormed(customers, tours)) ==> WellFormed(customers, tours)
    {
      var catalog := tours;
      shown := GetTourGroups(catalog);
      q := ReadGroupNumber(customers, customerId, shown, today, lines, start, parseInt);
      if q.Picked? {
        CommitEnrollment(customerId, q.value, shown, today);
      }
      assert IsTourGroupList(catalog, shown);
    }

    /**
     * `add_customer_to_tourgroup()` reading the typed lines `lines`: choose a
     * customer, show the tour-group list, choose a group, commit. Returns how it
     * ended and the list it showed (empty when no customer was chosen). The
     * catalog changes only on enrollment, and only by `Enroll`.
     */
    method AddCustomerToTourGroup(lines: seq<string>, parseInt: string -> Option<int>, today: Date)
      returns (outcome: Enrollment, shown: seq<TourGroup>)
      modifies this
      ensures customers == old(customers)
      ensures outcome == Decide(customers, shown, today, lines, parseInt)
      ensures PickCustomerFrom(customers, lines, 0, parseInt).Picked? ==> IsTourGroupList(old(tours), shown)
      ensures outcome.Enrolled? ==> (1 <= outcome.groupNo <= |shown| && shown[outcome.groupNo - 1].name in old(tours)
        && tours == Enroll(old(tours), shown[outcome.groupNo - 1], outcome.customerId))
      ensures !outcome.Enrolled? ==> tours == old(tours)
      ensures old(WellFormed(customers, tours)) ==> WellFormed(customers, tours)
    {
      shown := [];
      outcome := NoMoreInput;
      var p := ReadCustomerId(customers, lines, parseInt);
      if p == Cancelled {
        outcome := Aborted;
      } else if p.Picked? {
        var q;
        q, shown := ChooseGroup(p.value, lines, p.next, parseInt, today);
        if q == Cancelled {
          outcome := Aborted;
        } else if q.Picked? {
          outcome := Enrolled(p.value, q.value);
        }
      }
    }

    /**
     * `add_new_customer()` reading the typed lines `lines`: rounds of four
     * prompts, each completed round appending one record under the id
     * `uniqueId` gives for the list as it stands, until ':q' or the end of input.
     */
    method AddNewCustomers(draft: Draft, lines: seq<string>, today: Date, parse: string -> Option<Date>,
                           uniqueId: seq<Customer> -> int)
      requires ValidDate(today) && ParsesDates(parse)
      modifies this
      ensures customers == RegisterFrom(draft, old(customers), lines, today, parse, uniqueId)
      ensures tours == old(tours)
      ensures old(WellFormed(customers, tours)) ==> WellFormed(customers, tours)
    {
      var classify := LineClassifier(draft, today, parse);
      LineClassifierSound(draft, today, parse);
      var k := 0;
      while true
        invariant k <= |lines|
        invariant AppendEntries(customers, EntriesFrom(classify, lines, k, today), uniqueId)
               == RegisterFrom(draft, old(customers), lines, today, parse, uniqueId)
        invariant tours == old(tours)
        invariant old(WellFormed(customers, tours)) ==> WellFormed(customers, tours)
        decreases |lines| - k
      {
        var e := GetEntry(classify, lines, k, today);
        if e.None? {
          return;
        }
        var entry := e.value;
        var rest := EntriesFrom(classify, lines, entry.next, today);
        assert EntriesFrom(classify, lines, k, today) == [entry] + rest;
        assert ([entry] + rest)[1..] == rest;
        var id := uniqueId(customers);
        if WellFormed(customers, tours) {
          AppendPreservesWellFormed(customers, Customer(id, entry.first, entry.last, entry.birth, entry.email), tours);
        }
        AddNewCustomer(id, entry.first, entry.last, entry.birth, entry.email);
        k := entry.next;
      }
    }
  }
}
