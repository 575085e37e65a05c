/**
 * The enrollment workflow's decisions (`add_customer_to_tourgroup`): the three
 * guards on a chosen tour-group number, checked in a fixed order, and the two
 * `while True` prompts, each modelled as the scan of a sequence of input lines
 * (a specification function) and a loop proved to follow it.
 */
module Enrollment {
  import opened Basics
  import opened Text
  import opened Calendar
  import opened Catalog

  /** `is_tour_group_existed(tour_group_no, tour_groups)`: a 1-based position in the list. */
  predicate IsTourGroupExisted(n: int, groups: seq<TourGroup>)
  {
    0 < n <= |groups|
  }

  /** `is_customer_already_in_tour_group(...)`: the id is among the chosen group's members. */
  predicate IsCustomerAlreadyInTourGroup(customerId: int, n: int, groups: seq<TourGroup>)
    requires IsTourGroupExisted(n, groups)
  {
    customerId in groups[n - 1].members
  }

  /** The birth date `is_customer_age_valid` uses: that of the first record carrying the id. */
  function BirthDateOf(cs: seq<Customer>, customerId: int): (b: Date)
    requires IsCustomerIdExisted(cs, customerId)
    ensures exists k :: (0 <= k < |cs| && cs[k].id == customerId && b == cs[k].birthDate
      && forall j :: 0 <= j < k ==> cs[j].id != customerId)
  {
    BirthDatesOf(cs, customerId)[0]
  }

  /** `is_customer_age_valid(...)`: the customer's age today reaches the group's restriction. */
  predicate IsCustomerAgeValid(cs: seq<Customer>, customerId: int, n: int, groups: seq<TourGroup>, today: Date)
    requires IsCustomerIdExisted(cs, customerId) && IsTourGroupExisted(n, groups)
  {
    CustomerAge(BirthDateOf(cs, customerId), today) >= groups[n - 1].ageRestriction
  }

  /** The message the selection loop prints for a number, or that it accepts it. */
  datatype Verdict = OutOfRange | AlreadyInGroup | TooYoung | Eligible

  /**
   * The `if/elif/elif/else` of the selection loop: range first, then membership,
   * then age; the first failing guard names the verdict.
   */
  function CheckGroupChoice(cs: seq<Customer>, customerId: int, n: int, groups: seq<TourGroup>, today: Date): (v: Verdict)
    requires IsCustomerIdExisted(cs, customerId)
    ensures v == OutOfRange <==> !(1 <= n <= |groups|)
    ensures v == AlreadyInGroup <==> 1 <= n <= |groups| && customerId in groups[n - 1].members
    ensures v == TooYoung <==> (1 <= n <= |groups| && customerId !in groups[n - 1].members
      && CustomerAge(BirthDateOf(cs, customerId), today) < groups[n - 1].ageRestriction)
    ensures v == Eligible <==> (1 <= n <= |groups| && customerId !in groups[n - 1].members
      && CustomerAge(BirthDateOf(cs, customerId), today) >= groups[n - 1].ageRestriction)
  {
    if !IsTourGroupExisted(n, groups) then OutOfRange
    else if IsCustomerAlreadyInTourGroup(customerId, n, groups) then AlreadyInGroup
    else if !IsCustomerAgeValid(cs, customerId, n, groups, today) then TooYoung
    else Eligible
  }

  /** One line typed at a numeric prompt. */
  datatype Reply = Cancel | NotAnInteger | Number(n: int)

  /**
   * `line.lower() == 'c'` cancels; otherwise `int(line)` is attempted and its
   * `ValueError` re-prompts. `parseInt` stands for Python's `int` on text.
   */
  function ReadReply(line: string, parseInt: string -> Option<int>): (r: Reply)
    ensures r == Cancel <==> IsCancelToken(line)
    ensures r == NotAnInteger <==> !IsCancelToken(line) && parseInt(line).None?
    ensures r.Number? ==> !IsCancelToken(line) && parseInt(line) == Some(r.n)
  {
    if IsCancelToken(line) then Cancel
    else match parseInt(line)
      case None => NotAnInteger
      case Some(n) => Number(n)
  }

  /** How a prompt loop ended: with a value and the index of the next unread line, by 'c', or out of input. */
  datatype Pick = Picked(value: int, next: nat) | Cancelled | InputEnded

  /** A reply the customer-id prompt answers by asking again. */
  predicate CustomerRetry(cs: seq<Customer>, r: Reply)
  {
    r.NotAnInteger? || (r.Number? && !IsCustomerIdExisted(cs, r.n))
  }

  /** A reply the group-number prompt answers by asking again. */
  predicate GroupRetry(cs: seq<Customer>, customerId: int, groups: seq<TourGroup>, today: Date, r: Reply)
    requires IsCustomerIdExisted(cs, customerId)
  {
    r.NotAnInteger? || (r.Number? && CheckGroupChoice(cs, customerId, r.n, groups, today) != Eligible)
  }

  /**
   * The customer-id prompt reading `lines` from index `k`: it stops at the
   * first 'c' or the first integer that is an existing id, skipping the rest.
   */
  function PickCustomerFrom(cs: seq<Customer>, lines: seq<string>, k: nat, parseInt: string -> Option<int>): (p: Pick)
    requires k <= |lines|
    ensures p.Picked? ==> (k < p.next <= |lines| && ReadReply(lines[p.next - 1], parseInt) == Number(p.value)
      && IsCustomerIdExisted(cs, p.value)
      && forall j :: k <= j < p.next - 1 ==> CustomerRetry(cs, ReadReply(lines[j], parseInt)))
    ensures p == InputEnded ==> forall j :: k <= j < |lines| ==> CustomerRetry(cs, ReadReply(lines[j], parseInt))
    ensures p == Cancelled ==> exists j :: (k <= j < |lines| && ReadReply(lines[j], parseInt) == Cancel
      && forall i :: k <= i < j ==> CustomerRetry(cs, ReadReply(lines[i], parseInt)))
    decreases |lines| - k
  {
    if k == |lines| then InputEnded
    else
      match ReadReply(lines[k], parseInt)
      case Cancel => Cancelled
      case NotAnInteger => PickCustomerFrom(cs, lines, k + 1, parseInt)
      case Number(id) =>
        if IsCustomerIdExisted(cs, id) then Picked(id, k + 1) else PickCustomerFrom(cs, lines, k + 1, parseInt)
  }

  /**
   * The group-number prompt reading `lines` from index `k`: it stops at the
   * first 'c' or the first integer all three guards accept.
   */
  function PickGroupFrom(cs: seq<Customer>, customerId: int, groups: seq<TourGroup>, today: Date,
                         lines: seq<string>, k: nat, parseInt: string -> Option<int>): (p: Pick)
    requires IsCustomerIdExisted(cs, customerId) && k <= |lines|
    ensures p.Picked? ==> (k < p.next <= |lines| && ReadReply(lines[p.next - 1], parseInt) == Number(p.value)
      && CheckGroupChoice(cs, customerId, p.value, groups, today) == Eligible
      && forall j :: k <= j < p.next - 1 ==> GroupRetry(cs, customerId, groups, today, ReadReply(lines[j], parseInt)))
    ensures p == InputEnded ==>
      forall j :: k <= j < |lines| ==> GroupRetry(cs, customerId, groups, today, ReadReply(lines[j], parseInt))
    ensures p == Cancelled ==> exists j :: (k <= j < |lines| && ReadReply(lines[j], parseInt) == Cancel
      && forall i :: k <= i < j ==> GroupRetry(cs, customerId, groups, today, ReadReply(lines[i], parseInt)))
    decreases |lines| - k
  {
    if k == |lines| then InputEnded
    else
      match ReadReply(lines[k], parseInt)
      case Cancel => Cancelled
      case NotAnInteger => PickGroupFrom(cs, customerId, groups, today, lines, k + 1, parseInt)
      case Number(n) =>
        if CheckGroupChoice(cs, customerId, n, groups, today) == Eligible then Picked(n, k + 1)
        else PickGroupFrom(cs, customerId, groups, today, lines, k + 1, parseInt)
  }

  /** The customer-id `while True` loop of `add_customer_to_tourgroup`. */
  method ReadCustomerId(cs: seq<Customer>, lines: seq<string>, parseInt: string -> Option<int>) returns (p: Pick)
    ensures p == PickCustomerFrom(cs, lines, 0, parseInt)
  {
    var k := 0;
    while k < |lines|
      invariant 0 <= k <= |lines|
      invariant PickCustomerFrom(cs, lines, k, parseInt) == PickCustomerFrom(cs, lines, 0, parseInt)
    {
      var reply := ReadReply(lines[k], parseInt);
      if reply == Cancel {
        return Cancelled;
      }
      if reply.Number? && IsCustomerIdExisted(cs, reply.n) {
        return Picked(reply.n, k + 1);
      }
      k := k + 1;
    }
    return InputEnded;
  }

  /** The group-number `while True` loop of `add_customer_to_tourgroup`, from line `start`. */
  method ReadGroupNumber(cs: seq<Customer>, customerId: int, groups: seq<TourGroup>, today: Date,
                         lines: seq<string>, start: nat, parseInt: string -> Option<int>) returns (p: Pick)
    requires IsCustomerIdExisted(cs, customerId) && start <= |lines|
    ensures p == PickGroupFrom(cs, customerId, groups, today, lines, start, parseInt)
  {
    var k := start;
    while k < |lines|
      invariant start <= k <= |lines|
      invariant PickGroupFrom(cs, customerId, groups, today, lines, k, parseInt)
             == PickGroupFrom(cs, customerId, groups, today, lines, start, parseInt)
    {
      var reply := ReadReply(lines[k], parseInt);
      if reply == Cancel {
        return Cancelled;
      }
      if reply.Number? {
        var verdict := CheckGroupChoice(cs, customerId, reply.n, groups, today);
        if verdict == Eligible {
          return Picked(reply.n, k + 1);
        }
      }
      k := k + 1;
    }
    return InputEnded;
  }

  /** How one run of the enrollment workflow ends. */
  datatype Enrollment = Enrolled(customerId: int, groupNo: int) | Aborted | NoMoreInput

  /**
   * The decision of one run over `lines`, given the customers and the tour-group
   * list shown after the customer was chosen: first a customer id, then a group.
   */
  function Decide(cs: seq<Customer>, groups: seq<TourGroup>, today: Date, lines: seq<string>,
                  parseInt: string -> Option<int>): (e: Enrollment)
    ensures e.Enrolled? ==> (IsCustomerIdExisted(cs, e.customerId)
      && CheckGroupChoice(cs, e.customerId, e.groupNo, groups, today) == Eligible)
  {
    match PickCustomerFrom(cs, lines, 0, parseInt)
    case Cancelled => Aborted
    case InputEnded => NoMoreInput
    case Picked(id, next) =>
      match PickGroupFrom(cs, id, groups, today, lines, next, parseInt)
      case Cancelled => Aborted
      case InputEnded => NoMoreInput
      case Picked(n, _) => Enrolled(id, n)
  }

  /**
   * Guard order on an example: a customer already in the only group who types
   * 2 is told the number is out of range, not that they are already a member.
   */
  lemma RangeCheckedBeforeMembership(cs: seq<Customer>, customerId: int, g: TourGroup, today: Date)
    requires IsCustomerIdExisted(cs, customerId) && customerId in g.members
    ensures CheckGroupChoice(cs, customerId, 2, [g], today) == OutOfRange
    ensures CheckGroupChoice(cs, customerId, 1, [g], today) == AlreadyInGroup
  {
  }
}
