# Aotearoa Tours management core, in Dafny

This project models the deterministic core of a small console program a tour
operator uses to manage customers and tour groups. The program exists in two
near-identical drafts, `636/01/atl_Yongzhen_Jiang_v1.py` and
`636/01/atl_Yongzhen_Jiang.py`. It keeps two module-level collections:

- `customers`, a list of `[id, first_name, family_name, birth_date, email]`
  records;
- `tours`, a dictionary from a tour name to `{age_restriction, itinerary,
  groups}`, where `groups` maps a departure date to the list of customer ids
  enrolled in that departure.

The model covers four parts of the program.

- **Validation.** The email regular expression `^\S+@\S+\.\S+$`, the
  birth-date check `is_valid_date` with its 110-year bound, the helper
  `yearsago` (including its 29-February fallback), the age computation
  `get_customer_age`, and the lookups the enrollment guards use.
- **Projections.** The numbered tour-group list `get_tour_groups`, the
  destination index `get_all_destinations_with_tour` / `get_all_destinations`,
  and the id-keyed customer dictionary `get_customers_dict`.
- **Enrollment.** `add_customer_to_tourgroup`: the customer-id prompt, the
  tour-group prompt with its three guards checked in a fixed order, and the
  single commit `_add_customer_to_tourgroup`.
- **Registration.** `add_new_customer`: the `get_input` retry loop for plain,
  date and email fields, and the append `_add_new_customer`.

The modules are:

- `Basics` holds `Option`.
- `Text` models Python's string order, `str.isspace`, `str.strip` and the email
  pattern.
- `Calendar` models dates, `yearsago`, ages and `is_valid_date`.
- `Sorting` models Python's stable `sorted`.
- `Catalog` holds the records, `get_tour_groups` and the customer lookups.
- `Destinations` holds the destination index.
- `Enrollment` holds the guards and the two numeric prompts.
- `Registration` holds `get_input` and the registration loop.
- `Session` holds the class `Office`. Its two fields are the program's two
  collections, and its methods are the operations that update them in place.

Input that the program reads at the console is a parameter here:

- `lines` is the sequence of lines typed.
- `today` stands for `date.today()`.
- `parse` stands for `datetime.strptime(text, '%d/%m/%Y')`, giving None when it
  raises. Registration assumes `Registration.ParsesDates(parse)`: like
  `strptime`, it only ever produces a real calendar date.
- `parseInt` stands for `int(text)`, giving None on `ValueError`.
- `uniqueId` stands for `unique_id()`, as a function of the customer list as it
  stands.

Each `while True` prompt loop is a specification function that scans `lines`
from a given index. A method with a `while` loop is proved equal to that
function. Both drafts share one model. The two places where they differ are
selected by a `Draft` value:

- the text printed for a malformed date;
- whether a bad email is reported or refused silently.

## Model

| member | source | states |
|---|---|---|
| Text.StrLeTotal | 636/01/atl_Yongzhen_Jiang_v1.py:187-190 | Python's code-point string order, used by `sorted` on tour names, is total |
| Text.StrLeTransitive | 636/01/atl_Yongzhen_Jiang_v1.py:187-190 | the string order is transitive |
| Text.StrLeAntisymmetric | 636/01/atl_Yongzhen_Jiang_v1.py:187-190 | two strings each `<=` the other are equal, so name ties are exact |
| Text.Strip | 636/01/atl_Yongzhen_Jiang_v1.py:469 | `str.strip()` never returns text that starts or ends with whitespace |
| Text.StripIsTrimmedSlice | 636/01/atl_Yongzhen_Jiang_v1.py:469 | `str.strip()` returns the slice of the line between a whitespace-only prefix and a whitespace-only suffix |
| Text.ScanEmailMatchesPattern | 636/01/atl_Yongzhen_Jiang_v1.py:81-86 | a single left-to-right scan (earliest usable '@', then a later '.') decides the pattern `\S+@\S+\.\S+` exactly |
| Text.IsEmail | 636/01/atl_Yongzhen_Jiang_v1.py:81-86 | `re.match(r'^\S+@\S+\.\S+$', email)`: the scan on the text, or on the text less one final newline; its meaning is the pattern, by `Text.IsEmailIff` |
| Text.IsEmailIff | 636/01/atl_Yongzhen_Jiang_v1.py:81-86 | `is_email` is truthy iff the text, less at most one final newline (Python's `$`), has no whitespace, an '@' after at least one character, a later '.' at least two characters after it, and a character after the '.' |
| Text.EmailExamples | 636/01/atl_Yongzhen_Jiang.py:243-245 | "a@b.c" and "a@b.c\n" are accepted; "a@b", "ab.c", "" and "a @b.c" are rejected |
| Calendar.YearsAgo | 636/01/atl_Yongzhen_Jiang_v1.py:106-117 | `yearsago(n, d)` keeps d's month and day with the year lowered by n when that date exists. Otherwise it gives 28 February of `d.year - 100`, not `d.year - n`. When `d.year - n` is within 1..9999, that fallback only happens for 29 February into a non-leap year; it also happens when `d.year - n` leaves 1..9999. It raises (None) when `d.year - 100` leaves 1..9999 too. A result is a valid date no later than d |
| Calendar.LeapDayBoundIsHundredYears | 636/01/atl_Yongzhen_Jiang.py:262-270 | on 29 February the 110-year bound always falls back to 28 February 100 years earlier |
| Calendar.CustomerAge | 636/01/atl_Yongzhen_Jiang_v1.py:152-157 | the age is non-negative whenever the birth date is not after today |
| Calendar.AgeIsCompletedBirthdays | 636/01/atl_Yongzhen_Jiang.py:296-298 | the age is the number of completed birthdays: that anniversary is on or before today, the next is after today, and no other number has both properties |
| Calendar.CheckBirthDate | 636/01/atl_Yongzhen_Jiang_v1.py:89-103 | `is_valid_date` on what `strptime` produced: after today first, then before `yearsago(110, today)`, else the date; a missing parse or a raising `yearsago` is malformed. Its outcomes are stated as iffs by `Calendar.CheckBirthDateOutcomes` |
| Calendar.CheckBirthDateOutcomes | 636/01/atl_Yongzhen_Jiang_v1.py:89-103 | 'Later than today' iff the date is after today. Otherwise 'Earlier than 110 years ago' iff it is before `yearsago(110, today)`. Otherwise the date itself is returned, so both bounds are inclusive. Unparseable text, or a `yearsago` that raises, is the malformed case |
| Calendar.AcceptedBirthDateAge | 636/01/atl_Yongzhen_Jiang_v1.py:89-103 | an accepted birth date gives an age between 0 and 110 |
| Calendar.BoundaryDatesAccepted | 636/01/atl_Yongzhen_Jiang.py:248-259 | on a day that is neither the first nor the last of its month: today and the same day 110 years ago are accepted; the (real) day before that is too old; the (real) next day is later than today |
| Sorting.Sort | 636/01/atl_Yongzhen_Jiang_v1.py:187-190 | `sorted` returns a permutation of its input |
| Sorting.SortSorted | 636/01/atl_Yongzhen_Jiang_v1.py:187-190 | with a total, transitive key order, `sorted` returns its input in key order |
| Sorting.SortStable | 636/01/atl_Yongzhen_Jiang_v1.py:187-190 | `sorted` is stable in the sense the double sort needs: sorting by one key a list already ordered by another leaves elements with equal keys in that other order, so `sorted(sorted(xs, key=k1), key=k2)` orders by (k2, k1) |
| Sorting.StrictlySortedUnique | 636/01/atl_Yongzhen_Jiang.py:311-321 | two strictly ordered lists with the same elements are equal |
| Catalog.DateThenNameSort | 636/01/atl_Yongzhen_Jiang_v1.py:186-190 | sorting by date and then by name gives name order with ties in date order, and the same entries |
| Catalog.StrictGroupOrder | 636/01/atl_Yongzhen_Jiang_v1.py:174-177 | name order with date-ordered ties and unique (name, date) pairs is strict (name, date) order |
| Catalog.DateThenNameSortOrdersGroups | 636/01/atl_Yongzhen_Jiang_v1.py:186-192 | the two sorts of the flattened catalog give the tour-group list: one entry per group, strictly ascending by (name, date) |
| Catalog.TourGroupListUnique | 636/01/atl_Yongzhen_Jiang_v1.py:174-192 | the tour-group list is determined by the catalog, so recomputing it reproduces the menu numbering |
| Catalog.TourGroupListLength | 636/01/atl_Yongzhen_Jiang.py:311-321 | the list's length is the total number of (tour, date) groups in the catalog |
| Catalog.FlattenTours | 636/01/atl_Yongzhen_Jiang_v1.py:181-184 | the nested loops build a dictionary with exactly one key per (tour name, date), holding that tour's age restriction and that group's members |
| Catalog.ItemsOf | 636/01/atl_Yongzhen_Jiang_v1.py:187 | `tour_groups.items()` lists each dictionary entry exactly once |
| Catalog.GetTourGroups | 636/01/atl_Yongzhen_Jiang_v1.py:174-192 | the result has exactly one entry per group of the catalog, carrying that tour's age restriction and that group's members, strictly ascending by (name, date) |
| Catalog.CustomerIds | 636/01/atl_Yongzhen_Jiang_v1.py:124 | `[c[0] for c in customers]`, position by position |
| Catalog.IsCustomerIdExisted | 636/01/atl_Yongzhen_Jiang.py:273-275 | true iff some record has the id as its first field |
| Catalog.BirthDatesOf | 636/01/atl_Yongzhen_Jiang_v1.py:146 | non-empty iff the id exists, and its first element is the birth date of the first record carrying the id |
| Catalog.LastIndexOf | 636/01/atl_Yongzhen_Jiang_v1.py:297-302 | the position of the last record carrying the id, or -1 |
| Catalog.CustomersById | 636/01/atl_Yongzhen_Jiang_v1.py:297-302 | the dictionary's keys are exactly the existing ids, and each maps to the LAST record carrying it |
| Catalog.CustomersByIdDistinct | 636/01/atl_Yongzhen_Jiang.py:374-379 | with distinct ids every record is found under its own id |
| Destinations.SortDistinctNames | 636/01/atl_Yongzhen_Jiang_v1.py:254 | sorting names without repeats gives a strictly ascending list of the same names |
| Destinations.ListOf | 636/01/atl_Yongzhen_Jiang_v1.py:254 | iterating over a set lists each element exactly once |
| Destinations.GetAllDestinations | 636/01/atl_Yongzhen_Jiang_v1.py:242-266 | the destinations are strictly ascending and equal the union of all itineraries. Each destination's tour list is strictly ascending and holds exactly the tours whose itinerary contains it |
| Destinations.DestinationsHaveTours | 636/01/atl_Yongzhen_Jiang_v1.py:258-264 | every listed destination has a non-empty tour list |
| Destinations.DestinationIndexUnique | 636/01/atl_Yongzhen_Jiang.py:342-360 | the destination report is determined by the catalog |
| Destinations.ExampleReport | 636/01/atl_Yongzhen_Jiang_v1.py:242-266 | tours A (X, Y) and B (Y) give [("X", ["A"]), ("Y", ["A", "B"])] |
| Enrollment.BirthDateOf | 636/01/atl_Yongzhen_Jiang_v1.py:146 | the age check uses the birth date of the FIRST record carrying the id |
| Enrollment.IsTourGroupExisted | 636/01/atl_Yongzhen_Jiang_v1.py:128-132 | the number is a 1-based position in the list shown: `0 < n <= len(tour_groups)`; `Enrollment.CheckGroupChoice` names it as the first guard |
| Enrollment.IsCustomerAlreadyInTourGroup | 636/01/atl_Yongzhen_Jiang_v1.py:135-139 | the id is among entry n's members; only asked of an in-range n, as the `elif` order guarantees |
| Enrollment.IsCustomerAgeValid | 636/01/atl_Yongzhen_Jiang_v1.py:142-149 | the age today, from the first record's birth date, reaches entry n's age restriction (inclusive) |
| Enrollment.CheckGroupChoice | 636/01/atl_Yongzhen_Jiang_v1.py:412-423 | out of range iff n is not in 1..len; else already a member iff the id is in the group; else too young iff the age is below the restriction; else eligible. The first failing guard, in that order, names the message |
| Enrollment.ReadReply | 636/01/atl_Yongzhen_Jiang_v1.py:384-395 | a line cancels iff it is 'c' or 'C', tested before any `int()`; otherwise it is a non-integer iff `int()` fails, and a number is what `int()` gave |
| Enrollment.PickCustomerFrom | 636/01/atl_Yongzhen_Jiang_v1.py:381-395 | the prompt stops at the first 'c'/'C' or the first integer that is an existing id. Every earlier line was a non-integer or an unknown id. Running out of input means every line was retried |
| Enrollment.PickGroupFrom | 636/01/atl_Yongzhen_Jiang.py:71-88 | the prompt stops at the first 'c'/'C' or at the first integer all three guards accept. Every earlier line was a non-integer or failed a guard, so a non-integer re-prompts rather than cancels |
| Enrollment.ReadCustomerId | 636/01/atl_Yongzhen_Jiang_v1.py:381-395 | the customer-id loop ends exactly as the scan of the typed lines says |
| Enrollment.ReadGroupNumber | 636/01/atl_Yongzhen_Jiang_v1.py:404-426 | the group-number loop ends exactly as the scan of the typed lines says |
| Enrollment.Decide | 636/01/atl_Yongzhen_Jiang_v1.py:373-429 | a run ends in an enrollment only for an existing customer and a group number all three guards accept |
| Enrollment.RangeCheckedBeforeMembership | 636/01/atl_Yongzhen_Jiang.py:79-82 | a member of the only group who types 2 is told the number is wrong; typing 1 they are told they are already in the group |
| Registration.MessageText | 636/01/atl_Yongzhen_Jiang_v1.py:474-488 | an empty line prints "Can not be empty."; a date after today prints "Later than today"; one too old prints "Earlier than 110 years ago"; a malformed date prints "Incorrect date format" in the first draft and "ValueError" in the second; a bad email prints "Incorrect email format". Each text names its message alone |
| Registration.EmailMessage | 636/01/atl_Yongzhen_Jiang.py:144-146 | a bad email is refused silently in the second draft and reported in the first (636/01/atl_Yongzhen_Jiang_v1.py:486-489), with "Incorrect email format" |
| Registration.ClassifyLine | 636/01/atl_Yongzhen_Jiang_v1.py:468-490 | a line quits iff its stripped text is ':q' in either case; an accepted line's stripped text is non-empty and not ':q' |
| Registration.ClassifyLineMeaning | 636/01/atl_Yongzhen_Jiang.py:128-148 | an empty stripped line is refused with a message. A plain field accepts the stripped text. An email field accepts exactly the texts matching the pattern. A date field accepts exactly the dates `is_valid_date` accepts, which are then no later than today and give an age from 0 to 110, and are real calendar dates when the parser only produces those. A rejected date is retried with `is_valid_date`'s verdict as its message ('Incorrect date format' in the first draft, 'ValueError' in the second, for a malformed one); a rejected email is retried with the draft's email message, none in the second draft |
| Registration.LineClassifierSound | 636/01/atl_Yongzhen_Jiang_v1.py:463-491 | with a parser that only produces real dates, every value `get_input` returns, for any line and field kind, carries the guarantee of that field kind (stripped non-empty text that is not ':q'; for an email, the pattern; for a date, a real date from 110 years ago to today) |
| Registration.ReadFieldFrom | 636/01/atl_Yongzhen_Jiang_v1.py:468-491 | one field read ends at the first accepted line (value and next line) or the first ':q', after only retried lines; running out of input means every line was retried |
| Registration.FieldReadOk | 636/01/atl_Yongzhen_Jiang.py:128-148 | a field value read by the loop carries its field kind's guarantee |
| Registration.ReadFields | 636/01/atl_Yongzhen_Jiang_v1.py:441-456 | successive prompts give one value per field and consume at least one line per field |
| Registration.ReadFieldsOk | 636/01/atl_Yongzhen_Jiang_v1.py:441-456 | each value read carries the guarantee of its own field's kind |
| Registration.ReadEntry | 636/01/atl_Yongzhen_Jiang_v1.py:441-456 | a completed round has stripped non-empty names that are not ':q', an email matching the pattern, and a real birth date no later than today with an age of at most 110 |
| Registration.EntriesFrom | 636/01/atl_Yongzhen_Jiang.py:103-125 | every round the registration loop completes yields such an entry |
| Registration.AppendEntries | 636/01/atl_Yongzhen_Jiang_v1.py:494-498 | each append adds one record at the end, keeping the existing prefix, with the id `unique_id()` gives for the list before it and the entered fields |
| Registration.RegisterFrom | 636/01/atl_Yongzhen_Jiang_v1.py:436-460 | the customer list after one run of `add_new_customer()`: the entries of the completed rounds appended in order; `Registration.RegisterOnlyAppendsValidRecords` states what each appended record satisfies |
| Registration.RegisterOnlyAppendsValidRecords | 636/01/atl_Yongzhen_Jiang.py:97-125 | registration only appends; every appended record has stripped non-empty names, an email matching the pattern, a real birth date giving an age from 0 to 110, and the id handed out for the list before it |
| Registration.AppendKeepsIdsDistinct | 636/01/atl_Yongzhen_Jiang.py:151-152 | if `unique_id()` never returns an existing id, appending keeps all ids distinct |
| Registration.GetInput | 636/01/atl_Yongzhen_Jiang.py:128-148 | the `get_input` loop ends exactly as the scan of the classified lines says |
| Registration.GetFields | 636/01/atl_Yongzhen_Jiang_v1.py:441-456 | successive `get_input` calls stop at the first ':q' or end of input, as the specification of successive reads says |
| Registration.GetEntry | 636/01/atl_Yongzhen_Jiang_v1.py:442-456 | one round of four prompts builds the entry the specification of a round gives |
| Session.EnrollChangesOneGroup | 636/01/atl_Yongzhen_Jiang_v1.py:160-171 | enrolling sets one (tour, date) member list to the old list followed by the id; every other group, tour, age restriction and itinerary stays as it was |
| Session.Enroll | 636/01/atl_Yongzhen_Jiang_v1.py:160-171 | the catalog after `_add_customer_to_tourgroup` for entry g: `tours[g.name]["groups"][g.date]` becomes g's members followed by the id; `Session.EnrollChangesOneGroup` states that nothing else changes |
| Session.SameKeyKeepsOrder | 636/01/atl_Yongzhen_Jiang_v1.py:174-192 | changing an entry's members keeps the list in (name, date) order |
| Session.EnrolledGroupsListed | 636/01/atl_Yongzhen_Jiang_v1.py:160-171 | every group of the new catalog is an entry of the old list, with the chosen entry's members extended |
| Session.ListedGroupsEnrolled | 636/01/atl_Yongzhen_Jiang_v1.py:160-171 | every entry of the old list, with the chosen entry's members extended, is a group of the new catalog |
| Session.EnrollKeepsNumbering | 636/01/atl_Yongzhen_Jiang.py:301-309 | after the commit the recomputed tour-group list is the old one with only the chosen entry's members extended, so menu numbers do not move |
| Session.EnrollPreservesWellFormed | 636/01/atl_Yongzhen_Jiang_v1.py:404-429 | an enrollment the guards allow keeps every member an existing customer and no group lists an id twice |
| Session.AppendPreservesWellFormed | 636/01/atl_Yongzhen_Jiang_v1.py:494-498 | appending a customer keeps the catalog well formed |
| Session.AppendEntriesPreservesWellFormed | 636/01/atl_Yongzhen_Jiang_v1.py:436-460 | a run of registrations keeps the catalog well formed |
| Session.Office.constructor | 636/01/atl_Yongzhen_Jiang_v1.py:10 | the office starts with the given customers and tours |
| Session.Office.AddCustomerToGroup | 636/01/atl_Yongzhen_Jiang_v1.py:160-171 | the stored catalog becomes the enrolled catalog for the chosen entry; customers are unchanged |
| Session.Office.AddNewCustomer | 636/01/atl_Yongzhen_Jiang.py:151-152 | the customer list grows by exactly one record at the end; tours are unchanged |
| Session.Office.CommitEnrollment | 636/01/atl_Yongzhen_Jiang_v1.py:429 | after the loop breaks on an eligible number, the chosen entry is in range and its tour exists, and only that group changes; well-formedness is kept |
| Session.Office.ChooseGroup | 636/01/atl_Yongzhen_Jiang_v1.py:397-429 | the list shown is the tour-group list of the catalog. The catalog changes only when a group is picked, and then only by enrolling into the picked entry |
| Session.Office.AddCustomerToTourGroup | 636/01/atl_Yongzhen_Jiang.py:41-94 | the run ends as the decision over the typed lines says. Customers never change. Tours change only on enrollment, and then only by that one commit. 'c' or end of input changes nothing. Well-formedness is kept |
| Session.Office.AddNewCustomers | 636/01/atl_Yongzhen_Jiang_v1.py:436-460 | the customer list becomes the old list with the registered entries appended in order; tours are unchanged; well-formedness is kept |

## Left out

- End of input is not an error here: Python's `input()` would raise `EOFError`, which nothing catches. The outcomes `Enrollment.InputEnded`, `Enrollment.NoMoreInput` and `Registration.NoInput` stand for a prompt still waiting for its next line.
- Console output is not modelled: the colour helpers, the `print_*` wrappers, the `display_*` and `print_*` table routines, and the menu loop `disp_menu` with its dispatch. The model records which message a line produces, not how it is printed.
- The "Press Enter to continue" reads are not modelled, because they only pause and discard what is typed. The prompts' lines are a sequence parameter, `lines`.
- `date.today()`, `datetime.strptime`, `int()` and `unique_id()` are parameters. `atl_data` (the initial data, `unique_id`, `display_formatted_row`) is not part of this model.
- `get_datetime` and `get_date`, which convert between `date` and `datetime` before comparing departure dates, are not modelled: there is one date type here.
- In the second draft, `get_customers_dict` maps an id to the 4-tuple without the id, while the first draft stores the whole record. `Catalog.CustomersById` models the first draft's value.
- The second draft's module order is not modelled: its menu loop runs before the helper functions are defined.
- The second draft's debug prints (the customer's date of birth in `is_customer_age_valid`, the entered fields in `add_new_customer`) are not modelled.
- Python's regular-expression engine and `str.lower` are not modelled. The email pattern is stated directly, and the tokens 'c' and ':q' are compared in both cases.
- Calendar.CustomerAge: its contract states only non-negativity. The meaning of the age is stated and proved in `Calendar.AgeIsCompletedBirthdays`.
- Registration.Verdicts and Registration.VerdictAt are helpers that tabulate the classified lines. They state no property of the program.
