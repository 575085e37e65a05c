/**
 * Registration input (`get_input`, `add_new_customer`): how one typed line is
 * classified for a plain, a date or an email field, the retry loop that reads
 * one field, and the sequence of records a run of the registration loop appends.
 */
module Registration {
  import opened Basics
  import opened Text
  import opened Calendar
  import opened Catalog

  /** The two drafts of the program; of their differences, the model keeps the messages printed here. */
  datatype Draft = FirstDraft | SecondDraft

  /** `get_input`'s `validation` argument: `None`, `'date'` or `'email'`. */
  datatype Validation = Plain | DateField | EmailField

  /** What `get_input` returns besides ":q": the stripped text, or a birth date. */
  datatype FieldValue = Typed(text: string) | BirthDate(date: Date)

  /** A message `get_input` prints before asking again. */
  datatype Message = EmptyInput | DateRejected(check: DateCheck) | BadEmail

  /** One line's effect: quit, ask again after an optional message, or accept a value. */
  datatype LineVerdict = Quit | Retry(message: Option<Message>) | Accept(value: FieldValue)

  /**
   * The text printed for a message: "Can not be empty.", the string
   * `is_valid_date` returned for a rejected date, or "Incorrect email format".
   */
  function MessageText(draft: Draft, m: Message): (t: string)
    ensures m.EmptyInput? <==> t == "Can not be empty."
    ensures m == DateRejected(LaterThanToday) <==> t == "Later than today"
    ensures m == DateRejected(EarlierThanOldestAge) <==> t == "Earlier than 110 years ago"
    ensures m == DateRejected(Malformed) ==>
      t == (if draft == FirstDraft then "Incorrect date format" else "ValueError")
    ensures m == BadEmail <==> t == "Incorrect email format"
  {
    match m
    case EmptyInput => "Can not be empty."
    case DateRejected(LaterThanToday) => "Later than today"
    case DateRejected(EarlierThanOldestAge) => "Earlier than 110 years ago"
    case DateRejected(Malformed) => if draft == FirstDraft then "Incorrect date format" else "ValueError"
    case DateRejected(Accepted(_)) => ""
    case BadEmail => "Incorrect email format"
  }

  /** A malformed email is reported by the first draft and refused silently by the second. */
  function EmailMessage(draft: Draft): (m: Option<Message>)
    ensures m.Some? <==> draft == FirstDraft
    ensures m.Some? ==> m.value == BadEmail
  {
    if draft == FirstDraft then Some(BadEmail) else None
  }

  /**
   * One pass of `get_input`'s loop body on the raw line `raw`: strip it, quit on
   * ':q' in any case, refuse the empty string, then validate. `parse` stands for
   * `datetime.strptime(text, '%d/%m/%Y')` (None when it raises).
   */
  function ClassifyLine(draft: Draft, raw: string, validation: Validation, today: Date,
                        parse: string -> Option<Date>): (v: LineVerdict)
    requires ValidDate(today)
    ensures v == Quit <==> IsQuitToken(Strip(raw))
    ensures v.Accept? ==> Strip(raw) != [] && !IsQuitToken(Strip(raw))
  {
    var s := Strip(raw);
    if IsQuitToken(s) then Quit
    else if s == [] then Retry(Some(EmptyInput))
    else
      match validation
      case Plain => Accept(Typed(s))
      case DateField =>
        var c := CheckBirthDate(parse(s), today);
        if c.Accepted? then Accept(BirthDate(c.date))
        else Retry(Some(DateRejected(c)))
      case EmailField =>
        if IsEmail(s) then Accept(Typed(s)) else Retry(EmailMessage(draft))
  }

  /**
   * What `get_input` accepts from one line: the stripped text, which is never
   * empty and never ':q'; for an email field exactly the texts matching
   * `\S+@\S+\.\S+`; for a date field exactly the dates `is_valid_date` accepts,
   * which lie between 110 years ago and today. An empty line is refused with a message;
   * a rejected date with `is_valid_date`'s verdict; a rejected email with the
   * draft's email message (none in the second draft).
   */
  lemma ClassifyLineMeaning(draft: Draft, raw: string, validation: Validation, today: Date,
                            parse: string -> Option<Date>)
    requires ValidDate(today)
    ensures var v := ClassifyLine(draft, raw, validation, today, parse);
      var s := Strip(raw);
      && (s == [] ==> v == Retry(Some(EmptyInput)))
      && (s != [] && !IsQuitToken(s) ==>
            && (validation == Plain ==> v == Accept(Typed(s)))
            && (validation == EmailField ==> (v.Accept? <==> MatchesEmailPattern(s)))
            && (validation == EmailField && v.Accept? ==> v.value == Typed(s))
            && (validation == EmailField && !v.Accept? ==> v == Retry(EmailMessage(draft)))
            && (validation == DateField ==> (v.Accept? <==> CheckBirthDate(parse(s), today).Accepted?))
            && (validation == DateField && !v.Accept? ==>
                  v == Retry(Some(DateRejected(CheckBirthDate(parse(s), today))))))
      && (v.Accept? && v.value.Typed? ==> TypedText(v.value.text))
      && (v.Accept? && validation == DateField ==>
            && v.value.BirthDate? && parse(s) == Some(v.value.date)
            && DateLe(v.value.date, today) && 0 <= CustomerAge(v.value.date, today) <= OldestAge)
      && (ParsesDates(parse) && v.Accept? && validation == DateField ==> ValidDate(v.value.date))
  {
    var s := Strip(raw);
    StripIsTrimmedSlice(raw);
    IsEmailIff(s);
    if validation == DateField && CheckBirthDate(parse(s), today).Accepted? {
      CheckBirthDateOutcomes(parse(s), today);
      AcceptedBirthDateAge(parse(s), today);
    }
  }

  /** `datetime.strptime` only ever produces a real calendar date. */
  ghost predicate ParsesDates(parse: string -> Option<Date>)
  {
    forall t :: parse(t).Some? ==> ValidDate(parse(t).value)
  }

  /** A field value `get_input` can return for a name or an email: stripped, non-empty, not ':q'. */
  predicate TypedText(s: string)
  {
    s != [] && !IsSpace(s[0]) && !IsSpace(s[|s| - 1]) && !IsQuitToken(s)
  }

  /** What `get_input` guarantees about a value it returns for a field of kind `validation`. */
  predicate FieldOk(validation: Validation, v: FieldValue, today: Date)
  {
    match validation
    case Plain => v.Typed? && TypedText(v.text)
    case EmailField => v.Typed? && TypedText(v.text) && MatchesEmailPattern(v.text)
    case DateField =>
      v.BirthDate? && ValidDate(v.date) && DateLe(v.date, today) && 0 <= CustomerAge(v.date, today) <= OldestAge
  }

  /** A way of judging one typed line for a field of a given kind. */
  type Classifier = (Validation, string) -> LineVerdict

  /** `get_input`'s own judgement, for one draft, one day and one date parser. */
  function LineClassifier(draft: Draft, today: Date, parse: string -> Option<Date>): Classifier
    requires ValidDate(today)
  {
    (validation: Validation, raw: string) => ClassifyLine(draft, raw, validation, today, parse)
  }

  /** Every value the classifier accepts carries the guarantee of its field kind. */
  ghost predicate Sound(classify: Classifier, today: Date)
  {
    forall validation, raw :: classify(validation, raw).Accept? ==>
      FieldOk(validation, classify(validation, raw).value, today)
  }

  /** `get_input` accepts only stripped non-empty text, matching emails and in-range birth dates. */
  lemma LineClassifierSound(draft: Draft, today: Date, parse: string -> Option<Date>)
    requires ValidDate(today) && ParsesDates(parse)
    ensures Sound(LineClassifier(draft, today, parse), today)
  {
    var classify := LineClassifier(draft, today, parse);
    forall validation, raw | classify(validation, raw).Accept?
      ensures FieldOk(validation, classify(validation, raw).value, today)
    {
      ClassifyLineMeaning(draft, raw, validation, today, parse);
    }
  }

  /** How reading one field ended: a value and the next unread line, ':q', or no more input. */
  datatype FieldRead = Field(value: FieldValue, next: nat) | QuitField | NoInput

  /** The verdict on each of `lines` for a field of kind `validation`, were it read. */
  function Verdicts(classify: Classifier, lines: seq<string>, validation: Validation): (vs: seq<LineVerdict>)
    ensures |vs| == |lines|
  {
    if lines == [] then []
    else [classify(validation, lines[0])] + Verdicts(classify, lines[1..], validation)
  }

  lemma {:induction false} VerdictAt(classify: Classifier, lines: seq<string>, validation: Validation, i: int)
    requires 0 <= i < |lines|
    ensures Verdicts(classify, lines, validation)[i] == classify(validation, lines[i])
    decreases i
  {
    if i > 0 {
      VerdictAt(classify, lines[1..], validation, i - 1);
    }
  }

  /**
   * `get_input(prompt, validation)` over the line verdicts from index `k`: lines
   * are retried until one quits or is accepted.
   */
  function ReadFieldFrom(vs: seq<LineVerdict>, k: nat): (r: FieldRead)
    requires k <= |vs|
    ensures r.Field? ==> (k < r.next <= |vs| && vs[r.next - 1] == Accept(r.value)
      && forall j :: k <= j < r.next - 1 ==> vs[j].Retry?)
    ensures r == QuitField ==> exists j :: (k <= j < |vs| && vs[j] == Quit
      && forall i :: k <= i < j ==> vs[i].Retry?)
    ensures r == NoInput ==> forall j :: k <= j < |vs| ==> vs[j].Retry?
    decreases |vs| - k
  {
    if k == |vs| then NoInput
    else
      match vs[k]
      case Quit => QuitField
      case Retry(_) => ReadFieldFrom(vs, k + 1)
      case Accept(v) => Field(v, k + 1)
  }

  /** A value read for a field carries the guarantee of the field's kind. */
  lemma FieldReadOk(classify: Classifier, lines: seq<string>, k: nat, validation: Validation, today: Date)
    requires Sound(classify, today) && k <= |lines|
    ensures var r := ReadFieldFrom(Verdicts(classify, lines, validation), k);
      r.Field? ==> FieldOk(validation, r.value, today)
  {
    var r := ReadFieldFrom(Verdicts(classify, lines, validation), k);
    if r.Field? {
      VerdictAt(classify, lines, validation, r.next - 1);
      assert classify(validation, lines[r.next - 1]) == Accept(r.value);
    }
  }

  /**
   * Successive `get_input` calls, one per entry of `validations`, from line `k`:
   * the values and the next unread line, or None as soon as one call ends in
   * ':q' or runs out of input.
   */
  function ReadFields(classify: Classifier, lines: seq<string>, k: nat, validations: seq<Validation>)
    : (r: Option<(seq<FieldValue>, nat)>)
    requires k <= |lines|
    ensures r.Some? ==> (|r.value.0| == |validations| && k + |validations| <= r.value.1 <= |lines|)
    decreases |validations|
  {
    if validations == [] then Some(([], k))
    else
      match ReadFieldFrom(Verdicts(classify, lines, validations[0]), k)
      case Field(v, next) =>
        (match ReadFields(classify, lines, next, validations[1..])
         case None => None
         case Some((vs, last)) => Some(([v] + vs, last)))
      case _ => None
  }

  /** Each value read carries the guarantee of its field's kind. */
  lemma {:induction false} ReadFieldsOk(classify: Classifier, lines: seq<string>, k: nat,
                                        validations: seq<Validation>, today: Date)
    requires Sound(classify, today) && k <= |lines|
    ensures var r := ReadFields(classify, lines, k, validations);
      r.Some? ==> forall i :: 0 <= i < |validations| ==> FieldOk(validations[i], r.value.0[i], today)
    decreases |validations|
  {
    if validations != [] {
      var head := ReadFieldFrom(Verdicts(classify, lines, validations[0]), k);
      FieldReadOk(classify, lines, k, validations[0], today);
      if head.Field? {
        var rest := ReadFields(classify, lines, head.next, validations[1..]);
        ReadFieldsOk(classify, lines, head.next, validations[1..], today);
        if rest.Some? {
          var vs := [head.value] + rest.value.0;
          forall i | 0 <= i < |validations| ensures FieldOk(validations[i], vs[i], today) {
            if i > 0 {
              assert validations[i] == validations[1..][i - 1] && vs[i] == rest.value.0[i - 1];
            }
          }
        }
      }
    }
  }

  /** The four prompts of `add_new_customer`, in order. */
  const EntryFields: seq<Validation> := [Plain, Plain, DateField, EmailField]

  /** The fields of one completed round of `add_new_customer`, and the next unread line. */
  datatype Entry = Entry(first: string, last: string, birth: Date, email: string, next: nat)

  /** The fields of an entry are what `get_input` guarantees for its four prompts. */
  predicate EntryOk(e: Entry, today: Date)
  {
    TypedText(e.first) && TypedText(e.last) && TypedText(e.email) && MatchesEmailPattern(e.email)
    && ValidDate(e.birth) && DateLe(e.birth, today) && 0 <= CustomerAge(e.birth, today) <= OldestAge
  }

  /** First name, last name, birth date and email read from line `k` on; None on ':q' or end of input. */
  function ReadEntry(classify: Classifier, lines: seq<string>, k: nat, ghost today: Date): (e: Option<Entry>)
    requires Sound(classify, today) && k <= |lines|
    ensures e.Some? ==> k < e.value.next <= |lines| && EntryOk(e.value, today)
  {
    match ReadFields(classify, lines, k, EntryFields)
    case None => None
    case Some((vs, next)) =>
      ReadFieldsOk(classify, lines, k, EntryFields, today);
      assert FieldOk(EntryFields[0], vs[0], today) && FieldOk(EntryFields[1], vs[1], today);
      assert FieldOk(EntryFields[2], vs[2], today) && FieldOk(EntryFields[3], vs[3], today);
      Some(Entry(vs[0].text, vs[1].text, vs[2].date, vs[3].text, next))
  }

  /**
   * The entries one run of `add_new_customer`'s `while True` loop reads from
   * line `k` on: one per completed round of four prompts, until ':q' or the end
   * of input.
   */
  function EntriesFrom(classify: Classifier, lines: seq<string>, k: nat, ghost today: Date): (es: seq<Entry>)
    requires Sound(classify, today) && k <= |lines|
    ensures forall i :: 0 <= i < |es| ==> EntryOk(es[i], today)
    decreases |lines| - k
  {
    var e := ReadEntry(classify, lines, k, today);
    if e.None? then []
    else [e.value] + EntriesFrom(classify, lines, e.value.next, today)
  }

  /**
   * `_add_new_customer` applied to each entry in turn: `customers.append([unique_id(),
   * *entry])`, where `uniqueId` stands for the id `unique_id()` hands out for the
   * list as it stands.
   */
  function AppendEntries(cs: seq<Customer>, es: seq<Entry>, uniqueId: seq<Customer> -> int): (r: seq<Customer>)
    ensures |r| == |cs| + |es| && r[..|cs|] == cs
    ensures forall i :: |cs| <= i < |r| ==> (r[i].id == uniqueId(r[..i])
      && var e := es[i - |cs|];
         r[i] == Customer(r[i].id, e.first, e.last, e.birth, e.email))
    decreases |es|
  {
    if es == [] then cs
    else
      var c := Customer(uniqueId(cs), es[0].first, es[0].last, es[0].birth, es[0].email);
      var r := AppendEntries(cs + [c], es[1..], uniqueId);
      assert r[..|cs| + 1] == cs + [c];
      assert r[..|cs|] == r[..|cs| + 1][..|cs|];
      r
  }

  /** What every record the registration loop appends satisfies. */
  predicate Registered(c: Customer, today: Date)
  {
    EntryOk(Entry(c.firstName, c.lastName, c.birthDate, c.email, 0), today)
  }

  /**
   * `add_new_customer()` over `lines` with `cs` as the customer list: the
   * entries read are appended in order, and nothing else changes.
   */
  function RegisterFrom(draft: Draft, cs: seq<Customer>, lines: seq<string>, today: Date,
                        parse: string -> Option<Date>, uniqueId: seq<Customer> -> int): seq<Customer>
    requires ValidDate(today) && ParsesDates(parse)
  {
    var classify := LineClassifier(draft, today, parse);
    LineClassifierSound(draft, today, parse);
    AppendEntries(cs, EntriesFrom(classify, lines, 0, today), uniqueId)
  }

  /**
   * Registration only appends, and every appended record has non-empty stripped
   * names, an email matching the pattern, a real birth date no later than today
   * giving an age of at most 110, and the id handed out for the list before it.
   */
  lemma RegisterOnlyAppendsValidRecords(draft: Draft, cs: seq<Customer>, lines: seq<string>, today: Date,
                                        parse: string -> Option<Date>, uniqueId: seq<Customer> -> int)
    requires ValidDate(today) && ParsesDates(parse)
    ensures var r := RegisterFrom(draft, cs, lines, today, parse, uniqueId);
      |cs| <= |r| && r[..|cs|] == cs
      && forall i :: |cs| <= i < |r| ==> Registered(r[i], today) && r[i].id == uniqueId(r[..i])
  {
    LineClassifierSound(draft, today, parse);
    var es := EntriesFrom(LineClassifier(draft, today, parse), lines, 0, today);
    var r := AppendEntries(cs, es, uniqueId);
    forall i | |cs| <= i < |r| ensures Registered(r[i], today) {
      assert EntryOk(es[i - |cs|], today);
    }
  }

  /** With an id supply that never repeats an existing id, appending keeps ids distinct. */
  lemma {:induction false} AppendKeepsIdsDistinct(cs: seq<Customer>, es: seq<Entry>, uniqueId: seq<Customer> -> int)
    requires forall l: seq<Customer> :: !IsCustomerIdExisted(l, uniqueId(l))
    requires forall i, j :: 0 <= i < j < |cs| ==> cs[i].id != cs[j].id
    ensures var r := AppendEntries(cs, es, uniqueId);
      forall i, j :: 0 <= i < j < |r| ==> r[i].id != r[j].id
    decreases |es|
  {
    if es != [] {
      var c := Customer(uniqueId(cs), es[0].first, es[0].last, es[0].birth, es[0].email);
      var cs' := cs + [c];
      assert !IsCustomerIdExisted(cs, uniqueId(cs));
      forall i, j | 0 <= i < j < |cs'| ensures cs'[i].id != cs'[j].id {
        if j == |cs| {
          assert cs'[i] == cs[i];
        }
      }
      AppendKeepsIdsDistinct(cs', es[1..], uniqueId);
    }
  }

  /** The `while True` loop of `get_input`, reading from line `start`. */
  method GetInput(classify: Classifier, lines: seq<string>, start: nat, validation: Validation) returns (r: FieldRead)
    requires start <= |lines|
    ensures r == ReadFieldFrom(Verdicts(classify, lines, validation), start)
  {
    ghost var vs := Verdicts(classify, lines, validation);
    var k := start;
    while k < |lines|
      invariant start <= k <= |lines|
      invariant ReadFieldFrom(vs, k) == ReadFieldFrom(vs, start)
    {
      var verdict := classify(validation, lines[k]);
      VerdictAt(classify, lines, validation, k);
      if verdict == Quit {
        return QuitField;
      }
      if verdict.Accept? {
        return Field(verdict.value, k + 1);
      }
      k := k + 1;
    }
    return NoInput;
  }

  /** `values` in front of the values of a read that went through. */
  function Prepend(values: seq<FieldValue>, r: Option<(seq<FieldValue>, nat)>): Option<(seq<FieldValue>, nat)>
  {
    match r
    case None => None
    case Some((vs, next)) => Some((values + vs, next))
  }

  lemma PrependEmpty(r: Option<(seq<FieldValue>, nat)>)
    ensures Prepend([], r) == r
  {
    if r.Some? {
      assert [] + r.value.0 == r.value.0;
    }
  }

  lemma PrependTwice(values: seq<FieldValue>, v: FieldValue, r: Option<(seq<FieldValue>, nat)>)
    ensures Prepend(values, Prepend([v], r)) == Prepend(values + [v], r)
  {
    if r.Some? {
      assert values + ([v] + r.value.0) == (values + [v]) + r.value.0;
    }
  }

  /** Successive `get_input` calls, one per entry of `validations`, stopping at the first ':q' or end of input. */
  method GetFields(classify: Classifier, lines: seq<string>, k: nat, validations: seq<Validation>)
    returns (r: Option<(seq<FieldValue>, nat)>)
    requires k <= |lines|
    ensures r == ReadFields(classify, lines, k, validations)
  {
    var values: seq<FieldValue> := [];
    var pos: nat := k;
    var f := 0;
    assert validations[f..] == validations;
    PrependEmpty(ReadFields(classify, lines, k, validations));
    while f < |validations|
      invariant 0 <= f <= |validations| && pos <= |lines|
      invariant ReadFields(classify, lines, k, validations)
             == Prepend(values, ReadFields(classify, lines, pos, validations[f..]))
    {
      var got := GetInput(classify, lines, pos, validations[f]);
      if !got.Field? {
        return None;
      }
      assert validations[f..][1..] == validations[f + 1..];
      PrependTwice(values, got.value, ReadFields(classify, lines, got.next, validations[f + 1..]));
      values := values + [got.value];
      pos := got.next;
      f := f + 1;
    }
    assert validations[f..] == [];
    assert values + [] == values;
    return Some((values, pos));
  }

  /** The four prompts of one round of `add_new_customer`, then the record they make. */
  method GetEntry(classify: Classifier, lines: seq<string>, k: nat, ghost today: Date) returns (e: Option<Entry>)
    requires Sound(classify, today) && k <= |lines|
    ensures e == ReadEntry(classify, lines, k, today)
  {
    var r := GetFields(classify, lines, k, EntryFields);
    if r.None? {
      return None;
    }
    var vs := r.value.0;
    ReadFieldsOk(classify, lines, k, EntryFields, today);
    assert FieldOk(EntryFields[0], vs[0], today) && FieldOk(EntryFields[1], vs[1], today);
    assert FieldOk(EntryFields[2], vs[2], today) && FieldOk(EntryFields[3], vs[3], today);
    e := Some(Entry(vs[0].text, vs[1].text, vs[2].date, vs[3].text, r.value.1));
  }
}
