/**
 * A recurring maintenance task of a property: when it was last done, how often it
 * recurs, when it is next due, and how far ahead a reminder is sent. The two derived
 * dates are always recomputed from the inputs (see `Scheduled`).
 */
module MonitoredItems {
  import opened Wrappers
  import opened Failures
  import opened Calendar
  import opened Digits
  import opened DateText
  import opened JavaStrings
  import opened Records
  import opened Addresses
  import Tags
  import Sorting

  // ---------------------------------------------------------------------------
  // Periods and the two schedule calculations
  // ---------------------------------------------------------------------------

  /** The unit of a recurrence or of an advance notice. */
  datatype Period = Weekly | Monthly | Yearly

  /** The enum constant's name, which `toString` prints and the record stores. */
  function PeriodName(p: Period): string {
    match p
    case Weekly => "WEEKLY"
    case Monthly => "MONTHLY"
    case Yearly => "YEARLY"
  }

  /** `Period.valueOf`: the constant with exactly this name. */
  function PeriodValueOf(s: string): (r: Result<Period, Failure>)
    ensures r.Ok? ==> PeriodName(r.value) == s
    ensures r.Err? ==> r.error == NoEnumConstant(s) && forall p :: PeriodName(p) != s
  {
    if s == "WEEKLY" then Ok(Weekly)
    else if s == "MONTHLY" then Ok(Monthly)
    else if s == "YEARLY" then Ok(Yearly)
    else Err(NoEnumConstant(s))
  }

  lemma PeriodRoundTrip(p: Period)
    ensures PeriodValueOf(PeriodName(p)) == Ok(p)
  {
  }

  /**
   * `calculateTimeForNextAction`: move `d` forward by `n` weeks, months or years with
   * `plusWeeks`, `plusMonths` or `plusYears`.
   */
  function Advance(period: Period, n: int, d: LocalDate): (r: LocalDate)
    ensures period.Weekly? ==> EpochDay(r) == EpochDay(d) + 7 * n
    ensures period.Monthly? ==> ProlepticMonth(r) == ProlepticMonth(d) + n
    ensures period.Yearly? ==> r.year == d.year + n && r.month == d.month
    ensures !period.Weekly? ==> r.day == Min(d.day, LengthOfMonth(r.year, r.month))
  {
    match period
    case Weekly => PlusWeeks(d, n)
    case Monthly => PlusMonths(d, n)
    case Yearly => PlusYears(d, n)
  }

  /**
   * `calculateTimeForNextNotice`: move `d` back by `n` weeks, months or years with
   * `minusWeeks`, `minusMonths` or `minusYears`.
   */
  function Retreat(period: Period, n: int, d: LocalDate): (r: LocalDate)
    ensures period.Weekly? ==> EpochDay(r) == EpochDay(d) - 7 * n
    ensures period.Monthly? ==> ProlepticMonth(r) == ProlepticMonth(d) - n
    ensures period.Yearly? ==> r.year == d.year - n && r.month == d.month
    ensures !period.Weekly? ==> r.day == Min(d.day, LengthOfMonth(r.year, r.month))
  {
    match period
    case Weekly => MinusWeeks(d, n)
    case Monthly => MinusMonths(d, n)
    case Yearly => MinusYears(d, n)
  }

  /** A positive count moves the date strictly forward, or strictly back. */
  lemma AdvanceRetreatStrict(period: Period, n: int, d: LocalDate)
    requires n >= 1
    ensures IsAfter(Advance(period, n, d), d)
    ensures IsBefore(Retreat(period, n, d), d)
  {
    match period
    case Weekly => AdvanceWeeksIsAfter(d, n);
    case Monthly => AdvanceMonthsIsAfter(d, n);
    case Yearly => AdvanceYearsIsAfter(d, n);
  }

  // ---------------------------------------------------------------------------
  // The entity
  // ---------------------------------------------------------------------------

  /**
   * The fields of a monitored item. `owner` holds the key of the owning property;
   * `emailSentOn` is `None` where the source holds `null`.
   */
  datatype MonitoredItem = MonitoredItem(
    description: string,
    periodForNextAction: Period,
    noticeEvery: Int32,
    advanceNotice: Int32,
    periodForNextNotice: Period,
    lastActionPerformed: LocalDate,
    timeForNextAction: LocalDate,
    timeForNextNotice: LocalDate,
    emailSentOn: Option<LocalDate>,
    owner: Option<Address>)

  /**
   * The derived dates agree with the inputs: the next action is the last action advanced
   * by the recurrence, and the next notice is the next action moved back by the notice.
   */
  predicate Scheduled(m: MonitoredItem) {
    && m.timeForNextAction == Advance(m.periodForNextAction, m.noticeEvery, m.lastActionPerformed)
    && m.timeForNextNotice == Retreat(m.periodForNextNotice, m.advanceNotice, m.timeForNextAction)
  }

  /** `initialize`: store the inputs, compute both derived dates, clear the owner. */
  function Initialize(description: string, lastActioned: LocalDate, periodForNextAction: Period,
                      noticeEvery: Int32, advanceNotice: Int32, periodForNextNotice: Period,
                      emailSentOn: Option<LocalDate>): (r: MonitoredItem)
    ensures Scheduled(r)
    ensures r.description == description && r.lastActionPerformed == lastActioned
    ensures r.periodForNextAction == periodForNextAction && r.noticeEvery == noticeEvery
    ensures r.advanceNotice == advanceNotice && r.periodForNextNotice == periodForNextNotice
    ensures r.emailSentOn == emailSentOn && r.owner == None
  {
    var next := Advance(periodForNextAction, noticeEvery, lastActioned);
    MonitoredItem(description, periodForNextAction, noticeEvery, advanceNotice, periodForNextNotice,
                  lastActioned, next, Retreat(periodForNextNotice, advanceNotice, next), emailSentOn, None)
  }

  /**
   * The validating constructor. Arguments the source may receive as `null` are options;
   * the checks run in the source's order and the first failing one decides the message.
   */
  function Construct(description: Option<string>, periodForNextAction: Option<Period>, noticeEvery: Int32,
                     lastActioned: Option<LocalDate>, advanceNotice: Int32,
                     periodForNextNotice: Option<Period>): (r: Result<MonitoredItem, Failure>)
    ensures r.Ok? <==> !MissingText(description) && periodForNextAction.Some? && noticeEvery >= 1
                       && advanceNotice >= 1 && lastActioned.Some? && periodForNextNotice.Some?
    ensures MissingText(description) ==>
              r == Err(IllegalArgument("MonitoredItem: description not specified"))
    ensures !MissingText(description) && periodForNextAction.None? ==>
              r == Err(IllegalArgument("MonitoredItem: period was null"))
    ensures !MissingText(description) && periodForNextAction.Some? && noticeEvery < 1 ==>
              r == Err(IllegalArgument("MonitoredItem: noticeEvery less than 1"))
    ensures !MissingText(description) && periodForNextAction.Some? && noticeEvery >= 1 && advanceNotice < 1 ==>
              r == Err(IllegalArgument("MonitoredItem: advanceNotice less than 1"))
    ensures !MissingText(description) && periodForNextAction.Some? && noticeEvery >= 1 && advanceNotice >= 1
            && lastActioned.None? ==>
              r == Err(IllegalArgument("MonitoredItem: lastActioned was null"))
    ensures !MissingText(description) && periodForNextAction.Some? && noticeEvery >= 1 && advanceNotice >= 1
            && lastActioned.Some? && periodForNextNotice.None? ==>
              r == Err(IllegalArgument("MonitoredItem: periodForNextNotice was null"))
    ensures r.Ok? ==> Scheduled(r.value) && r.value.emailSentOn == None && r.value.owner == None
    ensures r.Ok? ==> r.value.description == description.value && r.value.lastActionPerformed == lastActioned.value
    ensures r.Ok? ==> r.value.periodForNextAction == periodForNextAction.value && r.value.noticeEvery == noticeEvery
    ensures r.Ok? ==> r.value.periodForNextNotice == periodForNextNotice.value && r.value.advanceNotice == advanceNotice
  {
    if MissingText(description) then Err(IllegalArgument("MonitoredItem: description not specified"))
    else if periodForNextAction.None? then Err(IllegalArgument("MonitoredItem: period was null"))
    else if noticeEvery < 1 then Err(IllegalArgument("MonitoredItem: noticeEvery less than 1"))
    else if advanceNotice < 1 then Err(IllegalArgument("MonitoredItem: advanceNotice less than 1"))
    else if lastActioned.None? then Err(IllegalArgument("MonitoredItem: lastActioned was null"))
    else if periodForNextNotice.None? then Err(IllegalArgument("MonitoredItem: periodForNextNotice was null"))
    else Ok(Initialize(description.value, lastActioned.value, periodForNextAction.value, noticeEvery,
                       advanceNotice, periodForNextNotice.value, None))
  }

  // ---------------------------------------------------------------------------
  // Setters
  // ---------------------------------------------------------------------------

  /** `recalculateNextNotice`: recompute the notice date from the current next-action date. */
  function RecalculateNextNotice(m: MonitoredItem): (r: MonitoredItem)
    ensures r.timeForNextNotice == Retreat(m.periodForNextNotice, m.advanceNotice, m.timeForNextAction)
    ensures r.(timeForNextNotice := m.timeForNextNotice) == m
  {
    m.(timeForNextNotice := Retreat(m.periodForNextNotice, m.advanceNotice, m.timeForNextAction))
  }

  /** `recalculateTimes`: recompute the next action, then the next notice. */
  function RecalculateTimes(m: MonitoredItem): (r: MonitoredItem)
    ensures Scheduled(r)
    ensures r.(timeForNextAction := m.timeForNextAction, timeForNextNotice := m.timeForNextNotice) == m
  {
    RecalculateNextNotice(m.(timeForNextAction := Advance(m.periodForNextAction, m.noticeEvery, m.lastActionPerformed)))
  }

  /** Changing the recurrence unit recomputes both derived dates and touches nothing else. */
  function SetPeriodForNextAction(m: MonitoredItem, period: Period): (r: MonitoredItem)
    ensures Scheduled(r) && r.periodForNextAction == period
    ensures r.(periodForNextAction := m.periodForNextAction, timeForNextAction := m.timeForNextAction,
               timeForNextNotice := m.timeForNextNotice) == m
  {
    RecalculateTimes(m.(periodForNextAction := period))
  }

  /** Changing the recurrence count recomputes both derived dates; the count is not validated. */
  function SetNoticeEvery(m: MonitoredItem, noticeEvery: Int32): (r: MonitoredItem)
    ensures Scheduled(r) && r.noticeEvery == noticeEvery
    ensures r.(noticeEvery := m.noticeEvery, timeForNextAction := m.timeForNextAction,
               timeForNextNotice := m.timeForNextNotice) == m
  {
    RecalculateTimes(m.(noticeEvery := noticeEvery))
  }

  /** Recording that the task was done on `when` restarts the schedule from that date. */
  function ActionPerformed(m: MonitoredItem, when: LocalDate): (r: MonitoredItem)
    ensures Scheduled(r) && r.lastActionPerformed == when
    ensures r.(lastActionPerformed := m.lastActionPerformed, timeForNextAction := m.timeForNextAction,
               timeForNextNotice := m.timeForNextNotice) == m
  {
    RecalculateTimes(m.(lastActionPerformed := when))
  }

  /**
   * Changing the notice count recomputes only the notice date: the last action and the
   * next action stay as they were, so a scheduled item stays scheduled.
   */
  function SetAdvanceNotice(m: MonitoredItem, advanceNotice: Int32): (r: MonitoredItem)
    ensures r.advanceNotice == advanceNotice
    ensures r.(advanceNotice := m.advanceNotice, timeForNextNotice := m.timeForNextNotice) == m
    ensures Scheduled(m) ==> Scheduled(r)
  {
    RecalculateNextNotice(m.(advanceNotice := advanceNotice))
  }

  /** Changing the notice unit recomputes only the notice date. */
  function SetPeriodForNextNotice(m: MonitoredItem, period: Period): (r: MonitoredItem)
    ensures r.periodForNextNotice == period
    ensures r.(periodForNextNotice := m.periodForNextNotice, timeForNextNotice := m.timeForNextNotice) == m
    ensures Scheduled(m) ==> Scheduled(r)
  {
    RecalculateNextNotice(m.(periodForNextNotice := period))
  }

  /** Recording the reminder e-mail changes no date of the schedule. */
  function SetEmailSentOn(m: MonitoredItem, when: Option<LocalDate>): (r: MonitoredItem)
    ensures r.emailSentOn == when && r.(emailSentOn := m.emailSentOn) == m
    ensures Scheduled(m) ==> Scheduled(r)
  {
    m.(emailSentOn := when)
  }

  /** `setDescription`: no validation and no recalculation. */
  function SetDescription(m: MonitoredItem, description: string): (r: MonitoredItem)
    ensures r.description == description && r.(description := m.description) == m
    ensures Scheduled(m) ==> Scheduled(r)
  {
    m.(description := description)
  }

  /** `setOwner`: the item now belongs to the property with this address. */
  function SetOwner(m: MonitoredItem, owner: Address): (r: MonitoredItem)
    ensures r.owner == Some(owner) && r.(owner := m.owner) == m
    ensures Scheduled(m) ==> Scheduled(r)
  {
    m.(owner := Some(owner))
  }

  // ---------------------------------------------------------------------------
  // Due dates
  // ---------------------------------------------------------------------------

  /**
   * `overdue(today)`: today is strictly after the next-action date, which makes an item
   * overdue exactly on the days whose epoch day is past it.
   */
  predicate Overdue(m: MonitoredItem, today: LocalDate): (r: bool)
    ensures r <==> EpochDay(today) > EpochDay(m.timeForNextAction)
  {
    CompareAgreesWithEpochDay(today, m.timeForNextAction);
    IsAfter(today, m.timeForNextAction)
  }

  /** `noticeDue(today)`: today is strictly after the next-notice date. */
  predicate NoticeDue(m: MonitoredItem, today: LocalDate): (r: bool)
    ensures r <==> EpochDay(today) > EpochDay(m.timeForNextNotice)
  {
    CompareAgreesWithEpochDay(today, m.timeForNextNotice);
    IsAfter(today, m.timeForNextNotice)
  }

  /** The due date itself is not yet overdue; the day after it is. */
  lemma DueBoundaries(m: MonitoredItem)
    ensures !Overdue(m, m.timeForNextAction) && Overdue(m, NextDay(m.timeForNextAction))
    ensures !NoticeDue(m, m.timeForNextNotice) && NoticeDue(m, NextDay(m.timeForNextNotice))
    ensures !Overdue(m, PrevDay(m.timeForNextAction)) && !NoticeDue(m, PrevDay(m.timeForNextNotice))
  {
  }

  /**
   * In a scheduled item with positive counts the next action lies strictly after the last
   * action, the notice strictly before the next action, and an item is never overdue on the
   * day it was last actioned.
   */
  lemma ScheduleOrder(m: MonitoredItem)
    requires Scheduled(m) && m.noticeEvery >= 1 && m.advanceNotice >= 1
    ensures IsAfter(m.timeForNextAction, m.lastActionPerformed)
    ensures IsBefore(m.timeForNextNotice, m.timeForNextAction)
    ensures !Overdue(m, m.lastActionPerformed)
  {
    AdvanceRetreatStrict(m.periodForNextAction, m.noticeEvery, m.lastActionPerformed);
    AdvanceRetreatStrict(m.periodForNextNotice, m.advanceNotice, m.timeForNextAction);
  }

  /** Performing the action clears an overdue item for the day it was done. */
  lemma ActionClearsOverdue(m: MonitoredItem, when: LocalDate)
    requires m.noticeEvery >= 1
    ensures !Overdue(ActionPerformed(m, when), when)
  {
    AdvanceRetreatStrict(m.periodForNextAction, m.noticeEvery, when);
  }

  /**
   * The schedule the query tests use: a yearly task with a one-week notice, last done on
   * `start`, is next due on `start` plus one year, with the reminder one week earlier.
   */
  lemma YearlyWithWeeklyNotice(start: LocalDate)
    ensures var r := Construct(Some("item1"), Some(Yearly), 1, Some(start), 1, Some(Weekly));
            && r.Ok?
            && r.value.timeForNextAction == PlusYears(start, 1)
            && r.value.timeForNextNotice == MinusWeeks(PlusYears(start, 1), 1)
  {
    assert !IsBlank("item1") by { assert !IsWhitespace("item1"[0]); }
  }

  /**
   * The notice date can fall before the last action: a yearly task with a two-year notice
   * is announced a year before it was last done.
   */
  lemma NoticeCanPrecedeLastAction()
    ensures var r := Construct(Some("gutters"), Some(Yearly), 1, Some(Date(2020, 6, 1)), 2, Some(Yearly));
            && r.Ok?
            && r.value.timeForNextNotice == Date(2019, 6, 1)
            && IsBefore(r.value.timeForNextNotice, r.value.lastActionPerformed)
  {
    assert !IsBlank("gutters") by { assert !IsWhitespace("gutters"[0]); }
  }

  // ---------------------------------------------------------------------------
  // Identity and order
  // ---------------------------------------------------------------------------

  /** `equals` and `hashCode`: the description alone. */
  predicate SameItem(a: MonitoredItem, b: MonitoredItem) {
    a.description == b.description
  }

  /** `compareTo`: the next-action dates alone, ordered as their epoch days are. */
  function CompareItems(a: MonitoredItem, b: MonitoredItem): (r: int)
    ensures r < 0 <==> EpochDay(a.timeForNextAction) < EpochDay(b.timeForNextAction)
    ensures r == 0 <==> a.timeForNextAction == b.timeForNextAction
    ensures r > 0 <==> EpochDay(a.timeForNextAction) > EpochDay(b.timeForNextAction)
  {
    CompareAgreesWithEpochDay(a.timeForNextAction, b.timeForNextAction);
    CompareDates(a.timeForNextAction, b.timeForNextAction)
  }

  /** `toString`: the description. */
  function ItemText(m: MonitoredItem): string {
    m.description
  }

  /** The sort order used for item lists: `compareTo <= 0`. */
  predicate ItemLeq(a: MonitoredItem, b: MonitoredItem) {
    CompareItems(a, b) <= 0
  }

  /** `compareTo` is zero exactly when the next-action dates coincide, and it is antisymmetric. */
  lemma CompareItemsMeaning(a: MonitoredItem, b: MonitoredItem)
    ensures CompareItems(a, b) == 0 <==> a.timeForNextAction == b.timeForNextAction
    ensures CompareItems(a, b) < 0 <==> CompareItems(b, a) > 0
  {
    CompareAgreesWithEpochDay(a.timeForNextAction, b.timeForNextAction);
    CompareAgreesWithEpochDay(b.timeForNextAction, a.timeForNextAction);
  }

  /** Two different items due on the same day compare as equal: `compareTo` is inconsistent with `equals`. */
  lemma CompareInconsistentWithEquals(a: MonitoredItem)
    ensures var b := a.(description := a.description + "x");
            CompareItems(a, b) == 0 && !SameItem(a, b)
  {
    var b := a.(description := a.description + "x");
    assert |b.description| != |a.description|;
  }

  lemma ItemOrderIsTotalPreorder()
    ensures Sorting.TotalPreorder(ItemLeq)
  {
    forall a, b ensures ItemLeq(a, b) || ItemLeq(b, a) {
      CompareAgreesWithEpochDay(a.timeForNextAction, b.timeForNextAction);
      CompareAgreesWithEpochDay(b.timeForNextAction, a.timeForNextAction);
    }
    forall a, b, c | ItemLeq(a, b) && ItemLeq(b, c) ensures ItemLeq(a, c) {
      CompareAgreesWithEpochDay(a.timeForNextAction, b.timeForNextAction);
      CompareAgreesWithEpochDay(b.timeForNextAction, c.timeForNextAction);
      CompareAgreesWithEpochDay(a.timeForNextAction, c.timeForNextAction);
    }
  }

  /** Item lists sorted by next-action date. */
  function SortItems(items: seq<MonitoredItem>): (r: seq<MonitoredItem>)
    ensures Sorting.Sorted(r, ItemLeq) && multiset(r) == multiset(items)
  {
    ItemOrderIsTotalPreorder();
    Sorting.Sort(items, ItemLeq)
  }

  // ---------------------------------------------------------------------------
  // The persisted record
  // ---------------------------------------------------------------------------

  /** The texts of a record's fields, before any of them is parsed. */
  datatype ItemTexts = ItemTexts(
    description: string,
    periodForNextAction: string,
    noticeEvery: string,
    lastActioned: string,
    advanceNotice: string,
    periodForNextNotice: string,
    emailSentOn: Option<string>)

  /** The texts `buildElement` writes: periods by name, counts in decimal, dates as ISO local dates. */
  function TextsOf(m: MonitoredItem): ItemTexts {
    ItemTexts(m.description, PeriodName(m.periodForNextAction), IntText(m.noticeEvery),
              IsoText(m.lastActionPerformed), IntText(m.advanceNotice), PeriodName(m.periodForNextNotice),
              if m.emailSentOn.Some? then Some(IsoText(m.emailSentOn.value)) else None)
  }

  /** The fields in the order `buildElement` appends them; the e-mail field only when present. */
  function Fields(t: ItemTexts): (r: Element)
    ensures Occurrences(r, Tags.EMAIL_SENT_ON) > 0 <==> t.emailSentOn.Some?
    ensures forall i :: 0 <= i < |r| ==> r[i].tag in InputTags()
  {
    var inputs := [
      Field(Tags.DESCRIPTION, t.description),
      Field(Tags.PERIOD_FOR_NEXT_ACTION, t.periodForNextAction),
      Field(Tags.NOTICE_EVERY, t.noticeEvery),
      Field(Tags.LAST_ACTIONED, t.lastActioned),
      Field(Tags.ADVANCE_NOTICE, t.advanceNotice),
      Field(Tags.PERIOD_FOR_NEXT_NOTICE, t.periodForNextNotice) ];
    var email := if t.emailSentOn.Some? then [Field(Tags.EMAIL_SENT_ON, t.emailSentOn.value)] else [];
    OccurrencesAbsent(inputs, Tags.EMAIL_SENT_ON);
    OccurrencesAppend(inputs, email, Tags.EMAIL_SENT_ON);
    inputs + email
  }

  /**
   * `buildElement`: the six inputs, then the e-mail date if there is one. The derived
   * dates and the owner are not written.
   */
  function Encode(m: MonitoredItem): (r: Element)
    ensures Occurrences(r, Tags.EMAIL_SENT_ON) > 0 <==> m.emailSentOn.Some?
    ensures forall i :: 0 <= i < |r| ==> r[i].tag in InputTags()
  {
    var t := TextsOf(m);
    assert t.emailSentOn.Some? <==> m.emailSentOn.Some?;
    Fields(t)
  }

  /** The tags of the fields a record may hold: none for the derived dates or the owner. */
  function InputTags(): set<string> {
    { Tags.DESCRIPTION, Tags.PERIOD_FOR_NEXT_ACTION, Tags.NOTICE_EVERY, Tags.LAST_ACTIONED,
      Tags.ADVANCE_NOTICE, Tags.PERIOD_FOR_NEXT_NOTICE, Tags.EMAIL_SENT_ON }
  }

  /** The fields every record must carry. */
  predicate HasMandatoryFields(e: Element) {
    && Occurrences(e, Tags.DESCRIPTION) > 0
    && Occurrences(e, Tags.PERIOD_FOR_NEXT_ACTION) > 0
    && Occurrences(e, Tags.NOTICE_EVERY) > 0
    && Occurrences(e, Tags.LAST_ACTIONED) > 0
    && Occurrences(e, Tags.ADVANCE_NOTICE) > 0
    && Occurrences(e, Tags.PERIOD_FOR_NEXT_NOTICE) > 0
  }

  /**
   * The element constructor's reads: the first occurrence of each mandatory field (a
   * missing one makes `item(0)` null and the read throw), and the e-mail date only when
   * the field occurs.
   */
  function ReadTexts(e: Element): (r: Result<ItemTexts, Failure>)
    ensures r.Err? <==> !HasMandatoryFields(e)
    ensures r.Err? ==> r.error == NullPointer
    ensures r.Ok? ==> (r.value.emailSentOn.Some? <==> Occurrences(e, Tags.EMAIL_SENT_ON) > 0)
    ensures r.Ok? ==> && Some(r.value.description) == FirstText(e, Tags.DESCRIPTION)
                      && Some(r.value.periodForNextAction) == FirstText(e, Tags.PERIOD_FOR_NEXT_ACTION)
                      && Some(r.value.noticeEvery) == FirstText(e, Tags.NOTICE_EVERY)
                      && Some(r.value.lastActioned) == FirstText(e, Tags.LAST_ACTIONED)
                      && Some(r.value.advanceNotice) == FirstText(e, Tags.ADVANCE_NOTICE)
                      && Some(r.value.periodForNextNotice) == FirstText(e, Tags.PERIOD_FOR_NEXT_NOTICE)
                      && r.value.emailSentOn == FirstText(e, Tags.EMAIL_SENT_ON)
  {
    var description :- Item0Text(e, Tags.DESCRIPTION);
    var periodForNextAction :- Item0Text(e, Tags.PERIOD_FOR_NEXT_ACTION);
    var noticeEvery :- Item0Text(e, Tags.NOTICE_EVERY);
    var lastActioned :- Item0Text(e, Tags.LAST_ACTIONED);
    var advanceNotice :- Item0Text(e, Tags.ADVANCE_NOTICE);
    var periodForNextNotice :- Item0Text(e, Tags.PERIOD_FOR_NEXT_NOTICE);
    var emailSentOn := if Occurrences(e, Tags.EMAIL_SENT_ON) > 0 then FirstText(e, Tags.EMAIL_SENT_ON) else None;
    Ok(ItemTexts(description, periodForNextAction, noticeEvery, lastActioned, advanceNotice,
                 periodForNextNotice, emailSentOn))
  }

  /** The optional e-mail date text, parsed only when the field was present. */
  function ParseEmailSentOn(text: Option<string>): (r: Result<Option<LocalDate>, Failure>)
    ensures text.None? ==> r == Ok(None)
    ensures text.Some? ==> (r.Ok? <==> ParseLocalDate(text.value).Ok?)
    ensures text.Some? && r.Ok? ==> r.value == Some(ParseLocalDate(text.value).value)
  {
    match text
    case None => Ok(None)
    case Some(s) =>
      var d :- ParseLocalDate(s);
      Ok(Some(d))
  }

  /** Every text parses: the two dates as ISO local dates, the periods by name, the counts as `int`. */
  predicate TextsParse(t: ItemTexts) {
    && ParseLocalDate(t.lastActioned).Ok?
    && PeriodValueOf(t.periodForNextAction).Ok?
    && ParseInt(t.noticeEvery).Ok?
    && ParseInt(t.advanceNotice).Ok?
    && PeriodValueOf(t.periodForNextNotice).Ok?
    && (t.emailSentOn.Some? ==> ParseLocalDate(t.emailSentOn.value).Ok?)
  }

  /**
   * The element constructor's parsing, in the source's order: last-actioned date, action
   * period, the two counts, notice period, e-mail date. Nothing is validated, so a record
   * may yield an item the validating constructor refuses.
   */
  function ParseTexts(t: ItemTexts): (r: Result<MonitoredItem, Failure>)
    ensures r.Ok? <==> TextsParse(t)
    ensures ParseLocalDate(t.lastActioned).Err? ==> r == Err(DateTimeParse(t.lastActioned))
    ensures ParseLocalDate(t.lastActioned).Ok? && PeriodValueOf(t.periodForNextAction).Err? ==>
              r == Err(NoEnumConstant(t.periodForNextAction))
    ensures (&& ParseLocalDate(t.lastActioned).Ok? && PeriodValueOf(t.periodForNextAction).Ok?
             && ParseInt(t.noticeEvery).Err?) ==> r == Err(NumberFormat(t.noticeEvery))
    ensures (&& ParseLocalDate(t.lastActioned).Ok? && PeriodValueOf(t.periodForNextAction).Ok?
             && ParseInt(t.noticeEvery).Ok? && ParseInt(t.advanceNotice).Err?) ==> r == Err(NumberFormat(t.advanceNotice))
    ensures (&& ParseLocalDate(t.lastActioned).Ok? && PeriodValueOf(t.periodForNextAction).Ok?
             && ParseInt(t.noticeEvery).Ok? && ParseInt(t.advanceNotice).Ok?
             && PeriodValueOf(t.periodForNextNotice).Err?) ==> r == Err(NoEnumConstant(t.periodForNextNotice))
    ensures TextsParse(t.(emailSentOn := None)) && t.emailSentOn.Some? && ParseLocalDate(t.emailSentOn.value).Err? ==>
              r == Err(DateTimeParse(t.emailSentOn.value))
    ensures r.Ok? ==> Scheduled(r.value) && r.value.owner == None && r.value.description == t.description
    ensures r.Ok? ==> && Ok(r.value.lastActionPerformed) == ParseLocalDate(t.lastActioned)
                      && PeriodName(r.value.periodForNextAction) == t.periodForNextAction
                      && Ok(r.value.noticeEvery) == ParseInt(t.noticeEvery)
                      && Ok(r.value.advanceNotice) == ParseInt(t.advanceNotice)
                      && PeriodName(r.value.periodForNextNotice) == t.periodForNextNotice
    ensures r.Ok? ==> (r.value.emailSentOn.Some? <==> t.emailSentOn.Some?)
    ensures r.Ok? && t.emailSentOn.Some? ==> ParseLocalDate(t.emailSentOn.value) == Ok(r.value.emailSentOn.value)
  {
    var lastDate :- ParseLocalDate(t.lastActioned);
    var actionPeriod :- PeriodValueOf(t.periodForNextAction);
    var every :- ParseInt(t.noticeEvery);
    var advance :- ParseInt(t.advanceNotice);
    var noticePeriod :- PeriodValueOf(t.periodForNextNotice);
    var emailDate :- ParseEmailSentOn(t.emailSentOn);
    Ok(Initialize(t.description, lastDate, actionPeriod, every, advance, noticePeriod, emailDate))
  }

  /** The element constructor: read the field texts, then parse them. */
  function Decode(e: Element): (r: Result<MonitoredItem, Failure>)
    ensures !HasMandatoryFields(e) ==> r == Err(NullPointer)
    ensures r.Ok? ==> Scheduled(r.value) && r.value.owner == None
    ensures r.Ok? ==> (r.value.emailSentOn.Some? <==> Occurrences(e, Tags.EMAIL_SENT_ON) > 0)
    ensures HasMandatoryFields(e) ==> (r.Ok? <==> ReadTexts(e).Ok? && TextsParse(ReadTexts(e).value))
    ensures HasMandatoryFields(e) && r.Err? ==>
              || (FirstText(e, Tags.LAST_ACTIONED).Some? && r.error == DateTimeParse(FirstText(e, Tags.LAST_ACTIONED).value))
              || (FirstText(e, Tags.PERIOD_FOR_NEXT_ACTION).Some? && r.error == NoEnumConstant(FirstText(e, Tags.PERIOD_FOR_NEXT_ACTION).value))
              || (FirstText(e, Tags.NOTICE_EVERY).Some? && r.error == NumberFormat(FirstText(e, Tags.NOTICE_EVERY).value))
              || (FirstText(e, Tags.ADVANCE_NOTICE).Some? && r.error == NumberFormat(FirstText(e, Tags.ADVANCE_NOTICE).value))
              || (FirstText(e, Tags.PERIOD_FOR_NEXT_NOTICE).Some? && r.error == NoEnumConstant(FirstText(e, Tags.PERIOD_FOR_NEXT_NOTICE).value))
              || (FirstText(e, Tags.EMAIL_SENT_ON).Some? && r.error == DateTimeParse(FirstText(e, Tags.EMAIL_SENT_ON).value))
    ensures r.Ok? ==> && Some(r.value.description) == FirstText(e, Tags.DESCRIPTION)
                      && Some(PeriodName(r.value.periodForNextAction)) == FirstText(e, Tags.PERIOD_FOR_NEXT_ACTION)
                      && Some(PeriodName(r.value.periodForNextNotice)) == FirstText(e, Tags.PERIOD_FOR_NEXT_NOTICE)
    ensures r.Ok? ==> && FirstText(e, Tags.NOTICE_EVERY).Some?
                      && ParseInt(FirstText(e, Tags.NOTICE_EVERY).value) == Ok(r.value.noticeEvery)
    ensures r.Ok? ==> && FirstText(e, Tags.ADVANCE_NOTICE).Some?
                      && ParseInt(FirstText(e, Tags.ADVANCE_NOTICE).value) == Ok(r.value.advanceNotice)
    ensures r.Ok? ==> && FirstText(e, Tags.LAST_ACTIONED).Some?
                      && ParseLocalDate(FirstText(e, Tags.LAST_ACTIONED).value) == Ok(r.value.lastActionPerformed)
    ensures r.Ok? && r.value.emailSentOn.Some? ==>
              && FirstText(e, Tags.EMAIL_SENT_ON).Some?
              && ParseLocalDate(FirstText(e, Tags.EMAIL_SENT_ON).value) == Ok(r.value.emailSentOn.value)
  {
    var t :- ReadTexts(e);
    ParseTexts(t)
  }

  /** The six mandatory fields of a written record sit at indices 0 to 5, in the order written. */
  lemma MandatoryFieldsAt(t: ItemTexts)
    ensures var e := Fields(t);
            && FirstText(e, Tags.DESCRIPTION) == Some(t.description)
            && FirstText(e, Tags.PERIOD_FOR_NEXT_ACTION) == Some(t.periodForNextAction)
            && FirstText(e, Tags.NOTICE_EVERY) == Some(t.noticeEvery)
  {
    var e := Fields(t);
    FirstTextAt(e, Tags.DESCRIPTION, 0);
    FirstTextAt(e, Tags.PERIOD_FOR_NEXT_ACTION, 1);
    FirstTextAt(e, Tags.NOTICE_EVERY, 2);
  }

  lemma MandatoryFieldsAtRest(t: ItemTexts)
    ensures var e := Fields(t);
            && FirstText(e, Tags.LAST_ACTIONED) == Some(t.lastActioned)
            && FirstText(e, Tags.ADVANCE_NOTICE) == Some(t.advanceNotice)
            && FirstText(e, Tags.PERIOD_FOR_NEXT_NOTICE) == Some(t.periodForNextNotice)
  {
    var e := Fields(t);
    FirstTextAt(e, Tags.LAST_ACTIONED, 3);
    FirstTextAt(e, Tags.ADVANCE_NOTICE, 4);
    FirstTextAt(e, Tags.PERIOD_FOR_NEXT_NOTICE, 5);
  }

  lemma EmailFieldAt(t: ItemTexts)
    requires t.emailSentOn.Some?
    ensures FirstText(Fields(t), Tags.EMAIL_SENT_ON) == t.emailSentOn
  {
    FirstTextAt(Fields(t), Tags.EMAIL_SENT_ON, 6);
  }

  /** Reading a written record finds exactly the texts that were written. */
  lemma ReadFields(t: ItemTexts)
    ensures ReadTexts(Fields(t)) == Ok(t)
  {
    MandatoryFieldsAt(t);
    MandatoryFieldsAtRest(t);
    if t.emailSentOn.Some? {
      EmailFieldAt(t);
    }
  }

  /** Parsing the written texts of a scheduled item recomputes the same item without its owner. */
  lemma ParseTextsOf(m: MonitoredItem)
    requires Scheduled(m)
    requires InYearRange(m.lastActionPerformed.year)
    requires m.emailSentOn.Some? ==> InYearRange(m.emailSentOn.value.year)
    ensures ParseTexts(TextsOf(m)) == Ok(m.(owner := None))
  {
    IsoRoundTrip(m.lastActionPerformed, 10, Strict);
    if m.emailSentOn.Some? {
      IsoRoundTrip(m.emailSentOn.value, 10, Strict);
    }
    IntTextRoundTrip(m.noticeEvery);
    IntTextRoundTrip(m.advanceNotice);
    PeriodRoundTrip(m.periodForNextAction);
    PeriodRoundTrip(m.periodForNextNotice);
  }

  /**
   * Reading back a written record gives the same item, derived dates included, without its
   * owner; dates outside the years a parser accepts are excluded.
   */
  lemma EncodeDecodeRoundTrip(m: MonitoredItem)
    requires Scheduled(m)
    requires InYearRange(m.lastActionPerformed.year)
    requires m.emailSentOn.Some? ==> InYearRange(m.emailSentOn.value.year)
    ensures Decode(Encode(m)) == Ok(m.(owner := None))
  {
    ReadFields(TextsOf(m));
    ParseTextsOf(m);
  }

  /**
   * The record path skips validation: an item whose recurrence count is below one writes
   * a record that reads back without complaint, although the constructor refuses those inputs.
   */
  lemma DecodeSkipsValidation(m: MonitoredItem)
    requires Scheduled(m) && m.noticeEvery < 1
    requires InYearRange(m.lastActionPerformed.year)
    requires m.emailSentOn.Some? ==> InYearRange(m.emailSentOn.value.year)
    ensures Decode(Encode(m)).Ok?
    ensures Construct(Some(m.description), Some(m.periodForNextAction), m.noticeEvery,
                      Some(m.lastActionPerformed), m.advanceNotice, Some(m.periodForNextNotice)).Err?
  {
    EncodeDecodeRoundTrip(m);
  }
}
