/**
 * Date texts: `LocalDate.toString` / `ISO_LOCAL_DATE` (`uuuu-MM-dd`, the full-date of
 * RFC 3339 section 5.6 for four-digit years) and the `dd/MM/uuuu` display form, with
 * the strict and smart resolver styles the parsers use.
 */
module DateText {
  import opened Wrappers
  import opened Failures
  import opened Digits
  import opened Calendar

  /** `Year.MIN_VALUE` and `Year.MAX_VALUE`: the years a parsed date may carry. */
  const MIN_YEAR: int := -999_999_999
  const MAX_YEAR: int := 999_999_999

  predicate InYearRange(year: int) {
    MIN_YEAR <= year <= MAX_YEAR
  }

  // ---------------------------------------------------------------------------
  // Printing
  // ---------------------------------------------------------------------------

  /**
   * A year printed with minimum width 4 and `SignStyle.EXCEEDS_PAD`: zero-padded to four
   * digits, a `-` for negative years, and a `+` once the year needs more than four digits.
   */
  function YearText(year: int): string {
    if year >= 10000 then "+" + NatText(year)
    else if year < 0 then "-" + PadLeft(NatText(-year), 4)
    else PadLeft(NatText(year), 4)
  }

  /** A month or day printed with fixed width 2. */
  function TwoDigits(n: nat): string {
    PadLeft(NatText(n), 2)
  }

  /** `LocalDate.toString`, equal to formatting with `uuuu-MM-dd`. */
  function IsoText(d: LocalDate): string {
    YearText(d.year) + "-" + TwoDigits(d.month) + "-" + TwoDigits(d.day)
  }

  /** Formatting with the display pattern `dd/MM/uuuu`. */
  function UiText(d: LocalDate): string {
    TwoDigits(d.day) + "/" + TwoDigits(d.month) + "/" + YearText(d.year)
  }

  // ---------------------------------------------------------------------------
  // Parsing
  // ---------------------------------------------------------------------------

  /**
   * Strict parsing of a year field with minimum width 4, maximum width `maxWidth` and
   * `SignStyle.EXCEEDS_PAD`: a `+` is accepted only before more than four digits, a `-`
   * before at least four digits of a nonzero value, and an unsigned year has exactly four digits.
   */
  function ParseYear(s: string, maxWidth: nat): Option<int> {
    if |s| == 0 then None
    else if s[0] == '+' then
      if 4 < |s| - 1 <= maxWidth && AllDigits(s[1..]) then Some(TextValue(s[1..])) else None
    else if s[0] == '-' then
      if 4 <= |s| - 1 <= maxWidth && AllDigits(s[1..]) && TextValue(s[1..]) != 0 then Some(-(TextValue(s[1..]) as int))
      else None
    else if |s| == 4 && AllDigits(s) then Some(TextValue(s))
    else None
  }

  function ParseTwoDigits(s: string): Option<nat> {
    if |s| == 2 && AllDigits(s) then Some(TextValue(s)) else None
  }

  /** `ResolverStyle`: `LocalDate.parse` resolves strictly, formatters from `ofPattern` smartly. */
  datatype ResolverStyle = Strict | Smart

  /**
   * Turning parsed fields into a date. The year must be in range, the month in 1..12 and the
   * day in 1..31; a strict resolver then rejects a day past the end of the month, while a
   * smart resolver moves it back to the month's last day.
   */
  function Resolve(year: int, month: int, day: int, style: ResolverStyle, text: string): (r: Result<LocalDate, Failure>)
    ensures r.Err? ==> r.error == DateTimeParse(text)
    ensures r.Ok? ==> InYearRange(r.value.year) && r.value.year == year && r.value.month == month
    ensures r.Ok? && style == Strict ==> r.value.day == day
    ensures r.Ok? <==> InYearRange(year) && 1 <= month <= 12 && 1 <= day <= 31
                       && (style == Strict ==> day <= LengthOfMonth(year, month))
  {
    if !InYearRange(year) || !(1 <= month <= 12) || !(1 <= day <= 31) then Err(DateTimeParse(text))
    else if style.Smart? then Ok(ResolvePreviousValid(year, month, day))
    else if day <= LengthOfMonth(year, month) then Ok(Date(year, month, day))
    else Err(DateTimeParse(text))
  }

  /** Parsing `uuuu-MM-dd`: the text ends in `-MM-dd` and everything before it is the year field. */
  function ParseIso(s: string, maxWidth: nat, style: ResolverStyle): (r: Result<LocalDate, Failure>)
    ensures r.Err? ==> r.error == DateTimeParse(s)
    ensures r.Ok? ==> InYearRange(r.value.year)
  {
    if |s| < 6 || s[|s| - 6] != '-' || s[|s| - 3] != '-' then Err(DateTimeParse(s))
    else
      match (ParseYear(s[..|s| - 6], maxWidth), ParseTwoDigits(s[|s| - 5..|s| - 3]), ParseTwoDigits(s[|s| - 2..]))
      case (Some(y), Some(m), Some(d)) => Resolve(y, m, d, style, s)
      case _ => Err(DateTimeParse(s))
  }

  /** Parsing `dd/MM/uuuu`: the text starts with `dd/MM/` and everything after it is the year field. */
  function ParseUi(s: string, style: ResolverStyle): (r: Result<LocalDate, Failure>)
    ensures r.Err? ==> r.error == DateTimeParse(s)
    ensures r.Ok? ==> InYearRange(r.value.year)
  {
    if |s| < 6 || s[2] != '/' || s[5] != '/' then Err(DateTimeParse(s))
    else
      match (ParseTwoDigits(s[..2]), ParseTwoDigits(s[3..5]), ParseYear(s[6..], 19))
      case (Some(d), Some(m), Some(y)) => Resolve(y, m, d, style, s)
      case _ => Err(DateTimeParse(s))
  }

  /** `LocalDate.parse(text)`: `ISO_LOCAL_DATE`, year width at most 10, strict. */
  function ParseLocalDate(s: string): Result<LocalDate, Failure> {
    ParseIso(s, 10, Strict)
  }

  /** Parsing with the storage pattern `uuuu-MM-dd` (year width at most 19, smart). */
  function ParseStorageDate(s: string): Result<LocalDate, Failure> {
    ParseIso(s, 19, Smart)
  }

  /** Parsing with the display pattern `dd/MM/uuuu` (year width at most 19, smart). */
  function ParseUiDate(s: string): Result<LocalDate, Failure> {
    ParseUi(s, Smart)
  }

  /** An inventory purchase date going to storage: `dd/MM/uuuu` re-rendered as `uuuu-MM-dd`. */
  function UiToStorage(s: string): (r: Result<string, Failure>)
    ensures r.Ok? <==> ParseUiDate(s).Ok?
    ensures r.Err? ==> r.error == DateTimeParse(s)
    ensures r.Ok? ==> ParseStorageDate(r.value) == ParseUiDate(s)
  {
    var d :- ParseUiDate(s);
    IsoRoundTrip(d, 19, Smart);
    Ok(IsoText(d))
  }

  /** A stored purchase date coming back: `uuuu-MM-dd` re-rendered as `dd/MM/uuuu`. */
  function StorageToUi(s: string): (r: Result<string, Failure>)
    ensures r.Ok? <==> ParseStorageDate(s).Ok?
    ensures r.Err? ==> r.error == DateTimeParse(s)
    ensures r.Ok? ==> ParseUiDate(r.value) == ParseStorageDate(s)
  {
    var d :- ParseStorageDate(s);
    UiRoundTrip(d, Smart);
    Ok(UiText(d))
  }

  // ---------------------------------------------------------------------------
  // Round trips
  // ---------------------------------------------------------------------------

  lemma Pow10Values()
    ensures Pow10(2) == 100 && Pow10(4) == 10000 && Pow10(9) == 1_000_000_000
  {
    assert Pow10(1) == 10;
    assert Pow10(2) == 100;
    assert Pow10(3) == 1000;
    assert Pow10(4) == 10000;
    assert Pow10(5) == 100000;
    assert Pow10(6) == 1000000;
    assert Pow10(7) == 10000000;
    assert Pow10(8) == 100000000;
  }

  lemma LongYearRoundTrip(year: int, maxWidth: nat)
    requires 10000 <= year <= MAX_YEAR && maxWidth >= 10
    ensures ParseYear(YearText(year), maxWidth) == Some(year)
  {
    var s := YearText(year);
    Pow10Values();
    NatTextLength(year, 4);
    NatTextLength(year, 9);
    NatTextRoundTrip(year);
    assert s[1..] == NatText(year);
  }

  lemma NegativeYearRoundTrip(year: int, maxWidth: nat)
    requires MIN_YEAR <= year < 0 && maxWidth >= 10
    ensures ParseYear(YearText(year), maxWidth) == Some(year)
  {
    var n: nat := -year;
    var digits := PadLeft(NatText(n), 4);
    assert YearText(year) == "-" + digits;
    Pow10Values();
    NatTextLength(n, 9);
    PaddedRoundTrip(n, 4);
    assert 4 <= |digits| <= 9;
    ParseNegativeYear("-" + digits, maxWidth, n);
  }

  /** A `-` followed by four to `maxWidth` digits of a non-zero value reads back negated. */
  lemma ParseNegativeYear(s: string, maxWidth: nat, v: nat)
    requires 1 <= |s| && s[0] == '-' && 4 <= |s| - 1 <= maxWidth
    requires AllDigits(s[1..]) && TextValue(s[1..]) == v != 0
    ensures ParseYear(s, maxWidth) == Some(-(v as int))
  {
  }

  lemma FourDigitYearRoundTrip(year: int, maxWidth: nat)
    requires 0 <= year < 10000
    ensures ParseYear(YearText(year), maxWidth) == Some(year)
  {
    var s := YearText(year);
    Pow10Values();
    NatTextLength(year, 4);
    PaddedRoundTrip(year, 4);
    assert |s| == 4 && s[0] != '+' && s[0] != '-';
  }

  lemma YearTextRoundTrip(year: int, maxWidth: nat)
    requires InYearRange(year) && maxWidth >= 10
    ensures ParseYear(YearText(year), maxWidth) == Some(year)
  {
    if year >= 10000 {
      LongYearRoundTrip(year, maxWidth);
    } else if year < 0 {
      NegativeYearRoundTrip(year, maxWidth);
    } else {
      FourDigitYearRoundTrip(year, maxWidth);
    }
  }

  lemma TwoDigitsRoundTrip(n: nat)
    requires n < 100
    ensures |TwoDigits(n)| == 2
    ensures ParseTwoDigits(TwoDigits(n)) == Some(n)
  {
    Pow10Values();
    NatTextLength(n, 2);
    PaddedRoundTrip(n, 2);
  }

  lemma ParseIsoOfParts(y: string, m: string, dd: string, maxWidth: nat, style: ResolverStyle, yv: int, mv: nat, dv: nat)
    requires |m| == 2 && |dd| == 2
    requires ParseYear(y, maxWidth) == Some(yv) && ParseTwoDigits(m) == Some(mv) && ParseTwoDigits(dd) == Some(dv)
    ensures ParseIso(y + "-" + m + "-" + dd, maxWidth, style) == Resolve(yv, mv, dv, style, y + "-" + m + "-" + dd)
  {
    var s := y + "-" + m + "-" + dd;
    assert s[..|s| - 6] == y && s[|s| - 5..|s| - 3] == m && s[|s| - 2..] == dd;
  }

  lemma ParseUiOfParts(dd: string, m: string, y: string, style: ResolverStyle, dv: nat, mv: nat, yv: int)
    requires |m| == 2 && |dd| == 2
    requires ParseYear(y, 19) == Some(yv) && ParseTwoDigits(m) == Some(mv) && ParseTwoDigits(dd) == Some(dv)
    ensures ParseUi(dd + "/" + m + "/" + y, style) == Resolve(yv, mv, dv, style, dd + "/" + m + "/" + y)
  {
    var s := dd + "/" + m + "/" + y;
    assert s[..2] == dd && s[3..5] == m && s[6..] == y;
  }

  /** Resolving the fields of a valid date gives that date, in either style. */
  lemma ResolveValid(d: LocalDate, style: ResolverStyle, text: string)
    requires InYearRange(d.year)
    ensures Resolve(d.year, d.month, d.day, style, text) == Ok(d)
  {
  }

  /** Every parser that reads `uuuu-MM-dd` gives back the date `toString` printed. */
  lemma IsoRoundTrip(d: LocalDate, maxWidth: nat, style: ResolverStyle)
    requires InYearRange(d.year) && maxWidth >= 10
    ensures ParseIso(IsoText(d), maxWidth, style) == Ok(d)
  {
    var y, m, dd := YearText(d.year), TwoDigits(d.month), TwoDigits(d.day);
    YearTextRoundTrip(d.year, maxWidth);
    TwoDigitsRoundTrip(d.month);
    TwoDigitsRoundTrip(d.day);
    ParseIsoOfParts(y, m, dd, maxWidth, style, d.year, d.month, d.day);
    ResolveValid(d, style, IsoText(d));
  }

  /** Parsing `dd/MM/uuuu` gives back the date that was formatted. */
  lemma UiRoundTrip(d: LocalDate, style: ResolverStyle)
    requires InYearRange(d.year)
    ensures ParseUi(UiText(d), style) == Ok(d)
  {
    var y, m, dd := YearText(d.year), TwoDigits(d.month), TwoDigits(d.day);
    YearTextRoundTrip(d.year, 19);
    TwoDigitsRoundTrip(d.month);
    TwoDigitsRoundTrip(d.day);
    ParseUiOfParts(dd, m, y, style, d.day, d.month, d.year);
    ResolveValid(d, style, UiText(d));
  }

  /** A displayed purchase date survives the trip to storage and back unchanged. */
  lemma PurchaseDateRoundTrip(d: LocalDate)
    requires InYearRange(d.year)
    ensures UiToStorage(UiText(d)) == Ok(IsoText(d))
    ensures StorageToUi(IsoText(d)) == Ok(UiText(d))
  {
    UiRoundTrip(d, Smart);
    IsoRoundTrip(d, 19, Smart);
  }

  /** The two resolver styles differ on a day past the end of the month. */
  lemma SmartClampsStrictRejects()
    ensures ParseStorageDate("2021-02-30") == Ok(Date(2021, 2, 28))
    ensures ParseLocalDate("2021-02-30") == Err(DateTimeParse("2021-02-30"))
  {
    var y, m, dd := "2021", "02", "30";
    assert y[..3] == "202" && y[..2] == "20" && y[..1] == "2" && m[..1] == "0" && dd[..1] == "3";
    assert y[..2][..1] == y[..1] && y[..3][..2] == y[..2] && y[..|y| - 1] == y[..3];
    assert TextValue(y[..1]) == 2;
    assert TextValue(y[..2]) == 20;
    assert TextValue(y[..3]) == 202;
    assert TextValue(y) == 2021;
    assert TextValue(m) == 2;
    assert TextValue(dd) == 30;
    assert y + "-" + m + "-" + dd == "2021-02-30";
    ParseIsoOfParts(y, m, dd, 19, Smart, 2021, 2, 30);
    ParseIsoOfParts(y, m, dd, 10, Strict, 2021, 2, 30);
  }
}
