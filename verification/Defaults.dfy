// providers/deterministic.py: default and sequence values, written out to the character.
module Defaults {
  import opened Values
  import opened Contracts
  import opened Writes
  import opened Dataset
  import opened Provider

  // ---- zero-padded decimals ------------------------------------------------------

  function Digit(n: nat): char
    requires n < 10
  {
    (48 + n) as char
  }

  /** `f"{n:0{width}d}"`: at least `width` decimal digits. */
  function Pad(n: nat, width: nat): string
    decreases n + width
  {
    if n < 10 && width <= 1 then [Digit(n)]
    else Pad(n / 10, if width > 0 then width - 1 else 0) + [Digit(n % 10)]
  }

  /** `int(s)` */
  function ReadDecimal(s: string): int {
    if s == "" then 0 else 10 * ReadDecimal(s[..|s| - 1]) + (s[|s| - 1] as int - 48)
  }

  lemma {:induction false} ReadsBack(n: nat, width: nat)
    ensures ReadDecimal(Pad(n, width)) == n
    decreases n + width
  {
    if n < 10 && width <= 1 {
      assert Pad(n, width)[..0] == "";
    } else {
      var shorter := Pad(n / 10, if width > 0 then width - 1 else 0);
      ReadsBack(n / 10, if width > 0 then width - 1 else 0);
      assert Pad(n, width)[..|shorter|] == shorter;
    }
  }

  function TenTo(width: nat): nat {
    if width == 0 then 1 else 10 * TenTo(width - 1)
  }

  lemma {:induction false} PadWidth(n: nat, width: nat)
    requires width > 0 && n < TenTo(width)
    ensures |Pad(n, width)| == width
  {
    if width > 1 { PadWidth(n / 10, width - 1); }
  }

  // ---- the calendar ---------------------------------------------------------------

  datatype Date = Date(year: nat, month: nat, day: nat)

  predicate Leap(year: nat) {
    year % 4 == 0 && (year % 100 != 0 || year % 400 == 0)
  }

  function DaysIn(year: nat, month: nat): nat {
    if month == 2 then (if Leap(year) then 29 else 28)
    else if month == 4 || month == 6 || month == 9 || month == 11 then 30
    else 31
  }

  predicate RealDate(d: Date) {
    1 <= d.month <= 12 && 1 <= d.day <= DaysIn(d.year, d.month)
  }

  function NextDay(d: Date): Date {
    if d.day < DaysIn(d.year, d.month) then d.(day := d.day + 1)
    else if d.month < 12 then Date(d.year, d.month + 1, 1)
    else Date(d.year + 1, 1, 1)
  }

  /** `date(2000, 1, 1) + timedelta(days=n)` */
  function DateAt(n: nat): (d: Date)
    ensures RealDate(d)
  {
    if n == 0 then Date(2000, 1, 1) else NextDay(DateAt(n - 1))
  }

  function Rank(d: Date): int {
    (d.year * 12 + d.month) * 31 + d.day
  }

  lemma {:induction false} DatesIncrease(i: nat, j: nat)
    requires i < j
    ensures Rank(DateAt(i)) < Rank(DateAt(j))
  {
    if i < j - 1 { DatesIncrease(i, j - 1); }
    var d := DateAt(j - 1);
    assert Rank(d) < Rank(NextDay(d));
  }

  /** Days before a month in a year of 365 days. */
  function DaysBefore(month: nat): nat
    requires 1 <= month <= 12
  {
    if month == 1 then 0 else DaysBefore(month - 1) + DaysIn(2001, month - 1)
  }

  lemma MonthStarts()
    ensures DaysBefore(2) == 31 && DaysBefore(3) == 59 && DaysBefore(4) == 90 && DaysBefore(5) == 120
    ensures DaysBefore(6) == 151 && DaysBefore(7) == 181 && DaysBefore(8) == 212 && DaysBefore(9) == 243
    ensures DaysBefore(10) == 273 && DaysBefore(11) == 304 && DaysBefore(12) == 334
  {
  }

  /** No date comes sooner than it would in years of 365 days. */
  lemma {:induction false} YearReached(n: nat)
    ensures 365 * (DateAt(n).year - 2000) + DaysBefore(DateAt(n).month) + DateAt(n).day - 1 <= n
    ensures DateAt(n).year >= 2000
  {
    if n == 0 {
    } else {
      YearReached(n - 1);
      var d := DateAt(n - 1);
      MonthStarts();
      if d.day == DaysIn(d.year, d.month) && d.month < 12 {
        assert DaysBefore(d.month + 1) == DaysBefore(d.month) + DaysIn(2001, d.month);
        assert DaysIn(2001, d.month) <= DaysIn(d.year, d.month);
      }
    }
  }

  // ---- isoformat ------------------------------------------------------------------

  function IsoDate(d: Date): string {
    Pad(d.year, 4) + "-" + Pad(d.month, 2) + "-" + Pad(d.day, 2)
  }

  function IsoTime(t: nat): string {
    Pad(t / 3600, 2) + ":" + Pad(t / 60 % 60, 2) + ":" + Pad(t % 60, 2)
  }

  /** `(datetime(2000, 1, 1, tzinfo=UTC) + timedelta(seconds=s)).isoformat()` */
  function IsoDateTime(s: nat): string {
    IsoDate(DateAt(s / 86400)) + "T" + IsoTime(s % 86400) + "+00:00"
  }

  /** Three numbers of fixed widths, with separators, are read back from their places. */
  lemma PartsReadBack(a: nat, b: nat, c: nat, wa: nat, s: string, text: string)
    requires wa > 0 && a < TenTo(wa) && b < 100 && c < 100 && |s| == 1
    requires text == Pad(a, wa) + s + Pad(b, 2) + s + Pad(c, 2)
    ensures |text| == wa + 6
    ensures ReadDecimal(text[..wa]) == a && ReadDecimal(text[wa + 1..wa + 3]) == b
    ensures ReadDecimal(text[wa + 4..]) == c
  {
    assert TenTo(2) == 100;
    PadWidth(a, wa);
    PadWidth(b, 2);
    PadWidth(c, 2);
    assert text[..wa] == Pad(a, wa) && text[wa + 1..wa + 3] == Pad(b, 2) && text[wa + 4..] == Pad(c, 2);
    ReadsBack(a, wa);
    ReadsBack(b, 2);
    ReadsBack(c, 2);
  }

  lemma IsoDateReadsBack(d: Date)
    requires RealDate(d) && d.year <= 9999
    ensures var s := IsoDate(d);
      && |s| == 10
      && d.year == ReadDecimal(s[..4]) && d.month == ReadDecimal(s[5..7]) && d.day == ReadDecimal(s[8..])
  {
    assert TenTo(4) == 10000;
    PartsReadBack(d.year, d.month, d.day, 4, "-", IsoDate(d));
  }

  lemma IsoTimeReadsBack(t: nat)
    requires t < 86400
    ensures var s := IsoTime(t);
      |s| == 8 && t == ReadDecimal(s[..2]) * 3600 + ReadDecimal(s[3..5]) * 60 + ReadDecimal(s[6..])
  {
    assert TenTo(2) == 100;
    PartsReadBack(t / 3600, t / 60 % 60, t % 60, 2, ":", IsoTime(t));
    assert t / 60 / 60 == t / 3600;
  }

  // ---- default values ---------------------------------------------------------------

  /** What the seed digest contributes: a text prefix and the first four bytes. */
  datatype Material = Material(prefix: string, b0: nat, b1: nat, b2: nat, b3: nat)

  predicate Bytes(m: Material) {
    m.b0 < 256 && m.b1 < 256 && m.b2 < 256 && m.b3 < 256
  }

  function Half(m: Material): nat {
    m.b0 * 256 + m.b1
  }

  function Word(m: Material): nat {
    (Half(m) * 256 + m.b2) * 256 + m.b3
  }

  function DayOf(m: Material, i: nat): nat {
    Half(m) % 3650 + i
  }

  /** `_value` without a distribution. */
  function DefaultValue(kind: FieldType, m: Material, i: nat): Value {
    match kind
    case StringType => Text(m.prefix + "_" + Pad(i, 8))
    case IntegerType => Integer(Word(m) % 1_000_000_000 + i)
    case NumberType => Number((Word(m) % 1_000_000_000 + i) as real)
    case BooleanType => Boolean((m.b0 + i) % 2 == 1)
    case DateType => Text(IsoDate(DateAt(DayOf(m, i))))
    case DateTimeType => Text(IsoDateTime(Word(m) + i))
  }

  /** For every legal row index, dates and datetimes stay within the four-digit years. */
  lemma DatesStayInRange(m: Material, i: nat)
    requires Bytes(m) && i < 1_000_000
    ensures 2000 <= DateAt(DayOf(m, i)).year <= 9999
    ensures 2000 <= DateAt((Word(m) + i) / 86400).year <= 9999
  {
    YearReached(DayOf(m, i));
    YearReached((Word(m) + i) / 86400);
  }

  // ---- what default values read back as ----------------------------------------------------------

  /** Leap years before a year of the Gregorian calendar. */
  function LeapsBefore(year: nat): int
    requires year > 0
  {
    (year - 1) / 4 - (year - 1) / 100 + (year - 1) / 400
  }

  /** Days since the first day of the year 2000. */
  function DaysSince(d: Date): int
    requires RealDate(d) && d.year > 0
  {
    365 * (d.year - 2000) + LeapsBefore(d.year) - LeapsBefore(2000)
    + DaysBefore(d.month) + (if d.month > 2 && Leap(d.year) then 1 else 0) + d.day - 1
  }

  lemma NextDayCounts(d: Date)
    requires RealDate(d) && d.year > 0
    ensures RealDate(NextDay(d)) && DaysSince(NextDay(d)) == DaysSince(d) + 1
  {
    MonthStarts();
    if d.day == DaysIn(d.year, d.month) {
      if d.month == 12 {
        YearTurns(d.year);
      } else {
        assert DaysBefore(d.month + 1) == DaysBefore(d.month) + DaysIn(2001, d.month);
      }
    }
  }

  lemma YearTurns(year: nat)
    requires year > 0
    ensures LeapsBefore(year + 1) == LeapsBefore(year) + (if Leap(year) then 1 else 0)
  {
    Quarters(year);
    Hundreds(year);
    FourHundreds(year);
    Multiples(year);
  }

  lemma Quarters(year: nat)
    requires year > 0
    ensures year / 4 - (year - 1) / 4 == if year % 4 == 0 then 1 else 0
  {
  }

  lemma Hundreds(year: nat)
    requires year > 0
    ensures year / 100 - (year - 1) / 100 == if year % 100 == 0 then 1 else 0
  {
  }

  lemma FourHundreds(year: nat)
    requires year > 0
    ensures year / 400 - (year - 1) / 400 == if year % 400 == 0 then 1 else 0
  {
  }

  lemma Multiples(year: nat)
    ensures year % 400 == 0 ==> year % 100 == 0
    ensures year % 100 == 0 ==> year % 4 == 0
  {
    if year % 400 == 0 { WholeHundreds(year, 4 * (year / 400)); }
    if year % 100 == 0 { WholeFours(year, 25 * (year / 100)); }
  }

  lemma WholeHundreds(year: nat, k: nat)
    requires year == 100 * k
    ensures year % 100 == 0
  {
  }

  lemma WholeFours(year: nat, k: nat)
    requires year == 4 * k
    ensures year % 4 == 0
  {
  }

  /** The date n days on is that many days on, by the calendar's own arithmetic. */
  lemma {:induction false} DateAtCounts(n: nat)
    ensures DateAt(n).year > 0 && DaysSince(DateAt(n)) == n
  {
    if n == 0 {
    } else {
      DateAtCounts(n - 1);
      NextDayCounts(DateAt(n - 1));
    }
  }

  /** A text in the ISO form of a date reads as a day of the calendar. */
  ghost predicate ReadsAsDay(s: string, day: int) {
    && |s| == 10 && s[4] == '-' && s[7] == '-'
    && var year, month, d := ReadDecimal(s[..4]), ReadDecimal(s[5..7]), ReadDecimal(s[8..]);
    year > 0 && month > 0 && d > 0 && RealDate(Date(year, month, d)) && DaysSince(Date(year, month, d)) == day
  }

  lemma DayReadsBack(n: nat)
    requires DateAt(n).year <= 9999
    ensures ReadsAsDay(IsoDate(DateAt(n)), n)
  {
    DateAtCounts(n);
    IsoDateReadsBack(DateAt(n));
    DashesAt(DateAt(n));
  }

  lemma DashesAt(d: Date)
    requires d.year <= 9999 && RealDate(d)
    ensures |IsoDate(d)| == 10 && IsoDate(d)[4] == '-' && IsoDate(d)[7] == '-'
  {
    assert TenTo(4) == 10000 && TenTo(2) == 100;
    PadWidth(d.year, 4);
    PadWidth(d.month, 2);
    PadWidth(d.day, 2);
  }

  /**
   * What a default value of row i reads back as: texts end in the row number, numbers count up from
   * the seed's own, truth values alternate, dates go on day by day and datetimes second by second.
   */
  lemma DefaultsCountUp(m: Material, i: nat)
    requires Bytes(m) && i < 1_000_000
    ensures var v := DefaultValue(StringType, m, i);
      && v.Text? && |m.prefix| + 8 < |v.s| && v.s[..|m.prefix|] == m.prefix
      && ReadDecimal(v.s[|m.prefix| + 1..]) == i
    ensures DefaultValue(IntegerType, m, i) == Integer(Word(m) % 1_000_000_000 + i)
    ensures DefaultValue(NumberType, m, i) == Number((Word(m) % 1_000_000_000 + i) as real)
    ensures DefaultValue(BooleanType, m, i) == Boolean((m.b0 + i) % 2 == 1)
    ensures var v := DefaultValue(DateType, m, i); v.Text? && ReadsAsDay(v.s, Half(m) % 3650 + i)
  {
    DefaultTextCounts(m, i);
    DefaultDateCounts(m, i);
  }

  lemma DefaultDateCounts(m: Material, i: nat)
    requires Bytes(m) && i < 1_000_000
    ensures var v := DefaultValue(DateType, m, i); v.Text? && ReadsAsDay(v.s, Half(m) % 3650 + i)
  {
    DatesStayInRange(m, i);
    DayReadsBack(DayOf(m, i));
  }

  lemma DefaultTextCounts(m: Material, i: nat)
    requires i < 1_000_000
    ensures var v := DefaultValue(StringType, m, i);
      && v.Text? && |m.prefix| + 8 < |v.s| && v.s[..|m.prefix|] == m.prefix
      && ReadDecimal(v.s[|m.prefix| + 1..]) == i
  {
    assert TenTo(8) == 100_000_000;
    PadWidth(i, 8);
    ReadsBack(i, 8);
    var s := m.prefix + "_" + Pad(i, 8);
    assert s[..|m.prefix|] == m.prefix && s[|m.prefix| + 1..] == Pad(i, 8);
  }

  /** A default datetime reads back as a day and the seconds into it. */
  lemma DefaultTimeCounts(m: Material, i: nat)
    requires Bytes(m) && i < 1_000_000
    ensures var v, s := DefaultValue(DateTimeType, m, i), Word(m) + i;
      && v.Text? && |v.s| == 25 && v.s[10] == 'T' && v.s[19..] == "+00:00"
      && ReadsAsDay(v.s[..10], s / 86400)
      && ReadDecimal(v.s[11..13]) * 3600 + ReadDecimal(v.s[14..16]) * 60 + ReadDecimal(v.s[17..19]) == s % 86400
  {
    DatesStayInRange(m, i);
    TimeReadsBack(Word(m) + i);
  }

  lemma TimeReadsBack(s: nat)
    requires DateAt(s / 86400).year <= 9999
    ensures var text := IsoDateTime(s);
      && |text| == 25 && text[10] == 'T' && text[19..] == "+00:00"
      && ReadsAsDay(text[..10], s / 86400)
      && ReadDecimal(text[11..13]) * 3600 + ReadDecimal(text[14..16]) * 60 + ReadDecimal(text[17..19]) == s % 86400
  {
    DayReadsBack(s / 86400);
    IsoTimeReadsBack(s % 86400);
    TimePlaces(IsoDate(DateAt(s / 86400)), IsoTime(s % 86400), IsoDateTime(s));
  }

  lemma TimePlaces(date: string, time: string, text: string)
    requires |date| == 10 && |time| == 8 && text == date + "T" + time + "+00:00"
    ensures |text| == 25 && text[10] == 'T' && text[19..] == "+00:00" && text[..10] == date
    ensures text[11..13] == time[..2] && text[14..16] == time[3..5] && text[17..19] == time[6..]
  {
  }

  lemma DefaultDatesDiffer(m: Material, i: nat, j: nat)
    requires Bytes(m) && i < j < 1_000_000
    ensures Canon(DefaultValue(DateType, m, i)) != Canon(DefaultValue(DateType, m, j))
  {
    var a, b := DateAt(DayOf(m, i)), DateAt(DayOf(m, j));
    DatesStayInRange(m, i);
    DatesStayInRange(m, j);
    DatesIncrease(DayOf(m, i), DayOf(m, j));
    IsoDateReadsBack(a);
    IsoDateReadsBack(b);
  }

  lemma DateTimeReadsBack(s: nat)
    requires DateAt(s / 86400).year <= 9999
    ensures |IsoDateTime(s)| == 25
    ensures IsoDateTime(s)[..10] == IsoDate(DateAt(s / 86400)) && IsoDateTime(s)[11..19] == IsoTime(s % 86400)
  {
    IsoDateReadsBack(DateAt(s / 86400));
    IsoTimeReadsBack(s % 86400);
  }

  lemma SameDay(a: nat, b: nat)
    requires DateAt(a) == DateAt(b)
    ensures a == b
  {
    if a < b {
      DatesIncrease(a, b);
    } else if b < a {
      DatesIncrease(b, a);
    }
  }

  lemma SameDateTime(s: nat, t: nat)
    requires DateAt(s / 86400).year <= 9999 && DateAt(t / 86400).year <= 9999
    ensures IsoDateTime(s) == IsoDateTime(t) ==> s == t
  {
    if IsoDateTime(s) != IsoDateTime(t) {
      return;
    }
    DateTimeReadsBack(s);
    DateTimeReadsBack(t);
    IsoDateReadsBack(DateAt(s / 86400));
    IsoDateReadsBack(DateAt(t / 86400));
    IsoTimeReadsBack(s % 86400);
    IsoTimeReadsBack(t % 86400);
    SameDay(s / 86400, t / 86400);
  }

  lemma TimesApart(s: nat, t: nat)
    requires s < t < 5_000_000_000
    ensures Canon(Text(IsoDateTime(s))) != Canon(Text(IsoDateTime(t)))
  {
    YearReached(s / 86400);
    YearReached(t / 86400);
    SameDateTime(s, t);
  }

  lemma WordBound(m: Material)
    requires Bytes(m)
    ensures Word(m) < 0x1_0000_0000
  {
  }

  lemma DefaultTimesDiffer(m: Material, i: nat, j: nat)
    requires Bytes(m) && i < j < 1_000_000
    ensures Canon(DefaultValue(DateTimeType, m, i)) != Canon(DefaultValue(DateTimeType, m, j))
  {
    WordBound(m);
    TimesApart(Word(m) + i, Word(m) + j);
  }

  lemma DefaultTextsDiffer(m: Material, i: nat, j: nat)
    requires i != j
    ensures Canon(DefaultValue(StringType, m, i)) != Canon(DefaultValue(StringType, m, j))
  {
    var prefix := m.prefix + "_";
    ReadsBack(i, 8);
    ReadsBack(j, 8);
    assert (prefix + Pad(i, 8))[|prefix|..] == Pad(i, 8);
    assert (prefix + Pad(j, 8))[|prefix|..] == Pad(j, 8);
  }

  lemma DefaultNumbersDiffer(m: Material, i: nat, j: nat)
    requires i != j
    ensures Canon(DefaultValue(IntegerType, m, i)) != Canon(DefaultValue(IntegerType, m, j))
    ensures Canon(DefaultValue(NumberType, m, i)) != Canon(DefaultValue(NumberType, m, j))
  {
  }

  /** Default values of every type but boolean differ from row to row. */
  lemma DefaultsDiffer(kind: FieldType, m: Material, i: nat, j: nat)
    requires Bytes(m) && i < j < 1_000_000 && kind != BooleanType
    ensures Canon(DefaultValue(kind, m, i)) != Canon(DefaultValue(kind, m, j))
  {
    match kind
    case IntegerType => DefaultNumbersDiffer(m, i, j);
    case NumberType => DefaultNumbersDiffer(m, i, j);
    case StringType => DefaultTextsDiffer(m, i, j);
    case DateType => DefaultDatesDiffer(m, i, j);
    case DateTimeType => DefaultTimesDiffer(m, i, j);
    case _ =>
  }

  // ---- fields ---------------------------------------------------------------------------

  /** How a field gets its values: no distribution at all, or a sequence. */
  datatype Recipe = ByDefault(material: Material) | Sequence(start: Option<int>, step: Option<int>)

  /** `value or fallback` for an optional integer. */
  function Or(value: Option<int>, fallback: int): int {
    if value.None? || value.value == 0 then fallback else value.value
  }

  function Made(kind: FieldType, recipe: Recipe, i: nat): Value {
    match recipe
    case ByDefault(m) => DefaultValue(kind, m, i)
    case Sequence(start, step) => Integer(Or(start, 0) + i * Or(step, 1))
  }

  /** A sequence begins at its start, 0 if it has none, and goes up by its step, 1 if it has none or 0. */
  lemma SequencesCount(kind: FieldType, start: Option<int>, step: Option<int>, i: nat)
    ensures Made(kind, Sequence(start, step), 0) == Integer(if start.None? then 0 else start.value)
    ensures var a, b := Made(kind, Sequence(start, step), i), Made(kind, Sequence(start, step), i + 1);
      a.Integer? && b.Integer? &&
      b.i - a.i == if step.None? || step.value == 0 then 1 else step.value
  {
    var gap := Or(step, 1);
    assert (i + 1) * gap == i * gap + gap;
  }

  ghost predicate RecipeOk(kind: FieldType, recipe: Recipe) {
    match recipe
    case ByDefault(m) => Bytes(m)
    case Sequence(_, _) => kind == IntegerType || kind == NumberType
  }

  /** The field is filled by its recipe; a nullable field may be null instead in any row. */
  ghost predicate Follows(draw: Draw, spec: RecordSpec, f: string, recipe: Recipe)
    requires f in spec.fields
  {
    forall i: nat | i < spec.count ::
      || draw(Cell(spec.recordType, f), i) == Made(spec.fields[f].kind, recipe, i)
      || (spec.fields[f].nullable && draw(Cell(spec.recordType, f), i) == Null)
  }

  lemma MadeDiffer(kind: FieldType, recipe: Recipe, i: nat, j: nat)
    requires RecipeOk(kind, recipe) && i < j < 1_000_000
    requires recipe.ByDefault? && kind == BooleanType ==> j == i + 1
    ensures Canon(Made(kind, recipe, i)) != Canon(Made(kind, recipe, j))
  {
    match recipe
    case ByDefault(m) => if kind != BooleanType { DefaultsDiffer(kind, m, i, j); }
    case Sequence(start, step) =>
      var d := Or(step, 1);
      assert j * d - i * d == (j - i) * d != 0;
  }

  /**
   * A non-nullable unique field filled by its recipe passes the uniqueness check if and only if
   * it is not a defaulted boolean over three or more rows.
   */
  lemma UniqueByRecipe(spec: RecordSpec, draw: Draw, f: string, recipe: Recipe)
    requires RecordOk(spec) && f in spec.fields && !spec.fields[f].nullable
    requires RecipeOk(spec.fields[f].kind, recipe) && Follows(draw, spec, f, recipe)
    ensures Unique(BaseRows(spec, draw), f) <==>
            recipe.Sequence? || spec.fields[f].kind != BooleanType || spec.count <= 2
  {
    var rows := BaseRows(spec, draw);
    if recipe.Sequence? || spec.fields[f].kind != BooleanType || spec.count <= 2 {
      MadeColumnUnique(spec, draw, f, recipe);
    } else {
      BaseCell(spec, draw, f, 0);
      BaseCell(spec, draw, f, 2);
      assert (recipe.material.b0 + 2) % 2 == recipe.material.b0 % 2;
      assert Canon(Get(rows[0], f)) == Canon(Get(rows[2], f)) != CNull;
    }
  }

  lemma BaseCell(spec: RecordSpec, draw: Draw, f: string, i: nat)
    requires f in spec.fields && i < spec.count
    ensures Get(BaseRows(spec, draw)[i], f) == draw(Cell(spec.recordType, f), i)
  {
    assert BaseRows(spec, draw)[i] == BaseRow(spec, draw, i);
  }

  lemma MadeColumnUnique(spec: RecordSpec, draw: Draw, f: string, recipe: Recipe)
    requires RecordOk(spec) && f in spec.fields
    requires RecipeOk(spec.fields[f].kind, recipe) && Follows(draw, spec, f, recipe)
    requires recipe.Sequence? || spec.fields[f].kind != BooleanType || spec.count <= 2
    ensures Unique(BaseRows(spec, draw), f)
  {
    var rows := BaseRows(spec, draw);
    forall i, j | 0 <= i < j < |rows| && Canon(Get(rows[i], f)) != CNull
      ensures Canon(Get(rows[i], f)) != Canon(Get(rows[j], f))
    {
      BaseCell(spec, draw, f, i);
      BaseCell(spec, draw, f, j);
      MadeDiffer(spec.fields[f].kind, recipe, i, j);
    }
  }

  /** The ISO parsers take what `isoformat` writes. */
  ghost predicate ReadsIso(fmt: Formats) {
    && (forall d {:trigger IsoDate(d)} | RealDate(d) && 1 <= d.year <= 9999 :: fmt.isDate(IsoDate(d)))
    && (forall s: nat {:trigger IsoDateTime(s)} | DateAt(s / 86400).year <= 9999 :: fmt.isDateTime(IsoDateTime(s)))
  }

  lemma MadeIsValid(field: FieldSpec, recipe: Recipe, i: nat, fmt: Formats)
    requires RecipeOk(field.kind, recipe) && i < 1_000_000 && ReadsIso(fmt)
    ensures ValidValue(Made(field.kind, recipe, i), field, fmt)
  {
    match recipe
    case ByDefault(m) =>
      DatesStayInRange(m, i);
      if field.kind == DateType {
        var d := DateAt(DayOf(m, i));
        assert fmt.isDate(IsoDate(d));
      } else if field.kind == DateTimeType {
        var t := Word(m) + i;
        assert fmt.isDateTime(IsoDateTime(t));
      }
    case Sequence(start, step) =>
  }

  // ---- generated datasets pass the check ------------------------------------------------

  /** What the relation pass needs to keep a source column acceptable. */
  ghost predicate RelationFits(c: Contract, r: RelationSpec)
    requires ContractOk(c)
  {
    var specs := RecordMap(c.records);
    && r.sourceType in specs && r.targetType in specs
    && r.sourceField in specs[r.sourceType].fields && r.targetField in specs[r.targetType].fields
    && (specs[r.targetType].fields[r.targetField].nullable ==> specs[r.sourceType].fields[r.sourceField].nullable)
    && (specs[r.sourceType].fields[r.sourceField].unique ==>
          specs[r.sourceType].count <= specs[r.targetType].count)
  }

  ghost predicate AllValid(values: seq<Value>, field: FieldSpec, fmt: Formats) {
    forall i | 0 <= i < |values| :: ValidValue(values[i], field, fmt)
  }

  /** Equal values only where both are null. */
  ghost predicate Distinct(values: seq<Value>) {
    forall i, j | 0 <= i < j < |values| && Canon(values[i]) != CNull :: Canon(values[i]) != Canon(values[j])
  }

  lemma UniqueIsDistinct(rows: seq<Row>, f: string)
    ensures Unique(rows, f) <==> Distinct(Column(rows, f))
  {
    var col := Column(rows, f);
    if Unique(rows, f) {
      forall i, j | 0 <= i < j < |col| && Canon(col[i]) != CNull ensures Canon(col[i]) != Canon(col[j]) {
        assert Canon(Get(rows[i], f)) != Canon(Get(rows[j], f));
      }
    }
    if Distinct(col) {
      forall i, j | 0 <= i < j < |rows| && Canon(Get(rows[i], f)) != CNull
        ensures Canon(Get(rows[i], f)) != Canon(Get(rows[j], f))
      {
        assert Canon(col[i]) != Canon(col[j]);
      }
    }
  }

  lemma FilledRowOk(spec: RecordSpec, row: Row, f: string, v: Value, from: FieldSpec, fmt: Formats)
    requires RowOk(spec, row, fmt) && f in spec.fields && ValidValue(v, from, fmt)
    requires from.kind == spec.fields[f].kind && (from.nullable ==> spec.fields[f].nullable)
    ensures RowOk(spec, row[f := v], fmt)
  {
    forall g | g in spec.fields ensures ValidValue(Get(row[f := v], g), spec.fields[g], fmt) {
      if g != f {
        assert Get(row[f := v], g) == Get(row, g);
      }
    }
  }

  lemma FilledColumns(rows: seq<Row>, f: string, targets: seq<Value>, g: string)
    requires targets != []
    ensures g != f ==> Column(Rewritten(rows, f, targets), g) == Column(rows, g)
    ensures forall i | 0 <= i < |rows| :: Column(Rewritten(rows, f, targets), f)[i] == targets[i % |targets|]
  {
    var after := Rewritten(rows, f, targets);
    if g != f {
      forall i | 0 <= i < |rows| ensures Column(after, g)[i] == Column(rows, g)[i] {
        assert after[i] == rows[i][f := targets[i % |targets|]];
      }
    }
  }

  /** A source no longer than its target stays free of repeats. */
  lemma FilledColumnUnique(rows: seq<Row>, f: string, targets: seq<Value>, g: string)
    requires targets != [] && Unique(rows, g)
    requires g == f ==> |rows| <= |targets| && Distinct(targets)
    ensures Unique(Rewritten(rows, f, targets), g)
  {
    var after := Rewritten(rows, f, targets);
    FilledColumns(rows, f, targets, g);
    UniqueIsDistinct(rows, g);
    UniqueIsDistinct(after, g);
    if g == f {
      FirstRoundIsPrefix(Column(after, f), targets);
    }
  }

  lemma FirstRoundIsPrefix(col: seq<Value>, targets: seq<Value>)
    requires targets != [] && |col| <= |targets| && Distinct(targets)
    requires forall i | 0 <= i < |col| :: col[i] == targets[i % |targets|]
    ensures Distinct(col)
  {
    forall i | 0 <= i < |col| ensures col[i] == targets[i] {
      SmallModulus(i, |targets|);
    }
  }

  lemma SmallModulus(i: nat, n: nat)
    requires i < n
    ensures i % n == i
  {
  }

  /** One record type's rows after a relation has filled its source field from a column of targets. */
  lemma FilledRowsOk(spec: RecordSpec, rows: seq<Row>, f: string, targets: seq<Value>, from: FieldSpec, fmt: Formats)
    requires RowsOk(spec, rows, fmt) && f in spec.fields && targets != []
    requires AllValid(targets, from, fmt) && Distinct(targets)
    requires from.kind == spec.fields[f].kind && (from.nullable ==> spec.fields[f].nullable)
    requires spec.fields[f].unique ==> |rows| <= |targets|
    ensures RowsOk(spec, Rewritten(rows, f, targets), fmt)
  {
    var after := Rewritten(rows, f, targets);
    forall i | 0 <= i < |after| ensures RowOk(spec, after[i], fmt) {
      FilledRowOk(spec, rows[i], f, targets[i % |targets|], from, fmt);
    }
    forall g | g in spec.fields && spec.fields[g].unique ensures Unique(after, g) {
      FilledColumnUnique(rows, f, targets, g);
    }
  }

  /** What a validated relation that fits says about the two fields, and their record types. */
  lemma RelationParts(c: Contract, r: RelationSpec) returns (source: RecordSpec, target: RecordSpec)
    requires ContractOk(c) && r in c.relations && RelationFits(c, r)
    ensures source in c.records && source.recordType == r.sourceType && r.sourceField in source.fields
    ensures target in c.records && target.recordType == r.targetType && r.targetField in target.fields
    ensures target.count > 0 && target.fields[r.targetField].unique
    ensures source.fields[r.sourceField].unique ==> source.count <= target.count
    ensures target.fields[r.targetField].kind == source.fields[r.sourceField].kind
    ensures target.fields[r.targetField].nullable ==> source.fields[r.sourceField].nullable
    ensures r.sourceType in Elems(Names(c)) && r.targetType in Elems(Names(c))
    ensures forall q | q in c.records && q.recordType == r.sourceType :: q == source
  {
    CleanIsResolvable(c);
    RecordMapKeys(c);
    RecordMapHolds(c.records);
    var specs := RecordMap(c.records);
    assert RelationFault(specs, r) == None;
    source, target := specs[r.sourceType], specs[r.targetType];
    forall q | q in c.records && q.recordType == r.sourceType ensures q == source {
      SpecByName(c, q);
    }
  }

  /** The relation pass keeps every row list acceptable, one relation at a time. */
  lemma RelateKeepsRecordsOk(c: Contract, records: Records, r: RelationSpec, fmt: Formats)
    requires ContractOk(c) && r in c.relations && RelationFits(c, r) && RecordsOk(c, records, fmt)
    ensures r.sourceType in records && r.targetType in records && records[r.targetType] != []
    ensures RecordsOk(c, Relate(records, r), fmt)
  {
    var source, target := RelationParts(c, r);
    var targets := Column(records[r.targetType], r.targetField);
    TargetColumnOk(target, records[r.targetType], r.targetField, fmt);
    FilledRowsOk(source, records[r.sourceType], r.sourceField, targets, target.fields[r.targetField], fmt);
    assert records.Keys == Elems(Names(c));
  }

  lemma TargetColumnOk(spec: RecordSpec, rows: seq<Row>, f: string, fmt: Formats)
    requires RowsOk(spec, rows, fmt) && f in spec.fields && spec.fields[f].unique
    ensures AllValid(Column(rows, f), spec.fields[f], fmt) && Distinct(Column(rows, f))
  {
    UniqueIsDistinct(rows, f);
    forall i | 0 <= i < |rows| ensures ValidValue(Column(rows, f)[i], spec.fields[f], fmt) {
      assert RowOk(spec, rows[i], fmt);
    }
  }

  lemma SpecByName(c: Contract, spec: RecordSpec)
    requires ContractOk(c) && spec in c.records
    ensures spec.recordType in RecordMap(c.records) && RecordMap(c.records)[spec.recordType] == spec
  {
    var k :| 0 <= k < |c.records| && c.records[k] == spec;
    RecordMapAt(c, k);
  }

  lemma {:induction false} PassKeepsRecordsOk(c: Contract, records: Records, n: nat, fmt: Formats)
    requires ContractOk(c) && n <= |c.relations| && RecordsOk(c, records, fmt)
    requires Populated(records, c.relations[..n])
    requires forall r | r in c.relations :: RelationFits(c, r)
    ensures RecordsOk(c, Pass(records, c.relations[..n]), fmt)
  {
    if n == 0 {
    } else {
      assert c.relations[..n][..n - 1] == c.relations[..n - 1];
      PassStep(records, c.relations[..n], n - 1);
      PassKeepsRecordsOk(c, records, n - 1, fmt);
      assert c.relations[n - 1] in c.relations && c.relations[..n][..n] == c.relations[..n];
      RelateKeepsRecordsOk(c, Pass(records, c.relations[..n - 1]), c.relations[n - 1], fmt);
    }
  }

  /** Every field is filled by some recipe, and a unique boolean is not left to its default over three rows. */
  ghost predicate Cooked(spec: RecordSpec, draw: Draw, recipes: map<Cell, Recipe>) {
    forall f | f in spec.fields ::
      var cell := Cell(spec.recordType, f);
      && cell in recipes && RecipeOk(spec.fields[f].kind, recipes[cell])
      && Follows(draw, spec, f, recipes[cell])
      && (spec.fields[f].unique && recipes[cell].ByDefault? && spec.fields[f].kind == BooleanType ==> spec.count <= 2)
  }

  lemma BaseRowsOk(spec: RecordSpec, draw: Draw, recipes: map<Cell, Recipe>, fmt: Formats)
    requires RecordOk(spec) && Cooked(spec, draw, recipes) && ReadsIso(fmt)
    ensures RowsOk(spec, BaseRows(spec, draw), fmt)
  {
    var rows := BaseRows(spec, draw);
    forall i | 0 <= i < |rows| ensures RowOk(spec, rows[i], fmt) {
      forall f | f in spec.fields ensures ValidValue(Get(rows[i], f), spec.fields[f], fmt) {
        BaseCell(spec, draw, f, i);
        MadeIsValid(spec.fields[f], recipes[Cell(spec.recordType, f)], i, fmt);
      }
    }
    forall f | f in spec.fields && spec.fields[f].unique ensures Unique(rows, f) {
      MadeColumnUnique(spec, draw, f, recipes[Cell(spec.recordType, f)]);
    }
  }

  /**
   * A contract whose fields all go by default or by sequence, whose relations fit and are sound, is
   * generated into a dataset that the check accepts, whatever the seed.
   */
  lemma GeneratedIsAccepted(c: Contract, draw: Draw, recipes: map<Cell, Recipe>, fmt: Formats)
    requires ContractOk(c) && ReadsIso(fmt)
    requires forall spec | spec in c.records :: Cooked(spec, draw, recipes)
    requires forall r | r in c.relations :: RelationFits(c, r)
    requires Counted(CountsOf(c), c.relations) && Sound(CountsOf(c), c.relations)
    ensures Populated(BaseRecords(c, draw), c.relations)
    ensures Accepts(c, Pass(BaseRecords(c, draw), c.relations), fmt)
  {
    var base := BaseRecords(c, draw);
    BaseShape(c, draw);
    BasePopulated(c, draw);
    forall spec | spec in c.records
      ensures |base[spec.recordType]| == spec.count && RowsOk(spec, base[spec.recordType], fmt)
    {
      SpecByName(c, spec);
      BaseRowsOk(spec, draw, recipes, fmt);
    }
    assert c.relations[..|c.relations|] == c.relations;
    PassKeepsRecordsOk(c, base, |c.relations|, fmt);
    SoundPassHolds(base, c.relations);
  }

  /** A unique source that outnumbers its target repeats a value, so the check refuses it. */
  lemma OutnumberedSourceRepeats(records: Records, r: RelationSpec)
    requires r.sourceType in records && r.targetType in records && records[r.targetType] != []
    requires |records[r.sourceType]| > |records[r.targetType]|
    requires !Get(records[r.targetType][0], r.targetField).Null?
    ensures !Unique(Relate(records, r)[r.sourceType], r.sourceField)
  {
    var n, rows := |records[r.targetType]|, Relate(records, r)[r.sourceType];
    assert n % n == 0;
    assert Get(rows[0], r.sourceField) == Get(rows[n], r.sourceField) == Get(records[r.targetType][0], r.targetField);
  }
}
