/**
 * Naive wall-clock times with one-second resolution, the proleptic Gregorian
 * calendar Python's `datetime` uses, and the two conversions the backup tool
 * applies to them: `strftime("%Y-%m-%d %H:%M:%S")` when it names a snapshot
 * and `strptime(..., "%Y-%m-%d %H:%M:%S")` when it reads the name back.
 */
module Timestamps {
  import opened Wrappers

  /** A naive date and time; `Valid` says which values `datetime` admits. */
  datatype DateTime = DateTime(year: nat, month: nat, day: nat, hour: nat, minute: nat, second: nat)

  const SECONDS_PER_DAY := 86400
  /** The day number of 9999-12-31, the last day `datetime` can represent. */
  const MAX_ORDINAL := 3652059

  predicate IsLeap(year: int)
  {
    year % 4 == 0 && (year % 100 != 0 || year % 400 == 0)
  }

  function DaysInYear(year: int): int
  {
    if IsLeap(year) then 366 else 365
  }

  function DaysInMonth(year: int, month: int): (r: int)
    requires 1 <= month <= 12
    ensures 28 <= r <= 31
  {
    if month == 2 then (if IsLeap(year) then 29 else 28)
    else if month == 4 || month == 6 || month == 9 || month == 11 then 30
    else 31
  }

  predicate Valid(t: DateTime)
  {
    && 1 <= t.year <= 9999
    && 1 <= t.month <= 12
    && 1 <= t.day <= DaysInMonth(t.year, t.month)
    && 0 <= t.hour < 24
    && 0 <= t.minute < 60
    && 0 <= t.second < 60
  }

  /** Days in the years before `year`: the lengths of years 1 to `year - 1`, added up. */
  function DaysBeforeYear(year: int): nat
    requires year >= 1
  {
    if year == 1 then 0 else DaysBeforeYear(year - 1) + DaysInYear(year - 1)
  }

  /** Days in the months of `year` before `month`. */
  function DaysBeforeMonth(year: int, month: int): int
    requires 1 <= month <= 12
  {
    [0, 31, 59, 90, 120, 151, 181, 212, 243, 273, 304, 334][month - 1]
      + (if month > 2 && IsLeap(year) then 1 else 0)
  }

  /** The day number of the date of `t`; 0001-01-01 is day 1. */
  function Ordinal(t: DateTime): int
    requires Valid(t)
  {
    DaysBeforeYear(t.year) + DaysBeforeMonth(t.year, t.month) + t.day
  }

  function SecondOfDay(t: DateTime): int
  {
    t.hour * 3600 + t.minute * 60 + t.second
  }

  /** Seconds elapsed from 0001-01-01 00:00:00 to `t`. */
  function TotalSeconds(t: DateTime): (r: int)
    requires Valid(t)
    ensures 0 <= r < MAX_ORDINAL * SECONDS_PER_DAY
  {
    OrdinalBounds(t);
    (Ordinal(t) - 1) * SECONDS_PER_DAY + SecondOfDay(t)
  }

  /** Python's order on naive datetimes: field by field, most significant first. */
  predicate Before(a: DateTime, b: DateTime)
  {
    || a.year < b.year
    || (a.year == b.year && a.month < b.month)
    || (a.year == b.year && a.month == b.month && a.day < b.day)
    || (a.year == b.year && a.month == b.month && a.day == b.day && a.hour < b.hour)
    || (a.year == b.year && a.month == b.month && a.day == b.day && a.hour == b.hour
        && a.minute < b.minute)
    || (a.year == b.year && a.month == b.month && a.day == b.day && a.hour == b.hour
        && a.minute == b.minute && a.second < b.second)
  }

  // ---------------------------------------------------------------------------
  // The calendar arithmetic behind TotalSeconds

  /**
   * The count agrees with the closed form `datetime` computes it by: 365 days
   * a year, plus one for every fourth year, less every hundredth, plus every
   * four-hundredth.
   */
  lemma {:induction false} DaysBeforeYearFormula(year: int)
    requires year >= 1
    ensures DaysBeforeYear(year) == ClosedForm(year - 1)
    decreases year
  {
    if year > 1 {
      DaysBeforeYearFormula(year - 1);
      ClosedFormStep(year - 1);
    }
  }

  /** The days `datetime` counts in the first `y` years. */
  function ClosedForm(y: nat): int
  {
    y * 365 + y / 4 - y / 100 + y / 400
  }

  /** Year `p` adds its own length to the closed form. */
  lemma ClosedFormStep(p: int)
    requires p >= 1
    ensures ClosedForm(p) == ClosedForm(p - 1) + DaysInYear(p)
  {
    DivStep(p, 4);
    DivStep(p, 100);
    DivStep(p, 400);
    if p % 400 == 0 {
      DivUnique(p, 100, 4 * (p / 400), 0);
    }
    if p % 100 == 0 {
      DivUnique(p, 4, 25 * (p / 100), 0);
    }
  }

  /** Going from `p - 1` to `p`, the quotient by `d` grows by one exactly at the multiples of `d`. */
  lemma DivStep(p: int, d: int)
    requires p >= 1 && d > 0
    ensures p / d == (p - 1) / d + (if p % d == 0 then 1 else 0)
  {
    var q, r := (p - 1) / d, (p - 1) % d;
    if r == d - 1 {
      DivUnique(p, d, q + 1, 0);
    } else {
      DivUnique(p, d, q, r + 1);
    }
  }

  /** Quotient and remainder are the only such pair. */
  lemma DivUnique(a: int, d: int, q: int, r: int)
    requires d > 0 && 0 <= r < d && a == q * d + r
    ensures a / d == q && a % d == r
  {
    var e := q - a / d;
    assert e * d == a % d - r by {
      assert a == (a / d) * d + a % d;
      assert q * d - (a / d) * d == e * d;
    }
  }

  lemma {:induction false} LaterYearsStartLater(a: int, b: int)
    requires 1 <= a < b
    ensures DaysBeforeYear(a) + DaysInYear(a) <= DaysBeforeYear(b)
    decreases b - a
  {
    if a + 1 < b {
      LaterYearsStartLater(a + 1, b);
    }
  }

  lemma DayOfYearBounds(t: DateTime)
    requires Valid(t)
    ensures 1 <= DaysBeforeMonth(t.year, t.month) + t.day <= DaysInYear(t.year)
  {
  }

  lemma LaterMonthsStartLater(year: int, m1: int, m2: int)
    requires 1 <= m1 < m2 <= 12
    ensures DaysBeforeMonth(year, m1) + DaysInMonth(year, m1) <= DaysBeforeMonth(year, m2)
  {
  }

  lemma OrdinalBounds(t: DateTime)
    requires Valid(t)
    ensures 1 <= Ordinal(t) <= MAX_ORDINAL
  {
    DayOfYearBounds(t);
    DaysBeforeYearFormula(9999);
    if t.year < 9999 {
      LaterYearsStartLater(t.year, 9999);
    }
  }

  lemma BeforeHasFewerSeconds(a: DateTime, b: DateTime)
    requires Valid(a) && Valid(b) && Before(a, b)
    ensures TotalSeconds(a) < TotalSeconds(b)
  {
    if a.year < b.year {
      DayOfYearBounds(a);
      DayOfYearBounds(b);
      LaterYearsStartLater(a.year, b.year);
    } else if a.month < b.month {
      LaterMonthsStartLater(a.year, a.month, b.month);
    }
    assert Ordinal(a) <= Ordinal(b);
  }

  /**
   * Comparing two datetimes as Python does and comparing their second counts
   * agree; in particular equal counts mean equal datetimes.
   */
  lemma EarlierIffFewerSeconds(a: DateTime, b: DateTime)
    requires Valid(a) && Valid(b)
    ensures Before(a, b) <==> TotalSeconds(a) < TotalSeconds(b)
    ensures TotalSeconds(a) == TotalSeconds(b) <==> a == b
  {
    if Before(a, b) {
      BeforeHasFewerSeconds(a, b);
    } else if Before(b, a) {
      BeforeHasFewerSeconds(b, a);
    }
  }

  // ---------------------------------------------------------------------------
  // Rendering: strftime("%Y-%m-%d %H:%M:%S")

  predicate IsDigit(c: char)
  {
    '0' <= c <= '9'
  }

  function DigitValue(c: char): nat
    requires IsDigit(c)
  {
    c as int - '0' as int
  }

  function DigitChar(n: int): (c: char)
    requires 0 <= n <= 9
    ensures IsDigit(c) && DigitValue(c) == n
  {
    ('0' as int + n) as char
  }

  predicate AllDigits(s: string)
  {
    forall k :: 0 <= k < |s| ==> IsDigit(s[k])
  }

  /** The decimal number a string of digits spells. */
  function Number(s: string): nat
    requires AllDigits(s)
  {
    if s == [] then 0 else Number(s[..|s| - 1]) * 10 + DigitValue(s[|s| - 1])
  }

  /** Ten to the power `k`. */
  function Ten(k: nat): nat
  {
    if k == 0 then 1 else 10 * Ten(k - 1)
  }

  /**
   * `%0<width>d`: the last `width` decimal digits of `n`, zero-padded on the
   * left. Every field of the timestamp is rendered this way.
   */
  function Pad(n: nat, width: nat): (r: string)
    ensures |r| == width
  {
    if width == 0 then [] else Pad(n / 10, width - 1) + [DigitChar(n % 10)]
  }

  /** A number that fits in `width` digits is spelled exactly by its padded rendering. */
  lemma {:induction false} PadSpells(n: nat, width: nat)
    requires n < Ten(width)
    ensures AllDigits(Pad(n, width)) && Number(Pad(n, width)) == n
  {
    if width > 0 {
      var r := Pad(n, width);
      PadSpells(n / 10, width - 1);
      assert r[..width - 1] == Pad(n / 10, width - 1);
    }
  }

  /** One element of a `strftime` format: a character copied as it is, or a directive. */
  datatype Piece = Literal(c: char) | YearCode | Code(d: Directive)

  /** `"%Y-%m-%d %H:%M:%S"`, element by element. */
  const STAMP_FORMAT: seq<Piece> := [
    YearCode, Literal('-'), Code(Month), Literal('-'), Code(Day), Literal(' '),
    Code(Hour), Literal(':'), Code(Minute), Literal(':'), Code(Second)]

  /** What one element writes: `%Y` four digits, every other directive two. */
  function PieceText(p: Piece, t: DateTime): (r: string)
    ensures |r| == match p case Literal(_) => 1 case YearCode => 4 case Code(_) => 2
  {
    match p
    case Literal(c) => [c]
    case YearCode => Pad(t.year, 4)
    case Code(Month) => Pad(t.month, 2)
    case Code(Day) => Pad(t.day, 2)
    case Code(Hour) => Pad(t.hour, 2)
    case Code(Minute) => Pad(t.minute, 2)
    case Code(Second) => Pad(t.second, 2)
  }

  /** `strftime`: the elements of `format`, written one after another. */
  function Render(format: seq<Piece>, t: DateTime): string
  {
    if format == [] then [] else PieceText(format[0], t) + Render(format[1..], t)
  }

  /**
   * `t.strftime("%Y-%m-%d %H:%M:%S")`, 19 characters long. (A field too wide
   * for its width, which no valid `t` has, keeps only its last digits.)
   */
  function Format(t: DateTime): (r: string)
    ensures |r| == 19
  {
    FormatExpands(t);
    Render(STAMP_FORMAT, t)
  }

  /** Rendering a format in two parts. */
  lemma {:induction false} RenderAppend(a: seq<Piece>, b: seq<Piece>, t: DateTime)
    ensures Render(a + b, t) == Render(a, t) + Render(b, t)
    decreases |a|
  {
    if a == [] {
      assert a + b == b;
    } else {
      assert (a + b)[0] == a[0] && (a + b)[1..] == a[1..] + b;
      RenderAppend(a[1..], b, t);
    }
  }

  /** A one-element format writes that element's text. */
  lemma RenderOne(p: Piece, t: DateTime)
    ensures Render([p], t) == PieceText(p, t)
  {
    assert [p][1..] == [];
  }

  /** Rendering one more element after a format. */
  lemma RenderSnoc(f: seq<Piece>, p: Piece, t: DateTime)
    ensures Render(f + [p], t) == Render(f, t) + PieceText(p, t)
  {
    RenderAppend(f, [p], t);
    RenderOne(p, t);
  }

  /** The stamp format writes the six padded fields with `-`, a blank and `:` between them. */
  lemma FormatExpands(t: DateTime)
    ensures Render(STAMP_FORMAT, t)
         == Pad(t.year, 4) + "-" + Pad(t.month, 2) + "-" + Pad(t.day, 2)
            + " " + Pad(t.hour, 2) + ":" + Pad(t.minute, 2) + ":" + Pad(t.second, 2)
  {
    var f := [YearCode];
    RenderOne(YearCode, t);
    RenderSnoc(f, Literal('-'), t);
    f := f + [Literal('-')];
    RenderSnoc(f, Code(Month), t);
    f := f + [Code(Month)];
    RenderSnoc(f, Literal('-'), t);
    f := f + [Literal('-')];
    RenderSnoc(f, Code(Day), t);
    f := f + [Code(Day)];
    RenderSnoc(f, Literal(' '), t);
    f := f + [Literal(' ')];
    RenderSnoc(f, Code(Hour), t);
    f := f + [Code(Hour)];
    RenderSnoc(f, Literal(':'), t);
    f := f + [Literal(':')];
    RenderSnoc(f, Code(Minute), t);
    f := f + [Code(Minute)];
    RenderSnoc(f, Literal(':'), t);
    f := f + [Literal(':')];
    RenderSnoc(f, Code(Second), t);
    f := f + [Code(Second)];
    assert f == STAMP_FORMAT;
  }

  /** `r` is laid out as `YYYY-MM-DD HH:MM:SS` and each of its fields spells the matching field of `t`. */
  predicate Spells(r: string, t: DateTime)
  {
    && |r| == 19
    && r[4] == '-' && r[7] == '-' && r[10] == ' ' && r[13] == ':' && r[16] == ':'
    && AllDigits(r[..4]) && Number(r[..4]) == t.year
    && AllDigits(r[5..7]) && Number(r[5..7]) == t.month
    && AllDigits(r[8..10]) && Number(r[8..10]) == t.day
    && AllDigits(r[11..13]) && Number(r[11..13]) == t.hour
    && AllDigits(r[14..16]) && Number(r[14..16]) == t.minute
    && AllDigits(r[17..]) && Number(r[17..]) == t.second
  }

  /** The rendering of a valid datetime spells it, field by field. */
  lemma FormatLayout(t: DateTime)
    requires Valid(t)
    ensures Spells(Format(t), t)
  {
    FormatExpands(t);
    assert Ten(2) == 100 && Ten(4) == 10000;
    PadSpells(t.year, 4);
    PadSpells(t.month, 2);
    PadSpells(t.day, 2);
    PadSpells(t.hour, 2);
    PadSpells(t.minute, 2);
    PadSpells(t.second, 2);
    Layout(Pad(t.year, 4), Pad(t.month, 2), Pad(t.day, 2), Pad(t.hour, 2), Pad(t.minute, 2), Pad(t.second, 2));
  }

  /** Where six fields of the widths `Format` uses end up in its concatenation. */
  lemma Layout(y: string, mo: string, d: string, h: string, mi: string, sec: string)
    requires |y| == 4 && |mo| == 2 && |d| == 2 && |h| == 2 && |mi| == 2 && |sec| == 2
    ensures var r := y + "-" + mo + "-" + d + " " + h + ":" + mi + ":" + sec;
      && r[4] == '-' && r[7] == '-' && r[10] == ' ' && r[13] == ':' && r[16] == ':'
      && r[..4] == y && r[5..7] == mo && r[8..10] == d
      && r[11..13] == h && r[14..16] == mi && r[17..] == sec
  {
    var date := y + "-" + mo + "-" + d;
    var time := h + ":" + mi + ":" + sec;
    var r := y + "-" + mo + "-" + d + " " + h + ":" + mi + ":" + sec;
    assert r == date + " " + time;
    assert r[..10] == date && r[11..] == time;
    assert date[..4] == y && date[5..7] == mo && date[8..] == d;
    assert time[..2] == h && time[3..5] == mi && time[6..] == sec;
    assert r[..4] == date[..4] && r[5..7] == date[5..7] && r[8..10] == date[8..];
    assert r[11..13] == time[..2] && r[14..16] == time[3..5] && r[17..] == time[6..];
  }

  // ---------------------------------------------------------------------------
  // Reading back: strptime(s, "%Y-%m-%d %H:%M:%S") as CPython's _strptime does
  // it: the format becomes a regular expression (the blank turns into `\s+`),
  // the expression must match a prefix of `s` and that prefix must be all of
  // `s`, and the fields must then form a date and time `datetime` accepts.

  /** The characters `\s` matches in a Python regular expression over text. */
  predicate IsSpace(c: char)
  {
    || c == ' ' || '\t' <= c <= '\r' || '\U{1C}' <= c <= '\U{1F}'
    || c == '\U{85}' || c == '\U{A0}' || c == '\U{1680}' || '\U{2000}' <= c <= '\U{200A}'
    || c == '\U{2028}' || c == '\U{2029}' || c == '\U{202F}' || c == '\U{205F}' || c == '\U{3000}'
  }

  /** The characters any text the pattern matches is made of. */
  predicate StampChar(c: char)
  {
    IsDigit(c) || IsSpace(c) || c == '-' || c == ':'
  }

  /** The directives of the pattern that match one or two characters. */
  datatype Directive = Month | Day | Hour | Minute | Second

  /**
   * The texts CPython's expression for each directive matches:
   * %m: 1[0-2], 0[1-9] or [1-9]; %d: 3[01], [12] and a digit, 0[1-9], [1-9]
   * or a blank and [1-9]; %H: 2[0-3], [01] and a digit, or a digit;
   * %M: [0-5] and a digit, or a digit; %S: 6[01], [0-5] and a digit, or a digit.
   */
  predicate Token(d: Directive, t: string)
  {
    if |t| == 1 then
      match d
      case Month => '1' <= t[0] <= '9'
      case Day => '1' <= t[0] <= '9'
      case _ => IsDigit(t[0])
    else if |t| == 2 then
      match d
      case Month => (t[0] == '1' && '0' <= t[1] <= '2') || (t[0] == '0' && '1' <= t[1] <= '9')
      case Day =>
        || (t[0] == '3' && '0' <= t[1] <= '1')
        || ('1' <= t[0] <= '2' && IsDigit(t[1]))
        || ((t[0] == '0' || t[0] == ' ') && '1' <= t[1] <= '9')
      case Hour => (t[0] == '2' && '0' <= t[1] <= '3') || ('0' <= t[0] <= '1' && IsDigit(t[1]))
      case Minute => '0' <= t[0] <= '5' && IsDigit(t[1])
      case Second => (t[0] == '6' && '0' <= t[1] <= '1') || ('0' <= t[0] <= '5' && IsDigit(t[1]))
    else
      false
  }

  /** The integer a token denotes; a leading blank (a space-padded day) counts for nothing. */
  function TokenValue(d: Directive, t: string): nat
    requires Token(d, t)
  {
    if |t| == 1 || t[0] == ' ' then DigitValue(t[|t| - 1])
    else DigitValue(t[0]) * 10 + DigitValue(t[1])
  }

  /** What the pattern demands after a field. */
  datatype Separator = Dash | Colon | Blank

  predicate Separates(sep: Separator, c: char)
  {
    match sep
    case Dash => c == '-'
    case Colon => c == ':'
    case Blank => IsSpace(c)
  }

  /** The position after the separator that starts at `j`; `\s+` takes the whole run of whitespace. */
  function SkipSeparator(sep: Separator, s: string, j: nat): (r: nat)
    requires j < |s| && Separates(sep, s[j])
    ensures j < r <= |s|
    ensures sep != Blank ==> r == j + 1
    ensures forall k :: j <= k < r ==> Separates(sep, s[k])
    ensures r < |s| ==> !(sep == Blank && IsSpace(s[r]))
    decreases |s| - j
  {
    if sep == Blank && j + 1 < |s| && IsSpace(s[j + 1]) then SkipSeparator(sep, s, j + 1) else j + 1
  }

  /**
   * Directive `d` read at position `i` of `s` where the pattern goes on with
   * `sep`: the field's value and the position after the separator. A token
   * ends in a digit and a separator is never one, so at most one of the two
   * token lengths can be followed by the separator, and the regular
   * expression's backtracking finds exactly that one.
   */
  function Field(d: Directive, sep: Separator, s: string, i: nat): (r: Option<(nat, nat)>)
    ensures r.Some? ==> i < r.value.1 <= |s|
  {
    if i + 1 < |s| && Separates(sep, s[i + 1]) && Token(d, s[i..i + 1]) then
      Some((TokenValue(d, s[i..i + 1]), SkipSeparator(sep, s, i + 1)))
    else if i + 2 < |s| && Separates(sep, s[i + 2]) && Token(d, s[i..i + 2]) then
      Some((TokenValue(d, s[i..i + 2]), SkipSeparator(sep, s, i + 2)))
    else
      None
  }

  /**
   * A token ends in a digit and a separator is none, so the one-character
   * token and the two-character token cannot both be followed by the
   * separator: the order in which `Field` tries them does not matter.
   */
  lemma FieldUnambiguous(d: Directive, sep: Separator, s: string, i: nat)
    requires i + 2 < |s|
    ensures !(Separates(sep, s[i + 1]) && Token(d, s[i..i + 1]) && Separates(sep, s[i + 2]) && Token(d, s[i..i + 2]))
  {
    if Separates(sep, s[i + 1]) && Token(d, s[i..i + 2]) {
      assert s[i..i + 2][1] == s[i + 1];
    }
  }

  /** Whichever token length is followed by the separator, `Field` reads that token and that separator. */
  lemma FieldReadsToken(d: Directive, sep: Separator, s: string, i: nat, w: nat)
    requires 1 <= w <= 2 && i + w < |s| && Token(d, s[i..i + w]) && Separates(sep, s[i + w])
    ensures Field(d, sep, s, i) == Some((TokenValue(d, s[i..i + w]), SkipSeparator(sep, s, i + w)))
  {
    if w == 2 {
      FieldUnambiguous(d, sep, s, i);
    }
  }

  /** A separator, whitespace run included, is made of pattern characters. */
  lemma {:induction false} SkipSeparatorChars(sep: Separator, s: string, j: nat)
    requires j < |s| && Separates(sep, s[j])
    ensures forall k :: j <= k < SkipSeparator(sep, s, j) ==> StampChar(s[k])
    decreases |s| - j
  {
    if sep == Blank && j + 1 < |s| && IsSpace(s[j + 1]) {
      SkipSeparatorChars(sep, s, j + 1);
    }
  }

  /** Whatever a field reads, token and separator, is made of pattern characters. */
  lemma FieldChars(d: Directive, sep: Separator, s: string, i: nat)
    requires Field(d, sep, s, i).Some?
    ensures forall k :: i <= k < Field(d, sep, s, i).value.1 ==> StampChar(s[k])
  {
    if i + 1 < |s| && Separates(sep, s[i + 1]) && Token(d, s[i..i + 1]) {
      assert s[i..i + 1][0] == s[i];
      SkipSeparatorChars(sep, s, i + 1);
    } else {
      assert s[i..i + 2][0] == s[i] && s[i..i + 2][1] == s[i + 1];
      SkipSeparatorChars(sep, s, i + 2);
    }
  }

  /** The directives between the year and the seconds, each with the separator the pattern puts after it. */
  const MIDDLE: seq<(Directive, Separator)> := [(Month, Dash), (Day, Blank), (Hour, Colon), (Minute, Colon)]

  /**
   * The directives of `pattern` read in turn from position `i` of `s`, as
   * the regular expression matches its groups: their values and the
   * position after the last separator.
   */
  function Fields(s: string, i: nat, pattern: seq<(Directive, Separator)>): (r: Option<(seq<nat>, nat)>)
    ensures r.Some? ==> |r.value.0| == |pattern| && i <= r.value.1 <= |s|
    decreases |pattern|
  {
    if pattern == [] then (if i <= |s| then Some(([], i)) else None)
    else
      match Field(pattern[0].0, pattern[0].1, s, i)
      case None => None
      case Some((v, j)) =>
        match Fields(s, j, pattern[1..])
        case None => None
        case Some((vs, k)) => Some(([v] + vs, k))
  }

  /**
   * `strptime(s, "%Y-%m-%d %H:%M:%S")`: the datetime `s` denotes, or None
   * where Python raises ValueError (no match, text left over, or fields that
   * do not form a datetime, such as February 30th, second 60 or year 0).
   */
  function ParseStamp(s: string): (r: Option<DateTime>)
    ensures r.Some? ==> Valid(r.value)
  {
    if |s| < 5 || !AllDigits(s[..4]) || s[4] != '-' then None
    else
      match Fields(s, 5, MIDDLE)
      case None => None
      case Some((vs, l)) =>
        if !Token(Second, s[l..]) then None
        else
          var t := DateTime(Number(s[..4]), vs[0], vs[1], vs[2], vs[3], TokenValue(Second, s[l..]));
          if Valid(t) then Some(t) else None
  }

  // ---------------------------------------------------------------------------
  // Properties of the pair

  lemma TwoDigitNumber(x: string)
    requires |x| == 2 && AllDigits(x)
    ensures Number(x) == DigitValue(x[0]) * 10 + DigitValue(x[1])
  {
    assert x[..1][..0] == [];
    assert Number(x[..1]) == DigitValue(x[0]) by { assert x[..1][0] == x[0]; }
  }

  /** A zero-padded two-digit field in its directive's range is one of its tokens. */
  lemma PaddedIsToken(d: Directive, x: string)
    requires |x| == 2 && AllDigits(x)
    requires match d
      case Month => 1 <= Number(x) <= 12
      case Day => 1 <= Number(x) <= 31
      case Hour => Number(x) <= 23
      case _ => Number(x) <= 59
    ensures Token(d, x) && TokenValue(d, x) == Number(x)
  {
    TwoDigitNumber(x);
  }

  /** A zero-padded field followed by a single separator and a digit is read as its number. */
  lemma PaddedField(d: Directive, sep: Separator, s: string, i: nat)
    requires i + 3 < |s| && AllDigits(s[i..i + 2]) && Separates(sep, s[i + 2]) && IsDigit(s[i + 3])
    requires match d
      case Month => 1 <= Number(s[i..i + 2]) <= 12
      case Day => 1 <= Number(s[i..i + 2]) <= 31
      case Hour => Number(s[i..i + 2]) <= 23
      case _ => Number(s[i..i + 2]) <= 59
    ensures Field(d, sep, s, i) == Some((Number(s[i..i + 2]), i + 3))
  {
    PaddedIsToken(d, s[i..i + 2]);
    assert IsDigit(s[i + 1]) by { assert s[i..i + 2][1] == s[i + 1]; }
  }

  /** Parsing the rendering of a datetime gives that datetime back. */
  lemma ParseFormat(t: DateTime)
    requires Valid(t)
    ensures ParseStamp(Format(t)) == Some(t)
  {
    FormatLayout(t);
    ParseSpelled(Format(t), t);
  }

  /** Any text that spells a valid datetime in the `YYYY-MM-DD HH:MM:SS` layout parses as that datetime. */
  lemma ParseSpelled(f: string, t: DateTime)
    requires Valid(t) && Spells(f, t)
    ensures ParseStamp(f) == Some(t)
  {
    MiddleSpelled(f, t);
    PaddedIsToken(Second, f[17..]);
  }

  /** The month, day, hour and minute of such a text are read as the fields they spell. */
  lemma MiddleSpelled(f: string, t: DateTime)
    requires Valid(t) && Spells(f, t)
    ensures Fields(f, 5, MIDDLE) == Some(([t.month, t.day, t.hour, t.minute], 17))
  {
    assert IsDigit(f[8]) && IsDigit(f[11]) && IsDigit(f[14]) && IsDigit(f[17]) by {
      assert f[8..10][0] == f[8] && f[11..13][0] == f[11];
      assert f[14..16][0] == f[14] && f[17..][0] == f[17];
    }
    assert IsDigit(f[9]) && IsDigit(f[12]) && IsDigit(f[15]) by {
      assert f[8..10][1] == f[9] && f[11..13][1] == f[12] && f[14..16][1] == f[15];
    }
    PaddedField(Month, Dash, f, 5);
    PaddedField(Day, Blank, f, 8);
    PaddedField(Hour, Colon, f, 11);
    PaddedField(Minute, Colon, f, 14);
    MiddleFields(f, t.month, t.day, t.hour, t.minute, 17);
  }

  /** The middle of the pattern, read field by field. */
  lemma MiddleFields(f: string, month: nat, day: nat, hour: nat, minute: nat, l: nat)
    requires Field(Month, Dash, f, 5) == Some((month, 8)) && Field(Day, Blank, f, 8) == Some((day, 11))
    requires Field(Hour, Colon, f, 11) == Some((hour, 14)) && Field(Minute, Colon, f, 14) == Some((minute, l))
    ensures Fields(f, 5, MIDDLE) == Some(([month, day, hour, minute], l))
  {
    assert Fields(f, l, []) == Some(([], l));
    FieldsStep(f, 14, Minute, Colon, [], minute, l, [], l);
    assert [(Minute, Colon)] + [] == [(Minute, Colon)] && [minute] + [] == [minute];
    FieldsStep(f, 11, Hour, Colon, [(Minute, Colon)], hour, 14, [minute], l);
    assert [(Hour, Colon)] + [(Minute, Colon)] == [(Hour, Colon), (Minute, Colon)];
    assert [hour] + [minute] == [hour, minute];
    FieldsStep(f, 8, Day, Blank, [(Hour, Colon), (Minute, Colon)], day, 11, [hour, minute], l);
    assert [(Day, Blank)] + [(Hour, Colon), (Minute, Colon)] == [(Day, Blank), (Hour, Colon), (Minute, Colon)];
    assert [day] + [hour, minute] == [day, hour, minute];
    FieldsStep(f, 5, Month, Dash, [(Day, Blank), (Hour, Colon), (Minute, Colon)], month, 8, [day, hour, minute], l);
    assert [(Month, Dash)] + [(Day, Blank), (Hour, Colon), (Minute, Colon)] == MIDDLE;
    assert [month] + [day, hour, minute] == [month, day, hour, minute];
  }

  /** Reading one more directive in front of a pattern. */
  lemma FieldsStep(s: string, i: nat, d: Directive, sep: Separator, rest: seq<(Directive, Separator)>,
                   v: nat, j: nat, vs: seq<nat>, k: nat)
    requires Field(d, sep, s, i) == Some((v, j)) && Fields(s, j, rest) == Some((vs, k))
    ensures Fields(s, i, [(d, sep)] + rest) == Some(([v] + vs, k))
  {
    var p := [(d, sep)] + rest;
    assert p[0] == (d, sep) && p[1..] == rest;
  }

  /** Whatever the fields of a pattern read is made of pattern characters. */
  lemma {:induction false} FieldsChars(s: string, i: nat, pattern: seq<(Directive, Separator)>)
    requires Fields(s, i, pattern).Some?
    ensures forall k :: i <= k < Fields(s, i, pattern).value.1 ==> StampChar(s[k])
    decreases |pattern|
  {
    if pattern != [] {
      var (d, sep) := pattern[0];
      FieldChars(d, sep, s, i);
      FieldsChars(s, Field(d, sep, s, i).value.1, pattern[1..]);
    }
  }

  /** Whatever parses begins with a digit and holds only digits, whitespace, `-` and `:`. */
  lemma ParsedText(s: string)
    requires ParseStamp(s).Some?
    ensures IsDigit(s[0])
    ensures forall k :: 0 <= k < |s| ==> StampChar(s[k])
  {
    assert IsDigit(s[0]) by { assert s[..4][0] == s[0]; }
    var l := Fields(s, 5, MIDDLE).value.1;
    FieldsChars(s, 5, MIDDLE);
    SecondDigits(s[l..]);
    PiecesChars(s, l);
  }

  lemma SecondDigits(t: string)
    requires Token(Second, t)
    ensures AllDigits(t)
  {
  }

  /** A text whose year, fields and seconds are made of pattern characters is made of them throughout. */
  lemma PiecesChars(s: string, l: nat)
    requires 5 <= l <= |s| && AllDigits(s[..4]) && s[4] == '-' && AllDigits(s[l..])
    requires forall k :: 5 <= k < l ==> StampChar(s[k])
    ensures forall k :: 0 <= k < |s| ==> StampChar(s[k])
  {
    forall n | 0 <= n < |s| ensures StampChar(s[n]) {
      if n < 4 {
        assert s[..4][n] == s[n];
      } else if l <= n {
        assert s[l..][n - l] == s[n];
      }
    }
  }
}
