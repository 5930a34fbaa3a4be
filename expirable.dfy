/**
 * The expirable behaviour of a record: the expiry instant lives in the
 * `expired_at` attribute as text in the layout 'Y-m-d H:i:s'; the setter
 * renders a date-time into that layout and the getter parses it back.
 * Time zones and fractions of a second are not part of the model.
 */
module Expirable {
  import opened Wrappers

  /** A calendar date and wall-clock time, to the second. */
  datatype DateTime = DateTime(year: int, month: int, day: int, hour: int, minute: int, second: int)

  /** Leap years of the proleptic Gregorian calendar. */
  predicate IsLeapYear(y: int)
  {
    y % 4 == 0 && (y % 100 != 0 || y % 400 == 0)
  }

  function DaysInMonth(y: int, m: int): (n: int)
    requires 1 <= m <= 12
    ensures 28 <= n <= 31
  {
    if m == 2 then (if IsLeapYear(y) then 29 else 28)
    else if m == 4 || m == 6 || m == 9 || m == 11 then 30
    else 31
  }

  /** Every date-time object holds fields in these ranges. */
  predicate ValidDateTime(d: DateTime)
  {
    && 1 <= d.month <= 12 && 1 <= d.day <= DaysInMonth(d.year, d.month)
    && 0 <= d.hour <= 23 && 0 <= d.minute <= 59 && 0 <= d.second <= 59
  }

  // ---------------------------------------------------------------------------
  // Decimal digits

  predicate IsDigit(c: char)
  {
    '0' <= c <= '9'
  }

  predicate AllDigits(s: string)
  {
    forall i :: 0 <= i < |s| ==> IsDigit(s[i])
  }

  function DigitChar(k: nat): (c: char)
    requires k < 10
    ensures IsDigit(c)
  {
    ('0' as int + k) as char
  }

  function DigitValue(c: char): (k: nat)
    requires IsDigit(c)
    ensures k < 10 && DigitChar(k) == c
  {
    c as int - '0' as int
  }

  function Pow10(w: nat): (p: nat)
    ensures p >= 1
  {
    if w == 0 then 1 else 10 * Pow10(w - 1)
  }

  /** The last w decimal digits of n, with leading zeros. */
  function Fixed(n: nat, w: nat): (s: string)
    ensures |s| == w && AllDigits(s)
  {
    if w == 0 then [] else Fixed(n / 10, w - 1) + [DigitChar(n % 10)]
  }

  /** The number of decimal digits of n, without leading zeros. */
  function NumDigits(n: nat): (k: nat)
    ensures k >= 1
  {
    if n < 10 then 1 else 1 + NumDigits(n / 10)
  }

  /** The number a string of decimal digits denotes. */
  function ValueOf(ds: string): nat
    requires AllDigits(ds)
  {
    if ds == [] then 0 else ValueOf(ds[..|ds| - 1]) * 10 + DigitValue(ds[|ds| - 1])
  }

  lemma {:induction false} FixedValue(n: nat, w: nat)
    requires n < Pow10(w)
    ensures ValueOf(Fixed(n, w)) == n
  {
    if w > 0 {
      var f := Fixed(n, w);
      assert f[..w - 1] == Fixed(n / 10, w - 1);
      FixedValue(n / 10, w - 1);
    }
  }

  lemma {:induction false} FixedOfValue(ds: string)
    requires AllDigits(ds)
    ensures Fixed(ValueOf(ds), |ds|) == ds
  {
    if ds != [] {
      var front := ds[..|ds| - 1];
      FixedOfValue(front);
      assert ds == front + [ds[|ds| - 1]];
    }
  }

  lemma {:induction false} ValueOfBound(ds: string)
    requires AllDigits(ds)
    ensures ValueOf(ds) < Pow10(|ds|)
  {
    if ds != [] {
      ValueOfBound(ds[..|ds| - 1]);
    }
  }

  lemma {:induction false} NumDigitsBound(n: nat, w: nat)
    requires 1 <= w && n < Pow10(w)
    ensures NumDigits(n) <= w
  {
    if n >= 10 {
      if w > 1 {
        NumDigitsBound(n / 10, w - 1);
      }
    }
  }

  // ---------------------------------------------------------------------------
  // The layout 'Y-m-d H:i:s' as six numeric fields

  /**
   * One numeric field of the layout: the separator text before it, and how
   * many digits the parser reads for it (at least `min`, at most `max`).
   */
  datatype Field = Field(lead: string, min: nat, max: nat)

  /**
   * 'Y-m-d H:i:s' as createFromFormat reads it: 'Y' one to four digits, 'm',
   * 'd' and 'H' one or two, 'i' and 's' exactly two. The '-' and ':' must be
   * there literally; the ' ' stands for any run of spaces and tabs, an empty
   * one included (see Separator).
   */
  const Layout: seq<Field> :=
    [Field("", 1, 4), Field("-", 1, 2), Field("-", 1, 2), Field(" ", 1, 2), Field(":", 2, 2), Field(":", 2, 2)]

  /** The widths format() writes for a year 0 to 9999: Y four digits, the rest two. */
  const Widths: seq<nat> := [4, 2, 2, 2, 2, 2]

  /** Each field reads at least one digit, and each after the first is preceded by a non-digit separator. */
  predicate Separated(layout: seq<Field>)
  {
    layout != [] ==>
      && 1 <= layout[0].min
      && (|layout| == 1 || (layout[1].lead != [] && !IsDigit(layout[1].lead[0]) && Separated(layout[1..])))
  }

  /** The fields rendered with the given widths, each after its separator. */
  function Render(values: seq<nat>, widths: seq<nat>, layout: seq<Field>): (s: string)
    requires |values| == |widths| == |layout|
  {
    if layout == [] then []
    else layout[0].lead + Fixed(values[0], widths[0]) + Render(values[1..], widths[1..], layout[1..])
  }

  // ---------------------------------------------------------------------------
  // Rendering with 'Y-m-d H:i:s'

  function Max(a: int, b: int): int
  {
    if a < b then b else a
  }

  /** 'Y': the year with at least four digits, and a minus sign before a year before year 0. */
  function YearText(y: int): string
  {
    if y >= 0 then Fixed(y, Max(4, NumDigits(y)))
    else "-" + Fixed(-y, Max(4, NumDigits(-y)))
  }

  /**
   * DateTime::format('Y-m-d H:i:s'): nineteen characters for the years 0 to
   * 9999 and more for the others, with a minus sign first exactly for a year
   * before year 0.
   */
  function Format(d: DateTime): (s: string)
    requires ValidDateTime(d)
    ensures 19 <= |s| && (0 <= d.year <= 9999 ==> |s| == 19)
    ensures (d.year < 0 || 9999 < d.year) ==> 19 < |s|
    ensures s[0] == '-' <==> d.year < 0
  {
    var values := [d.month, d.day, d.hour, d.minute, d.second];
    RenderLength(values, Widths[1..], Layout[1..]);
    TailSpan();
    YearTextShape(d.year);
    YearTextWide(d.year);
    YearText(d.year) + Render(values, Widths[1..], Layout[1..])
  }

  /** The length of a rendering: every separator and every field's width. */
  function Span(widths: seq<nat>, layout: seq<Field>): nat
    requires |widths| == |layout|
  {
    if layout == [] then 0 else |layout[0].lead| + widths[0] + Span(widths[1..], layout[1..])
  }

  lemma {:induction false} RenderLength(values: seq<nat>, widths: seq<nat>, layout: seq<Field>)
    requires |values| == |widths| == |layout|
    ensures |Render(values, widths, layout)| == Span(widths, layout)
  {
    if layout != [] {
      RenderLength(values[1..], widths[1..], layout[1..]);
    }
  }

  /** '-m-d H:i:s' takes fifteen characters. */
  lemma TailSpan()
    ensures Span(Widths[1..], Layout[1..]) == 15
  {
    assert Span(Widths[6..], Layout[6..]) == 0;
    assert Span(Widths[5..], Layout[5..]) == 3;
    assert Span(Widths[4..], Layout[4..]) == 6;
    assert Span(Widths[3..], Layout[3..]) == 9;
    assert Span(Widths[2..], Layout[2..]) == 12;
  }

  /** A year before 0 or after 9999 takes more than four characters. */
  lemma YearTextWide(y: int)
    ensures (y < 0 || 9999 < y) ==> 4 < |YearText(y)|
  {
    YearTextShape(y);
    if 9999 < y {
      assert NumDigits(y) == 1 + NumDigits(y / 10);
      assert NumDigits(y / 10) == 1 + NumDigits(y / 100);
      assert NumDigits(y / 100) == 1 + NumDigits(y / 1000);
      assert NumDigits(y / 1000) == 1 + NumDigits(y / 10000);
    }
  }

  /** 'Y' takes four characters for the years 0 to 9999 and more otherwise, and starts with '-' exactly before year 0. */
  lemma YearTextShape(y: int)
    ensures 4 <= |YearText(y)| && (0 <= y <= 9999 ==> |YearText(y)| == 4)
    ensures YearText(y)[0] == '-' <==> y < 0
  {
    if 0 <= y <= 9999 {
      NumDigitsBound(y, 4);
    }
    if y >= 0 {
      var ds := Fixed(y, Max(4, NumDigits(y)));
      assert IsDigit(ds[0]);
    }
  }

  function FieldValues(d: DateTime): seq<nat>
    requires ValidDateTime(d) && 0 <= d.year
  {
    [d.year, d.month, d.day, d.hour, d.minute, d.second]
  }

  lemma FormatIsRender(d: DateTime)
    requires ValidDateTime(d) && 0 <= d.year <= 9999
    ensures Format(d) == Render(FieldValues(d), Widths, Layout)
  {
    NumDigitsBound(d.year, 4);
    var vs := FieldValues(d);
    assert vs[1..] == [d.month, d.day, d.hour, d.minute, d.second];
  }

  // ---------------------------------------------------------------------------
  // Parsing with DateTime::createFromFormat('Y-m-d H:i:s', ...)

  /** The number of decimal digits at the start of s. */
  function LeadingDigits(s: string): (n: nat)
    ensures n <= |s| && AllDigits(s[..n])
    ensures n < |s| ==> !IsDigit(s[n])
  {
    if s == [] || !IsDigit(s[0]) then 0
    else
      var n := 1 + LeadingDigits(s[1..]);
      assert s[..n] == [s[0]] + s[1..][..n - 1];
      n
  }

  datatype Num = Num(value: nat, rest: string)

  /** A numeric field: as many digits as are there, up to `max`, and at least `min`. */
  function Number(s: string, min: nat, max: nat): (r: Option<Num>)
    ensures r.Some? ==> min <= |s| - |r.value.rest| <= max
  {
    var k := if LeadingDigits(s) < max then LeadingDigits(s) else max;
    if k < min then None else Some(Num(ValueOf(s[..k]), s[k..]))
  }

  /** A separator text that must be there literally. */
  function Prefix(s: string, p: string): Option<string>
  {
    if |p| <= |s| && s[..|p|] == p then Some(s[|p|..]) else None
  }

  /** The white space a ' ' of the format matches. */
  predicate IsBlank(c: char)
  {
    c == ' ' || c == '\t'
  }

  predicate AllBlanks(s: string)
  {
    forall i :: 0 <= i < |s| ==> IsBlank(s[i])
  }

  /** The number of spaces and tabs at the start of s. */
  function Blanks(s: string): (n: nat)
    ensures n <= |s| && AllBlanks(s[..n])
    ensures n < |s| ==> !IsBlank(s[n])
  {
    if s == [] || !IsBlank(s[0]) then 0
    else
      var n := 1 + Blanks(s[1..]);
      assert s[..n] == [s[0]] + s[1..][..n - 1];
      n
  }

  /**
   * The separator before a field: a ' ' skips every space and tab there is,
   * none at all included; any other separator must be there literally.
   */
  function Separator(s: string, lead: string): (r: Option<string>)
    ensures lead == " " ==> r.Some?
    ensures lead != " " ==> (r.Some? <==> |lead| <= |s| && s[..|lead|] == lead)
    ensures r.Some? ==> |r.value| <= |s| && r.value == s[|s| - |r.value|..]
  {
    if lead == " " then Some(s[Blanks(s)..]) else Prefix(s, lead)
  }

  datatype Fields = Fields(values: seq<nat>, rest: string)

  /** Reads the fields of the layout in order; the text after the last field is returned. */
  function ReadFields(s: string, layout: seq<Field>): (r: Option<Fields>)
    ensures r.Some? ==> |r.value.values| == |layout|
  {
    if layout == [] then Some(Fields([], s))
    else
      var s1 :- Separator(s, layout[0].lead);
      var n :- Number(s1, layout[0].min, layout[0].max);
      var more :- ReadFields(n.rest, layout[1..]);
      Some(Fields([n.value] + more.values, more.rest))
  }

  function ToDateTime(values: seq<nat>): DateTime
    requires |values| == 6
  {
    DateTime(values[0], values[1], values[2], values[3], values[4], values[5])
  }

  /**
   * createFromFormat('Y-m-d H:i:s', s): the six fields, then nothing may
   * follow. A result whose fields are out of range is refused.
   */
  function Parse(s: string): (r: Option<DateTime>)
    ensures r.Some? ==> ValidDateTime(r.value)
  {
    var f :- ReadFields(s, Layout);
    if f.rest == [] && ValidDateTime(ToDateTime(f.values)) then Some(ToDateTime(f.values)) else None
  }

  lemma {:induction false} LeadingDigitsOfDigits(ds: string, rest: string)
    requires AllDigits(ds)
    requires rest == [] || !IsDigit(rest[0])
    ensures LeadingDigits(ds + rest) == |ds|
  {
    if ds != [] {
      assert (ds + rest)[1..] == ds[1..] + rest;
      LeadingDigitsOfDigits(ds[1..], rest);
    } else {
      assert ds + rest == rest;
    }
  }

  /**
   * A w-digit field is read back as its value when a non-digit follows it,
   * or when w is already the most the field reads.
   */
  lemma NumberOfFixed(n: nat, w: nat, rest: string, min: nat, max: nat)
    requires n < Pow10(w) && min <= w <= max
    requires rest == [] || !IsDigit(rest[0]) || w == max
    ensures Number(Fixed(n, w) + rest, min, max) == Some(Num(n, rest))
  {
    var s := Fixed(n, w) + rest;
    assert s[..w] == Fixed(n, w) && s[w..] == rest;
    if rest == [] || !IsDigit(rest[0]) {
      LeadingDigitsOfDigits(Fixed(n, w), rest);
    } else {
      LeadingDigitsAtLeast(s, w);
    }
    FixedValue(n, w);
  }

  /** A run of spaces and tabs is skipped up to the first other character. */
  lemma {:induction false} BlanksOfRun(ws: string, rest: string)
    requires AllBlanks(ws)
    requires rest == [] || !IsBlank(rest[0])
    ensures Blanks(ws + rest) == |ws|
  {
    if ws != [] {
      assert (ws + rest)[1..] == ws[1..] + rest;
      BlanksOfRun(ws[1..], rest);
    } else {
      assert ws + rest == rest;
    }
  }

  /** The separator a field was rendered with is read when digits follow it. */
  lemma SeparatorBeforeDigits(s: string, lead: string, rest: string)
    requires |lead| <= |s| && s[..|lead|] == lead && s[|lead|..] == rest
    requires rest != [] && IsDigit(rest[0])
    ensures Separator(s, lead) == Some(rest)
  {
    if lead == " " {
      assert s == " " + rest;
      BlanksOfRun(" ", rest);
    }
  }

  /** Values that fit their widths, widths the parser accepts for each field. */
  predicate Fits(values: seq<nat>, widths: seq<nat>, layout: seq<Field>)
  {
    && |values| == |widths| == |layout|
    && (layout != [] ==>
          && values[0] < Pow10(widths[0])
          && layout[0].min <= widths[0] <= layout[0].max
          && Fits(values[1..], widths[1..], layout[1..]))
  }

  /** One step of ReadFields: separator, then number, then the remaining fields. */
  lemma ReadFieldsStep(s: string, layout: seq<Field>, after: string, n: Num)
    requires layout != []
    requires Separator(s, layout[0].lead) == Some(after)
    requires Number(after, layout[0].min, layout[0].max) == Some(n)
    ensures ReadFields(s, layout) ==
      match ReadFields(n.rest, layout[1..])
      case None => None
      case Some(more) => Some(Fields([n.value] + more.values, more.rest))
  {
  }

  /** What follows a rendered field: the next separator, or the tail after the last field. */
  lemma RenderStartsWithSeparator(values: seq<nat>, widths: seq<nat>, layout: seq<Field>, tail: string)
    requires |values| == |widths| == |layout| && |layout| > 1 && Separated(layout)
    ensures var after := Render(values[1..], widths[1..], layout[1..]) + tail;
      after != [] && !IsDigit(after[0])
  {
    var lead := layout[1].lead;
    assert lead != [] && !IsDigit(lead[0]);
    var r := Render(values[1..], widths[1..], layout[1..]);
    assert r == lead + (Fixed(values[1], widths[1]) + Render(values[2..], widths[2..], layout[2..]));
    assert (r + tail)[0] == lead[0];
  }

  /**
   * What follows the last field cannot be taken for more of its digits: it
   * does not start with a digit, or the field was rendered as wide as it is read.
   */
  predicate EndsField(tail: string, widths: seq<nat>, layout: seq<Field>)
    requires |widths| == |layout|
  {
    layout == [] || tail == [] || !IsDigit(tail[0]) || widths[|widths| - 1] == layout[|layout| - 1].max
  }

  /** The first field of a rendering is read back, and the rest is read as the rest was. */
  lemma ReadRenderStep(values: seq<nat>, widths: seq<nat>, layout: seq<Field>, tail: string)
    requires Fits(values, widths, layout) && Separated(layout) && layout != []
    requires EndsField(tail, widths, layout)
    requires ReadFields(Render(values[1..], widths[1..], layout[1..]) + tail, layout[1..]) ==
      Some(Fields(values[1..], tail))
    ensures ReadFields(Render(values, widths, layout) + tail, layout) == Some(Fields(values, tail))
  {
    var lead := layout[0].lead;
    var digits := Fixed(values[0], widths[0]);
    var after := Render(values[1..], widths[1..], layout[1..]) + tail;
    var s := Render(values, widths, layout) + tail;
    RenderFirst(values, widths, layout, tail);
    if |layout| > 1 {
      RenderStartsWithSeparator(values, widths, layout, tail);
    } else {
      assert after == tail;
    }
    NumberOfFixed(values[0], widths[0], after, layout[0].min, layout[0].max);
    assert (digits + after)[0] == digits[0];
    SeparatorBeforeDigits(s, lead, digits + after);
    ReadFieldsStep(s, layout, digits + after, Num(values[0], after));
    HeadTail(values);
  }

  lemma HeadTail(values: seq<nat>)
    requires values != []
    ensures [values[0]] + values[1..] == values
  {
  }

  /** A rendering followed by a tail splits into the first separator, the first field and the rest. */
  lemma RenderFirst(values: seq<nat>, widths: seq<nat>, layout: seq<Field>, tail: string)
    requires |values| == |widths| == |layout| && layout != []
    ensures var lead := layout[0].lead;
      var s := Render(values, widths, layout) + tail;
      var rest := Fixed(values[0], widths[0]) + (Render(values[1..], widths[1..], layout[1..]) + tail);
      |lead| <= |s| && s[..|lead|] == lead && s[|lead|..] == rest
  {
    var lead := layout[0].lead;
    var s := Render(values, widths, layout) + tail;
    var digits := Fixed(values[0], widths[0]);
    var more := Render(values[1..], widths[1..], layout[1..]);
    assert Render(values, widths, layout) == lead + digits + more;
    SplitAfter(lead, digits, more, tail);
  }

  lemma SplitAfter(a: string, b: string, c: string, t: string)
    ensures var s := a + b + c + t;
      |a| <= |s| && s[..|a|] == a && s[|a|..] == b + (c + t)
  {
    var s := a + b + c + t;
    assert s == a + (b + (c + t));
  }

  /** Reading a rendering gives back the values and whatever followed. */
  lemma {:induction false} ReadRender(values: seq<nat>, widths: seq<nat>, layout: seq<Field>, tail: string)
    requires Fits(values, widths, layout) && Separated(layout)
    requires EndsField(tail, widths, layout)
    ensures ReadFields(Render(values, widths, layout) + tail, layout) == Some(Fields(values, tail))
  {
    if layout != [] {
      ReadRender(values[1..], widths[1..], layout[1..], tail);
      ReadRenderStep(values, widths, layout, tail);
    } else {
      assert values == [] && Render(values, widths, layout) + tail == tail;
    }
  }

  /** Fits holds when every value, width and field agree index by index. */
  lemma {:induction false} FitsPointwise(values: seq<nat>, widths: seq<nat>, layout: seq<Field>)
    requires |values| == |widths| == |layout|
    requires forall i :: 0 <= i < |layout| ==>
      values[i] < Pow10(widths[i]) && layout[i].min <= widths[i] <= layout[i].max
    ensures Fits(values, widths, layout)
  {
    if layout != [] {
      FitsPointwise(values[1..], widths[1..], layout[1..]);
    }
  }

  /** The six fields of a valid date-time of years 0 to 9999 fit the widths format() uses. */
  lemma FieldValuesFit(d: DateTime)
    requires ValidDateTime(d) && 0 <= d.year <= 9999
    ensures Fits(FieldValues(d), Widths, Layout)
  {
    assert Pow10(2) == 100 && Pow10(4) == 10000;
    var vs := FieldValues(d);
    LayoutEntries();
    forall i | 0 <= i < 6
      ensures vs[i] < Pow10(Widths[i]) && Layout[i].min <= Widths[i] <= Layout[i].max
    {
    }
    FitsPointwise(vs, Widths, Layout);
  }

  /** Every separator after the first field of 'Y-m-d H:i:s' starts with a non-digit. */
  lemma LayoutIsSeparated()
    ensures Separated(Layout)
  {
    assert Separated(Layout[5..]);
    assert Layout[4..][1..] == Layout[5..];
    assert Separated(Layout[4..]);
    assert Layout[3..][1..] == Layout[4..];
    assert Separated(Layout[3..]);
    assert Layout[2..][1..] == Layout[3..];
    assert Separated(Layout[2..]);
    assert Layout[1..][1..] == Layout[2..];
    assert Separated(Layout[1..]);
  }

  /** After rendering a valid date-time of years 0 to 9999, parsing gives the same six fields. */
  lemma ParseFormat(d: DateTime)
    requires ValidDateTime(d) && 0 <= d.year <= 9999
    ensures Parse(Format(d)) == Some(d)
  {
    FormatIsRender(d);
    FieldValuesFit(d);
    LayoutIsSeparated();
    ReadRender(FieldValues(d), Widths, Layout, []);
    AppendEmpty(Format(d));
  }

  lemma AppendEmpty(s: string)
    ensures s + [] == s
  {
  }

  // ---------------------------------------------------------------------------
  // White space between the date and the time

  /** 'Y-m-d' of a date-time of years 0 to 9999. */
  function DateText(d: DateTime): string
    requires ValidDateTime(d) && 0 <= d.year
  {
    Render(FieldValues(d)[..3], Widths[..3], Layout[..3])
  }

  /** 'H:i:s' of a date-time. */
  function TimeText(d: DateTime): string
    requires ValidDateTime(d) && 0 <= d.year
  {
    Fixed(d.hour, 2) + Render(FieldValues(d)[4..], Widths[4..], Layout[4..])
  }

  /**
   * format() writes one space between the date and the time, and the parser
   * reads the date-time back with any run of spaces and tabs there instead,
   * none at all included.
   */
  lemma BlanksBeforeHour(d: DateTime, ws: string)
    requires ValidDateTime(d) && 0 <= d.year <= 9999 && AllBlanks(ws)
    ensures Format(d) == DateText(d) + " " + TimeText(d)
    ensures Parse(DateText(d) + ws + TimeText(d)) == Some(d)
  {
    var vs := FieldValues(d);
    var date := DateText(d);
    var time := TimeText(d);
    FormatAroundSpace(d);
    ReadDate(d, ws + time);
    ReadTime(d, ws);
    assert date + ws + time == date + (ws + time);
    ReadFieldsThen(date + ws + time, Layout[..3], Layout[3..],
      Fields(vs[..3], ws + time), Fields(vs[3..], []));
    assert Layout[..3] + Layout[3..] == Layout;
    assert vs[..3] + vs[3..] == vs;
  }

  /** The last three fields of 'Y-m-d H:i:s' are the space and 'H:i:s'. */
  lemma TimeIsRender(d: DateTime)
    requires ValidDateTime(d) && 0 <= d.year
    ensures Render(FieldValues(d)[3..], Widths[3..], Layout[3..]) == " " + TimeText(d)
  {
    var vs := FieldValues(d);
    assert vs[3..][1..] == vs[4..] && Widths[3..][1..] == Widths[4..] && Layout[3..][1..] == Layout[4..];
  }

  lemma FormatAroundSpace(d: DateTime)
    requires ValidDateTime(d) && 0 <= d.year <= 9999
    ensures Format(d) == DateText(d) + " " + TimeText(d)
  {
    FormatIsRender(d);
    RenderSplit(FieldValues(d), Widths, Layout, 3);
    TimeIsRender(d);
  }

  /** 'Y-m-d' is read back whatever follows it. */
  lemma ReadDate(d: DateTime, tail: string)
    requires ValidDateTime(d) && 0 <= d.year <= 9999
    ensures ReadFields(DateText(d) + tail, Layout[..3]) == Some(Fields(FieldValues(d)[..3], tail))
  {
    var vs := FieldValues(d);
    FieldValuesFit(d);
    FitsSplit(vs, Widths, Layout, 3);
    LayoutIsSeparated();
    SeparatedSplit(Layout, 3);
    assert Widths[..3][2] == 2 == Layout[..3][2].max;
    ReadRender(vs[..3], Widths[..3], Layout[..3], tail);
  }

  /** ' H:i:s' is read back with any run of spaces and tabs in front of 'H'. */
  lemma ReadTime(d: DateTime, ws: string)
    requires ValidDateTime(d) && 0 <= d.year <= 9999 && AllBlanks(ws)
    ensures ReadFields(ws + TimeText(d), Layout[3..]) == Some(Fields(FieldValues(d)[3..], []))
  {
    var vs := FieldValues(d);
    var time := TimeText(d);
    FieldValuesFit(d);
    FitsSplit(vs, Widths, Layout, 3);
    LayoutIsSeparated();
    SeparatedSplit(Layout, 3);
    TimeIsRender(d);
    ReadRender(vs[3..], Widths[3..], Layout[3..], []);
    AppendEmpty(" " + time);
    assert time != [] && IsDigit(time[0]);
    BlanksOfRun(ws, time);
    BlanksOfRun(" ", time);
    assert Layout[3..][0].lead == " ";
    SameAfterSeparator(ws + time, " " + time, Layout[3..]);
  }

  lemma {:induction false} RenderSplit(values: seq<nat>, widths: seq<nat>, layout: seq<Field>, k: nat)
    requires |values| == |widths| == |layout| && k <= |layout|
    ensures Render(values, widths, layout) ==
      Render(values[..k], widths[..k], layout[..k]) + Render(values[k..], widths[k..], layout[k..])
  {
    if k > 0 {
      RenderSplit(values[1..], widths[1..], layout[1..], k - 1);
      assert values[..k][1..] == values[1..][..k - 1] && values[1..][k - 1..] == values[k..];
      assert widths[..k][1..] == widths[1..][..k - 1] && widths[1..][k - 1..] == widths[k..];
      assert layout[..k][1..] == layout[1..][..k - 1] && layout[1..][k - 1..] == layout[k..];
    } else {
      assert values[0..] == values && widths[0..] == widths && layout[0..] == layout;
    }
  }

  lemma {:induction false} FitsSplit(values: seq<nat>, widths: seq<nat>, layout: seq<Field>, k: nat)
    requires Fits(values, widths, layout) && k <= |layout|
    ensures Fits(values[..k], widths[..k], layout[..k]) && Fits(values[k..], widths[k..], layout[k..])
  {
    if k > 0 {
      FitsSplit(values[1..], widths[1..], layout[1..], k - 1);
      assert values[..k][1..] == values[1..][..k - 1] && values[1..][k - 1..] == values[k..];
      assert widths[..k][1..] == widths[1..][..k - 1] && widths[1..][k - 1..] == widths[k..];
      assert layout[..k][1..] == layout[1..][..k - 1] && layout[1..][k - 1..] == layout[k..];
    } else {
      assert values[0..] == values && widths[0..] == widths && layout[0..] == layout;
    }
  }

  lemma {:induction false} SeparatedSplit(layout: seq<Field>, k: nat)
    requires Separated(layout) && k <= |layout|
    ensures Separated(layout[..k]) && Separated(layout[k..])
  {
    if k > 0 {
      SeparatedSplit(layout[1..], k - 1);
      assert layout[..k][1..] == layout[1..][..k - 1] && layout[1..][k - 1..] == layout[k..];
    } else {
      assert layout[0..] == layout;
    }
  }

  /** Texts whose separators leave the same rest are read alike. */
  lemma SameAfterSeparator(a: string, b: string, layout: seq<Field>)
    requires layout != [] && Separator(a, layout[0].lead) == Separator(b, layout[0].lead)
    ensures ReadFields(a, layout) == ReadFields(b, layout)
  {
  }

  /** The separator and the number a successful read of a layout starts with. */
  lemma ReadFieldsFirst(s: string, layout: seq<Field>) returns (after: string, n: Num)
    requires layout != [] && ReadFields(s, layout).Some?
    ensures Separator(s, layout[0].lead) == Some(after)
    ensures Number(after, layout[0].min, layout[0].max) == Some(n)
    ensures ReadFields(n.rest, layout[1..]).Some?
  {
    after := Separator(s, layout[0].lead).value;
    n := Number(after, layout[0].min, layout[0].max).value;
  }

  lemma JoinedTail(first: seq<Field>, second: seq<Field>)
    requires first != []
    ensures (first + second)[0] == first[0] && (first + second)[1..] == first[1..] + second
  {
  }

  /** Reading two layouts one after the other is reading them joined. */
  lemma {:induction false} ReadFieldsThen(s: string, first: seq<Field>, second: seq<Field>, f1: Fields, f2: Fields)
    requires ReadFields(s, first) == Some(f1) && ReadFields(f1.rest, second) == Some(f2)
    ensures ReadFields(s, first + second) == Some(Fields(f1.values + f2.values, f2.rest))
  {
    if first == [] {
      assert first + second == second && f1.values == [] && f1.rest == s;
      assert [] + f2.values == f2.values;
    } else {
      var after, n := ReadFieldsFirst(s, first);
      var more := ReadFields(n.rest, first[1..]).value;
      ReadFieldsStep(s, first, after, n);
      ReadFieldsThen(n.rest, first[1..], second, more, f2);
      ReadJoinedStep(s, first, second, after, n, more.values, f2);
    }
  }

  /** One step of ReadFieldsThen: the first field, then the rest of both layouts. */
  lemma ReadJoinedStep(s: string, first: seq<Field>, second: seq<Field>, after: string, n: Num, values: seq<nat>, f2: Fields)
    requires first != []
    requires Separator(s, first[0].lead) == Some(after)
    requires Number(after, first[0].min, first[0].max) == Some(n)
    requires ReadFields(n.rest, first[1..] + second) == Some(Fields(values + f2.values, f2.rest))
    ensures ReadFields(s, first + second) == Some(Fields([n.value] + values + f2.values, f2.rest))
  {
    JoinedTail(first, second);
    ReadFieldsStep(s, first + second, after, n);
    assert [n.value] + (values + f2.values) == [n.value] + values + f2.values;
  }

  // ---------------------------------------------------------------------------
  // Well-formed expiry text

  /** The text has the fields' digits, in the widths given, each after its separator, and nothing else. */
  predicate Shaped(s: string, widths: seq<nat>, layout: seq<Field>)
    requires |widths| == |layout|
  {
    if layout == [] then s == []
    else
      var l := |layout[0].lead|;
      && l + widths[0] <= |s| && s[..l] == layout[0].lead
      && AllDigits(s[l..l + widths[0]])
      && Shaped(s[l + widths[0]..], widths[1..], layout[1..])
  }

  /** Each width lies within what the parser reads for its field. */
  predicate WidthsAccepted(widths: seq<nat>, layout: seq<Field>)
    requires |widths| == |layout|
  {
    layout != [] ==>
      layout[0].min <= widths[0] <= layout[0].max && WidthsAccepted(widths[1..], layout[1..])
  }

  lemma {:induction false} WidthsAcceptedPointwise(widths: seq<nat>, layout: seq<Field>)
    requires |widths| == |layout|
    requires forall i :: 0 <= i < |layout| ==> layout[i].min <= widths[i] <= layout[i].max
    ensures WidthsAccepted(widths, layout)
  {
    if layout != [] {
      WidthsAcceptedPointwise(widths[1..], layout[1..]);
    }
  }

  lemma WidthsAreAccepted()
    ensures WidthsAccepted(Widths, Layout)
  {
    LayoutEntries();
    forall i | 0 <= i < 6
      ensures Layout[i].min <= Widths[i] <= Layout[i].max
    {
    }
    WidthsAcceptedPointwise(Widths, Layout);
  }

  /** The values the digit groups of a shaped text denote. */
  function ShapedValues(s: string, widths: seq<nat>, layout: seq<Field>): (vs: seq<nat>)
    requires |widths| == |layout| && Shaped(s, widths, layout)
    ensures |vs| == |layout|
  {
    if layout == [] then []
    else
      var l := |layout[0].lead|;
      [ValueOf(s[l..l + widths[0]])] + ShapedValues(s[l + widths[0]..], widths[1..], layout[1..])
  }

  lemma Reassemble(s: string, i: nat, j: nat)
    requires i <= j <= |s|
    ensures s == s[..i] + s[i..j] + s[j..]
  {
  }

  lemma ConsParts(v: nat, vs: seq<nat>)
    ensures ([v] + vs)[0] == v && ([v] + vs)[1..] == vs
  {
  }

  /** Rendering the values of a shaped text gives the text back, and they fit their widths. */
  lemma {:induction false} RenderShaped(s: string, widths: seq<nat>, layout: seq<Field>)
    requires |widths| == |layout| && Shaped(s, widths, layout) && WidthsAccepted(widths, layout)
    ensures Fits(ShapedValues(s, widths, layout), widths, layout)
    ensures Render(ShapedValues(s, widths, layout), widths, layout) == s
  {
    if layout != [] {
      var l := |layout[0].lead|;
      var ds := s[l..l + widths[0]];
      var rest := s[l + widths[0]..];
      var vs := ShapedValues(s, widths, layout);
      RenderShaped(rest, widths[1..], layout[1..]);
      FixedOfValue(ds);
      ValueOfBound(ds);
      ConsParts(ValueOf(ds), ShapedValues(rest, widths[1..], layout[1..]));
      Reassemble(s, l, l + widths[0]);
    }
  }

  /**
   * The exact shape format() produces for years 0 to 9999: a four-digit year
   * and two-digit month, day, hour, minute and second, separated by '-', '-',
   * ' ', ':' and ':'.
   */
  predicate WellFormed(s: string)
  {
    Shaped(s, Widths, Layout)
  }

  /** The six fields a well-formed text spells out. */
  function FieldsOf(s: string): DateTime
    requires WellFormed(s)
  {
    ToDateTime(ShapedValues(s, Widths, Layout))
  }

  /** A well-formed text is nineteen characters long with its separators at 4, 7, 10, 13 and 16. */
  lemma WellFormedPositions(s: string)
    requires WellFormed(s)
    ensures |s| == 19
    ensures s[4] == '-' && s[7] == '-' && s[10] == ' ' && s[13] == ':' && s[16] == ':'
  {
    DateFieldsAt(s);
    TimeFieldsAt(s);
  }

  /** The year, month and day of a well-formed text, and the separators before month and day. */
  lemma DateFieldsAt(s: string)
    requires WellFormed(s)
    ensures 10 <= |s| && s[4] == '-' && s[7] == '-' && Shaped(s[10..], Widths[3..], Layout[3..])
  {
    assert s[0..] == s;
    LayoutEntries();
    var i1 := ShapedAt(s, 0, Widths, Layout, 0);
    assert i1 == 4;
    var i2 := ShapedAt(s, i1, Widths, Layout, 1);
    assert i2 == 7 && s[4] == '-';
    var i3 := ShapedAt(s, i2, Widths, Layout, 2);
    assert i3 == 10 && s[7] == '-';
  }

  /** The hour, minute and second of a well-formed text, and the separators before them. */
  lemma TimeFieldsAt(s: string)
    requires 10 <= |s| && Shaped(s[10..], Widths[3..], Layout[3..])
    ensures |s| == 19 && s[10] == ' ' && s[13] == ':' && s[16] == ':'
  {
    LayoutEntries();
    var i4 := ShapedAt(s, 10, Widths, Layout, 3);
    assert i4 == 13 && s[10] == ' ';
    ClockFieldsAt(s);
  }

  /** The minute and second of a well-formed text, and the colons before them. */
  lemma ClockFieldsAt(s: string)
    requires 13 <= |s| && Shaped(s[13..], Widths[4..], Layout[4..])
    ensures |s| == 19 && s[13] == ':' && s[16] == ':'
  {
    LayoutEntries();
    var i5 := ShapedAt(s, 13, Widths, Layout, 4);
    assert i5 == 16 && s[13] == ':';
    var i6 := ShapedAt(s, i5, Widths, Layout, 5);
    assert i6 == 19 && s[16] == ':';
  }

  /** The separators and widths of 'Y-m-d H:i:s' one by one. */
  lemma LayoutEntries()
    ensures |Layout| == |Widths| == 6 && Layout[6..] == [] && Widths[6..] == []
    ensures Layout[0].lead == "" && Widths[0] == 4
    ensures Layout[1].lead == "-" && Widths[1] == 2
    ensures Layout[2].lead == "-" && Widths[2] == 2
    ensures Layout[3].lead == " " && Widths[3] == 2
    ensures Layout[4].lead == ":" && Widths[4] == 2
    ensures Layout[5].lead == ":" && Widths[5] == 2
    ensures Layout[0].min == 1 && Layout[0].max == 4
    ensures forall i :: 1 <= i < 6 ==> Layout[i].max == 2 && Layout[i].min <= 2
  {
  }

  /** The field at index `k` of a shaped text that starts at position `i` of `s`; `j` is where it ends. */
  lemma ShapedAt(s: string, i: nat, widths: seq<nat>, layout: seq<Field>, k: nat) returns (j: nat)
    requires |widths| == |layout| && k < |layout|
    requires i <= |s| && Shaped(s[i..], widths[k..], layout[k..])
    ensures j == i + |layout[k].lead| + widths[k] <= |s|
    ensures |layout[k].lead| == 1 ==> s[i] == layout[k].lead[0]
    ensures Shaped(s[j..], widths[k + 1..], layout[k + 1..])
  {
    var t := s[i..];
    var l := |layout[k].lead|;
    j := i + l + widths[k];
    assert widths[k..][1..] == widths[k + 1..] && layout[k..][1..] == layout[k + 1..];
    assert t[l + widths[k]..] == s[j..];
    if l == 1 {
      assert t[..1][0] == s[i];
    }
  }

  /**
   * A well-formed text parses exactly when its fields are in range, and
   * rendering the result gives the text back.
   */
  lemma FormatParse(s: string)
    requires WellFormed(s)
    ensures Parse(s) == (if ValidDateTime(FieldsOf(s)) then Some(FieldsOf(s)) else None)
    ensures Parse(s).Some? ==> Format(Parse(s).value) == s
  {
    ReadWellFormed(s);
    if ValidDateTime(FieldsOf(s)) {
      FormatOfFields(s);
    }
  }

  /** The reader recovers the digit groups of a well-formed text and leaves nothing over. */
  lemma ReadWellFormed(s: string)
    requires WellFormed(s)
    ensures ReadFields(s, Layout) == Some(Fields(ShapedValues(s, Widths, Layout), []))
  {
    WidthsAreAccepted();
    LayoutIsSeparated();
    RenderShaped(s, Widths, Layout);
    ReadRender(ShapedValues(s, Widths, Layout), Widths, Layout, []);
    AppendEmpty(s);
  }

  /** Rendering the fields of a well-formed text gives the text back when they are in range. */
  lemma FormatOfFields(s: string)
    requires WellFormed(s) && ValidDateTime(FieldsOf(s))
    ensures Format(FieldsOf(s)) == s
  {
    var vs := ShapedValues(s, Widths, Layout);
    var d := FieldsOf(s);
    WidthsAreAccepted();
    RenderShaped(s, Widths, Layout);
    assert vs == FieldValues(d);
    FormatIsRender(d);
  }

  lemma FormatIsWellFormed(d: DateTime)
    requires ValidDateTime(d) && 0 <= d.year <= 9999
    ensures WellFormed(Format(d)) && |Format(d)| == 19
  {
    FormatIsRender(d);
    RenderIsShaped(FieldValues(d), Widths, Layout);
    WellFormedPositions(Format(d));
  }

  lemma {:induction false} RenderIsShaped(values: seq<nat>, widths: seq<nat>, layout: seq<Field>)
    requires |values| == |widths| == |layout|
    ensures Shaped(Render(values, widths, layout), widths, layout)
  {
    if layout != [] {
      var lead := layout[0].lead;
      var digits := Fixed(values[0], widths[0]);
      var more := Render(values[1..], widths[1..], layout[1..]);
      RenderIsShaped(values[1..], widths[1..], layout[1..]);
      assert Render(values, widths, layout) == lead + digits + more;
      Slices(lead, digits, more);
    }
  }

  lemma Slices(a: string, b: string, c: string)
    ensures var s := a + b + c;
      s[..|a|] == a && s[|a|..|a| + |b|] == b && s[|a| + |b|..] == c
  {
  }

  /** The number of leading digits is at least the length of an all-digit prefix. */
  lemma {:induction false} LeadingDigitsAtLeast(s: string, k: nat)
    requires k <= |s| && AllDigits(s[..k])
    ensures LeadingDigits(s) >= k
  {
    if k > 0 {
      assert IsDigit(s[..k][0]);
      assert s[1..][..k - 1] == s[..k][1..];
      LeadingDigitsAtLeast(s[1..], k - 1);
    }
  }

  /** A text that starts with five digits does not parse: 'Y' stops after four and '-' is missing. */
  lemma FiveDigitYearFails(s: string)
    requires 5 <= |s| && AllDigits(s[..5])
    ensures Parse(s) == None
  {
    assert Layout[0] == Field("", 1, 4) && Layout[1..][0] == Field("-", 1, 2);
    assert Separator(s, "") == Some(s);
    LeadingDigitsAtLeast(s, 5);
    assert Number(s, 1, 4) == Some(Num(ValueOf(s[..4]), s[4..]));
    assert IsDigit(s[..5][4]);
    assert Separator(s[4..], "-") == None;
    assert ReadFields(s[4..], Layout[1..]) == None;
  }

  /** A text that starts with a minus sign does not parse: 'Y' reads no sign. */
  lemma SignedYearFails(s: string)
    requires s != [] && s[0] == '-'
    ensures Parse(s) == None
  {
    assert Layout[0] == Field("", 1, 4);
    assert Separator(s, "") == Some(s);
    assert LeadingDigits(s) == 0;
    assert Number(s, 1, 4) == None;
    assert ReadFields(s, Layout) == None;
  }

  /**
   * Years the parser cannot read back: a year before year 0 renders with a
   * minus sign and a year after 9999 with five or more digits, and 'Y' reads
   * at most four digits, so getExpiryDateTime fails on what setExpiryDateTime
   * wrote.
   */
  lemma WideYearsDoNotRoundTrip(d: DateTime)
    requires ValidDateTime(d) && (d.year < 0 || d.year > 9999)
    ensures Parse(Format(d)) == None
  {
    var rest := Render([d.month, d.day, d.hour, d.minute, d.second], Widths[1..], Layout[1..]);
    if d.year < 0 {
      NegativeYearText(d.year, rest);
      SignedYearFails(Format(d));
    } else {
      WideYearText(d.year, rest);
      FiveDigitYearFails(Format(d));
    }
  }

  lemma NegativeYearText(y: int, rest: string)
    requires y < 0
    ensures var s := YearText(y) + rest; s != [] && s[0] == '-'
  {
  }

  lemma WideYearText(y: int, rest: string)
    requires y > 9999
    ensures var s := YearText(y) + rest; 5 <= |s| && AllDigits(s[..5])
  {
    var k := NumDigits(y);
    assert k >= 5 by {
      assert NumDigits(y) == 1 + NumDigits(y / 10);
      assert NumDigits(y / 10) == 1 + NumDigits(y / 100);
      assert NumDigits(y / 100) == 1 + NumDigits(y / 1000);
      assert NumDigits(y / 1000) == 1 + NumDigits(y / 10000);
    }
    var ds := Fixed(y, k);
    assert YearText(y) == ds;
    assert (ds + rest)[..5] == ds[..5];
  }

  // ---------------------------------------------------------------------------
  // The record

  const ExpiredAt: string := "expired_at"

  /** An active record's attribute storage, reduced to text attributes by name. */
  class Record {
    var attributes: map<string, string>

    constructor (attributes: map<string, string>)
      ensures this.attributes == attributes
    {
      this.attributes := attributes;
    }

    /**
     * getExpiryDateTime: parse `expired_at`. A missing attribute reads as
     * null; the model takes that to fail like the empty string (see the
     * README for PHP 8.1 and later). Nothing is changed.
     */
    function ExpiryDateTime(): (r: Option<DateTime>)
      reads this
      ensures r.Some? ==> ExpiredAt in attributes && ValidDateTime(r.value)
      ensures ExpiredAt in attributes && WellFormed(attributes[ExpiredAt]) && r.Some? ==>
        Format(r.value) == attributes[ExpiredAt]
    {
      var text := if ExpiredAt in attributes then attributes[ExpiredAt] else "";
      if WellFormed(text) then FormatParse(text); Parse(text) else Parse(text)
    }

    /** setExpiryDateTime: write the rendering to `expired_at` and touch nothing else. */
    method SetExpiryDateTime(d: DateTime)
      requires ValidDateTime(d)
      modifies this
      ensures attributes == old(attributes)[ExpiredAt := Format(d)]
      ensures 0 <= d.year <= 9999 ==> ExpiryDateTime() == Some(d)
      ensures 0 <= d.year <= 9999 ==> WellFormed(attributes[ExpiredAt]) && |attributes[ExpiredAt]| == 19
    {
      attributes := attributes[ExpiredAt := Format(d)];
      if 0 <= d.year <= 9999 {
        ParseFormat(d);
        FormatIsWellFormed(d);
      }
    }
  }
}
