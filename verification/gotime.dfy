/** The part of Go's `time` package the naming logic depends on: `Format`
    and `Parse` for layouts built from a four-digit year, a month, a day and
    literal text. A layout is the sequence of chunks Go's `nextStdChunk`
    splits it into. */
module GoTime {
  import opened Wrappers
  import opened Calendar

  /** One chunk of a layout: `2006`, `01`, `1`, `02`, `2`, or literal text. */
  datatype Chunk = LongYear | ZeroMonth | NumMonth | ZeroDay | NumDay | Lit(text: string)

  type Layout = seq<Chunk>

  /** "2006-01-02" */
  const DashLayout: Layout := [LongYear, Lit("-"), ZeroMonth, Lit("-"), ZeroDay]
  /** "2006/01/02" */
  const SlashLayout: Layout := [LongYear, Lit("/"), ZeroMonth, Lit("/"), ZeroDay]
  /** "2006/01/02.pdf" */
  const StorageLayout: Layout := [LongYear, Lit("/"), ZeroMonth, Lit("/"), ZeroDay, Lit(".pdf")]
  /** "2006-01-02.pdf" */
  const PdfNameLayout: Layout := [LongYear, Lit("-"), ZeroMonth, Lit("-"), ZeroDay, Lit(".pdf")]
  /** "1-2-2006" */
  const UpstreamLayout: Layout := [NumMonth, Lit("-"), NumDay, Lit("-"), LongYear]

  /** The date fields a parse has filled in so far. */
  datatype Fields = Fields(year: int, month: int, day: int)

  /** Go's `Parse` starts from year 0 and month and day unset (-1). */
  const Unset: Fields := Fields(0, -1, -1)

  datatype Field = YearField | MonthField | DayField | NoField

  function FieldOf(c: Chunk): Field {
    match c
    case LongYear => YearField
    case ZeroMonth => MonthField
    case NumMonth => MonthField
    case ZeroDay => DayField
    case NumDay => DayField
    case Lit(_) => NoField
  }

  predicate IsDigit(c: char) {
    '0' <= c <= '9'
  }

  function DigitValue(c: char): (n: int)
    requires IsDigit(c)
    ensures 0 <= n <= 9
  {
    c as int - '0' as int
  }

  function DigitChar(n: int): (c: char)
    requires 0 <= n <= 9
    ensures IsDigit(c) && DigitValue(c) == n
  {
    ('0' as int + n) as char
  }

  // ---------------------------------------------------------------- Format

  /** Decimal digits of `n` without leading zeros ("0" for zero). */
  function Decimal(n: nat): (r: string)
    ensures |r| >= 1
    ensures forall k :: 0 <= k < |r| ==> IsDigit(r[k])
    ensures n < 10 <==> |r| == 1
    ensures 10 <= n < 100 ==> |r| == 2
  {
    if n < 10 then [DigitChar(n)] else Decimal(n / 10) + [DigitChar(n % 10)]
  }

  /** Go's `appendInt(nil, x, width)`: an optional '-', then the magnitude
      zero-padded to `width` digits (more digits when it does not fit). */
  function AppendInt(x: int, width: nat): string {
    var u: nat := if x < 0 then -x else x;
    var sign := if x < 0 then "-" else "";
    if width == 2 && u < 100 then
      sign + [DigitChar(u / 10), DigitChar(u % 10)]
    else if width == 4 && u < 10000 then
      sign + [DigitChar(u / 1000), DigitChar(u / 100 % 10), DigitChar(u / 10 % 10), DigitChar(u % 10)]
    else
      var digits := Decimal(u);
      sign + seq(if width > |digits| then width - |digits| else 0, _ => '0') + digits
  }

  /** What `Format` writes for one chunk. */
  function ChunkText(c: Chunk, f: Fields): string {
    match c
    case LongYear => AppendInt(f.year, 4)
    case ZeroMonth => AppendInt(f.month, 2)
    case NumMonth => AppendInt(f.month, 0)
    case ZeroDay => AppendInt(f.day, 2)
    case NumDay => AppendInt(f.day, 0)
    case Lit(t) => t
  }

  function FormatFields(layout: Layout, f: Fields): string {
    if |layout| == 0 then "" else ChunkText(layout[0], f) + FormatFields(layout[1..], f)
  }

  /** `d.Format(layout)`. For a date with non-negative fields, the text is
      digits plus the layout's literal text: every other character occurs
      exactly as often as in the literals. */
  function Format(layout: Layout, d: Date): (r: string)
    ensures 0 <= d.year && 0 <= d.month && 0 <= d.day ==>
      forall ch :: !IsDigit(ch) ==> multiset(r)[ch] == LitCount(layout, ch)
  {
    var f := Fields(d.year, d.month, d.day);
    if 0 <= d.year && 0 <= d.month && 0 <= d.day then
      assert forall ch :: !IsDigit(ch) ==> multiset(FormatFields(layout, f))[ch] == LitCount(layout, ch) by {
        forall ch | !IsDigit(ch)
          ensures multiset(FormatFields(layout, f))[ch] == LitCount(layout, ch)
        {
          FormatCharCount(layout, f, ch);
        }
      }
      FormatFields(layout, f)
    else FormatFields(layout, f)
  }

  /** Numbers with non-negative fields are written as digits, so only the
      literal text contributes other characters. */
  lemma {:induction false} FormatCharCount(layout: Layout, f: Fields, ch: char)
    requires 0 <= f.year && 0 <= f.month && 0 <= f.day && !IsDigit(ch)
    ensures multiset(FormatFields(layout, f))[ch] == LitCount(layout, ch)
    decreases |layout|
  {
    if |layout| > 0 {
      var c := layout[0];
      FormatCharCount(layout[1..], f, ch);
      assert multiset(FormatFields(layout, f)) == multiset(ChunkText(c, f)) + multiset(FormatFields(layout[1..], f));
      if !c.Lit? {
        var x := match c case LongYear => f.year case ZeroMonth => f.month case NumMonth => f.month case _ => f.day;
        var w := match c case LongYear => 4 case ZeroMonth => 2 case ZeroDay => 2 case _ => 0;
        assert ChunkText(c, f) == AppendInt(x, w);
        AppendIntDigits(x, w);
        assert ch !in ChunkText(c, f);
      }
    }
  }

  // ----------------------------------------------------------------- Parse

  /** Go's `getnum`: one digit, or two when the second character is also a
      digit; with `fixed`, exactly two digits are required. */
  function GetNum(s: string, fixed: bool): (r: Option<(int, string)>)
    ensures r.Some? ==> 0 <= r.value.0 <= 99
  {
    if |s| == 0 || !IsDigit(s[0]) then None
    else if |s| == 1 || !IsDigit(s[1]) then
      (if fixed then None else Some((DigitValue(s[0]), s[1..])))
    else Some((DigitValue(s[0]) * 10 + DigitValue(s[1]), s[2..]))
  }

  /** Value of four digits. */
  function Num4(s: string): (n: int)
    requires |s| >= 4 && IsDigit(s[0]) && IsDigit(s[1]) && IsDigit(s[2]) && IsDigit(s[3])
    ensures 0 <= n <= 9999
  {
    DigitValue(s[0]) * 1000 + DigitValue(s[1]) * 100 + DigitValue(s[2]) * 10 + DigitValue(s[3])
  }

  /** The text left after a chunk and the fields it filled in. */
  datatype Step = Step(rest: string, fields: Fields)

  /** One iteration of `Parse`'s loop. A year is exactly four digits; a
      month out of 1..12 is an error at once; the day is checked at the end. */
  function ParseChunk(c: Chunk, s: string, f: Fields): Option<Step> {
    match c
    case Lit(t) =>
      if |t| <= |s| && s[..|t|] == t then Some(Step(s[|t|..], f)) else None
    case LongYear =>
      if |s| >= 4 && IsDigit(s[0]) && IsDigit(s[1]) && IsDigit(s[2]) && IsDigit(s[3])
      then Some(Step(s[4..], f.(year := Num4(s))))
      else None
    case ZeroMonth => MonthStep(GetNum(s, true), f)
    case NumMonth => MonthStep(GetNum(s, false), f)
    case ZeroDay => DayStep(GetNum(s, true), f)
    case NumDay => DayStep(GetNum(s, false), f)
  }

  function MonthStep(n: Option<(int, string)>, f: Fields): Option<Step> {
    match n
    case None => None
    case Some((m, rest)) => if m < 1 || 12 < m then None else Some(Step(rest, f.(month := m)))
  }

  function DayStep(n: Option<(int, string)>, f: Fields): Option<Step> {
    match n
    case None => None
    case Some((d, rest)) => Some(Step(rest, f.(day := d)))
  }

  /** `Parse`'s loop over the whole layout; text left over at the end is an
      error ("extra text"). Each field is either untouched or in the range
      its chunk admits. */
  function ParseFields(layout: Layout, s: string, f: Fields): (r: Option<Fields>)
    ensures r.Some? ==> 0 <= r.value.year <= 9999 || (r.value.year == f.year && LongYear !in layout)
    ensures r.Some? ==> 1 <= r.value.month <= 12 || (r.value.month == f.month && ZeroMonth !in layout && NumMonth !in layout)
    ensures r.Some? ==> 0 <= r.value.day <= 99 || (r.value.day == f.day && ZeroDay !in layout && NumDay !in layout)
    decreases |layout|
  {
    if |layout| == 0 then
      (if |s| == 0 then Some(f) else None)
    else
      match ParseChunk(layout[0], s, f)
      case None => None
      case Some(st) => ParseFields(layout[1..], st.rest, st.fields)
  }

  /** `time.Parse(layout, s)` reduced to the date: unset month and day
      default to 1, and the day must exist in its month. */
  function Parse(layout: Layout, s: string): (r: Option<Date>)
    ensures r.Some? ==> Valid(r.value)
    ensures r.Some? && LongYear in layout ==> 0 <= r.value.year <= 9999
  {
    match ParseFields(layout, s, Unset)
    case None => None
    case Some(f) =>
      var m := if f.month < 0 then 1 else f.month;
      var d := if f.day < 0 then 1 else f.day;
      if d < 1 || d > DaysIn(m, f.year) then None else Some(Date(f.year, m, d))
  }

  // ------------------------------------------------------ layout properties

  /** Whether some chunk of the layout fills in `field`. */
  predicate Writes(layout: Layout, field: Field) {
    match field
    case YearField => LongYear in layout
    case MonthField => ZeroMonth in layout || NumMonth in layout
    case DayField => ZeroDay in layout || NumDay in layout
    case NoField => false
  }

  predicate WritesDate(layout: Layout) {
    Writes(layout, YearField) && Writes(layout, MonthField) && Writes(layout, DayField)
  }

  /** A variable-width number (`1`, `2`) is always followed by literal text
      that starts with a non-digit, so the greedy `getnum` stops in time. */
  predicate Separated(layout: Layout) {
    forall i :: 0 <= i < |layout| && (layout[i] == NumMonth || layout[i] == NumDay) ==>
      i + 1 < |layout| && layout[i + 1].Lit? && |layout[i + 1].text| > 0 && !IsDigit(layout[i + 1].text[0])
  }

  /** Every number has a fixed width. */
  predicate FixedWidth(layout: Layout) {
    NumMonth !in layout && NumDay !in layout
  }

  /** No field is filled in twice. */
  predicate Once(layout: Layout) {
    forall i, j :: 0 <= i < j < |layout| && FieldOf(layout[i]) != NoField ==> FieldOf(layout[i]) != FieldOf(layout[j])
  }

  function Get(f: Fields, field: Field): int {
    match field
    case YearField => f.year
    case MonthField => f.month
    case DayField => f.day
    case NoField => 0
  }

  /** The fields `g` with every field the layout writes taken from `f`. */
  function Assign(layout: Layout, f: Fields, g: Fields): Fields {
    Fields(
      if Writes(layout, YearField) then f.year else g.year,
      if Writes(layout, MonthField) then f.month else g.month,
      if Writes(layout, DayField) then f.day else g.day)
  }

  /** Fields that `Format` renders as digits `Parse` reads back. */
  predicate InRange(f: Fields) {
    0 <= f.year <= 9999 && 1 <= f.month <= 12 && 0 <= f.day <= 99
  }

  /** Number of occurrences of `c` in the layout's literal text. */
  function LitCount(layout: Layout, c: char): nat {
    if |layout| == 0 then 0
    else (if layout[0].Lit? then multiset(layout[0].text)[c] else 0) + LitCount(layout[1..], c)
  }

  /** A layout without variable-width numbers is separated. */
  lemma FixedIsSeparated(layout: Layout)
    requires FixedWidth(layout)
    ensures Separated(layout)
  {
    forall i | 0 <= i < |layout|
      ensures layout[i] != NumMonth && layout[i] != NumDay
    {
      assert layout[i] in layout;
    }
  }

  /** A layout fills in each field once when every chunk filling it in
      sits at one known position. */
  lemma OnceAt(layout: Layout, iy: int, im: int, id: int)
    requires forall i :: 0 <= i < |layout| ==>
      && (FieldOf(layout[i]) == YearField ==> i == iy)
      && (FieldOf(layout[i]) == MonthField ==> i == im)
      && (FieldOf(layout[i]) == DayField ==> i == id)
    ensures Once(layout)
  {
  }

  /** The five- and six-chunk date layouts: year, separator, month,
      separator, day, and maybe a literal suffix. */
  lemma DateLayoutFacts(layout: Layout, m: Chunk, d: Chunk)
    requires 5 <= |layout| <= 6 && layout[0] == LongYear && layout[2] == m && layout[4] == d
    requires m == ZeroMonth || m == NumMonth
    requires d == ZeroDay || d == NumDay
    requires layout[1].Lit? && layout[3].Lit? && (|layout| == 6 ==> layout[5].Lit?)
    ensures Once(layout) && WritesDate(layout)
  {
    forall i | 0 <= i < |layout|
      ensures FieldOf(layout[i]) == YearField ==> i == 0
      ensures FieldOf(layout[i]) == MonthField ==> i == 2
      ensures FieldOf(layout[i]) == DayField ==> i == 4
    {
      assert i == 0 || i == 1 || i == 2 || i == 3 || i == 4 || i == 5;
    }
    OnceAt(layout, 0, 2, 4);
    assert layout[0] in layout && layout[2] in layout && layout[4] in layout;
  }

  /** "2006-01-02" has the shape the round-trip lemmas need. */
  lemma DashLayoutFacts()
    ensures Separated(DashLayout) && FixedWidth(DashLayout) && Once(DashLayout) && WritesDate(DashLayout)
  {
    DateLayoutFacts(DashLayout, ZeroMonth, ZeroDay);
    FixedIsSeparated(DashLayout);
  }

  /** The literal text of "2006-01-02" holds two '-'. */
  lemma DashLayoutHyphens()
    ensures LitCount(DashLayout, '-') == 2
  {
    var L := DashLayout;
    assert L[1..] == [Lit("-"), ZeroMonth, Lit("-"), ZeroDay];
    assert L[1..][1..] == [ZeroMonth, Lit("-"), ZeroDay];
    assert L[1..][1..][1..] == [Lit("-"), ZeroDay];
    assert L[1..][1..][1..][1..] == [ZeroDay];
    assert L[1..][1..][1..][1..][1..] == [];
  }

  lemma SlashLayoutFacts()
    ensures Separated(SlashLayout) && FixedWidth(SlashLayout) && Once(SlashLayout) && WritesDate(SlashLayout)
  {
    DateLayoutFacts(SlashLayout, ZeroMonth, ZeroDay);
    FixedIsSeparated(SlashLayout);
  }

  lemma StorageLayoutFacts()
    ensures Separated(StorageLayout) && FixedWidth(StorageLayout) && Once(StorageLayout) && WritesDate(StorageLayout)
  {
    DateLayoutFacts(StorageLayout, ZeroMonth, ZeroDay);
    FixedIsSeparated(StorageLayout);
  }

  lemma PdfNameLayoutFacts()
    ensures Separated(PdfNameLayout) && FixedWidth(PdfNameLayout) && Once(PdfNameLayout) && WritesDate(PdfNameLayout)
  {
    DateLayoutFacts(PdfNameLayout, ZeroMonth, ZeroDay);
    FixedIsSeparated(PdfNameLayout);
  }

  /** "1-2-2006": both variable-width numbers are followed by '-'. */
  lemma UpstreamLayoutFacts()
    ensures Separated(UpstreamLayout) && Once(UpstreamLayout) && WritesDate(UpstreamLayout)
  {
    var L := UpstreamLayout;
    forall i | 0 <= i < |L|
      ensures FieldOf(L[i]) == YearField ==> i == 4
      ensures FieldOf(L[i]) == MonthField ==> i == 0
      ensures FieldOf(L[i]) == DayField ==> i == 2
      ensures (L[i] == NumMonth || L[i] == NumDay) ==> i + 1 < |L| && L[i + 1] == Lit("-")
    {
      assert i == 0 || i == 1 || i == 2 || i == 3 || i == 4;
    }
    OnceAt(L, 4, 0, 2);
    assert !IsDigit('-');
    assert L[0] in L && L[2] in L && L[4] in L;
  }

  /** The literal text of "1-2-2006" holds two '-'. */
  lemma UpstreamLayoutHyphens()
    ensures LitCount(UpstreamLayout, '-') == 2
  {
    var L := UpstreamLayout;
    assert L[1..] == [Lit("-"), NumDay, Lit("-"), LongYear];
    assert L[1..][1..] == [NumDay, Lit("-"), LongYear];
    assert L[1..][1..][1..] == [Lit("-"), LongYear];
    assert L[1..][1..][1..][1..] == [LongYear];
    assert L[1..][1..][1..][1..][1..] == [];
  }

  // ------------------------------------------------- digits of AppendInt

  /** A year in 0..9999 is written as exactly four digits that read back as it. */
  lemma AppendIntYear(y: int)
    requires 0 <= y <= 9999
    ensures var s := AppendInt(y, 4);
      |s| == 4 && IsDigit(s[0]) && IsDigit(s[1]) && IsDigit(s[2]) && IsDigit(s[3]) && Num4(s) == y
  {
    var s := AppendInt(y, 4);
    var a, r1 := y / 1000, y % 1000;
    var b, r2 := r1 / 100, r1 % 100;
    var c, d := r2 / 10, r2 % 10;
    DivHundred(y, a * 10 + b, r2);
    DivTen(a * 10 + b, a, b);
    DivTen(y, a * 100 + b * 10 + c, d);
    DivTen(a * 100 + b * 10 + c, a * 10 + b, c);
    assert s == [DigitChar(a), DigitChar(b), DigitChar(c), DigitChar(d)];
  }

  /** A number in 0..99 is written with width 2 as two digits that read back as it. */
  lemma AppendIntTwo(n: int)
    requires 0 <= n <= 99
    ensures var s := AppendInt(n, 2);
      |s| == 2 && IsDigit(s[0]) && IsDigit(s[1]) && DigitValue(s[0]) * 10 + DigitValue(s[1]) == n
  {
  }

  /** A number in 0..99 is written with no width as one digit below 10 and two otherwise. */
  lemma AppendIntPlain(n: int)
    requires 0 <= n <= 99
    ensures var s := AppendInt(n, 0);
      && (n < 10 ==> s == [DigitChar(n)])
      && (10 <= n ==> s == [DigitChar(n / 10), DigitChar(n % 10)])
  {
    var d := Decimal(n);
    assert AppendInt(n, 0) == d;
    if 10 <= n {
      assert d == Decimal(n / 10) + [DigitChar(n % 10)];
    }
  }

  lemma DivTen(x: int, q: int, r: int)
    requires 0 <= r < 10 && x == q * 10 + r
    ensures x / 10 == q && x % 10 == r
  {
  }

  lemma DivHundred(x: int, q: int, r: int)
    requires 0 <= r < 100 && x == q * 100 + r
    ensures x / 100 == q
  {
  }

  lemma DivThousand(x: int, q: int, r: int)
    requires 0 <= r < 1000 && x == q * 1000 + r
    ensures x / 1000 == q
  {
  }

  /** Four digits that `Parse` reads as a year are what `Format` writes for it. */
  lemma YearDigitsCanonical(s: string)
    requires |s| >= 4 && IsDigit(s[0]) && IsDigit(s[1]) && IsDigit(s[2]) && IsDigit(s[3])
    ensures AppendInt(Num4(s), 4) == s[..4]
  {
    var n := Num4(s);
    var a, b, c, d := DigitValue(s[0]), DigitValue(s[1]), DigitValue(s[2]), DigitValue(s[3]);
    DivThousand(n, a, b * 100 + c * 10 + d);
    DivHundred(n, a * 10 + b, c * 10 + d);
    DivTen(a * 10 + b, a, b);
    DivTen(n, a * 100 + b * 10 + c, d);
    DivTen(a * 100 + b * 10 + c, a * 10 + b, c);
    assert DigitChar(a) == s[0] && DigitChar(b) == s[1] && DigitChar(c) == s[2] && DigitChar(d) == s[3];
  }

  /** Two digits that `Parse` reads as a fixed-width number are what `Format` writes for it. */
  lemma TwoDigitsCanonical(s: string)
    requires |s| >= 2 && IsDigit(s[0]) && IsDigit(s[1])
    ensures AppendInt(DigitValue(s[0]) * 10 + DigitValue(s[1]), 2) == s[..2]
  {
    var n := DigitValue(s[0]) * 10 + DigitValue(s[1]);
    assert n / 10 == DigitValue(s[0]) && n % 10 == DigitValue(s[1]);
    assert DigitChar(DigitValue(s[0])) == s[0] && DigitChar(DigitValue(s[1])) == s[1];
  }

  // ------------------------------------------------------ Parse of Format

  /** A year's four digits read back as the year. */
  lemma ParseYearText(y: int, g: Fields, rest: string)
    requires 0 <= y <= 9999
    ensures ParseChunk(LongYear, AppendInt(y, 4) + rest, g) == Some(Step(rest, g.(year := y)))
  {
    var t := AppendInt(y, 4);
    var s := t + rest;
    AppendIntYear(y);
    assert s[0] == t[0] && s[1] == t[1] && s[2] == t[2] && s[3] == t[3];
    assert Num4(s) == Num4(t);
    assert s[4..] == rest;
  }

  /** One chunk reads back the text `Format` wrote for it, provided a
      variable-width number is not followed by a further digit. */
  lemma ParseChunkText(c: Chunk, f: Fields, g: Fields, rest: string)
    requires InRange(f)
    requires (c == NumMonth || c == NumDay) ==> rest == [] || !IsDigit(rest[0])
    ensures ParseChunk(c, ChunkText(c, f) + rest, g) == Some(Step(rest, Assign([c], f, g)))
  {
    match c
    case Lit(t) =>
      var s := t + rest;
      assert s[..|t|] == t && s[|t|..] == rest;
      assert Assign([c], f, g) == g;
    case LongYear =>
      ParseYearText(f.year, g, rest);
      assert Assign([c], f, g) == g.(year := f.year);
    case ZeroMonth =>
      ParseTwoText(f.month, rest);
      assert Assign([c], f, g) == g.(month := f.month);
    case ZeroDay =>
      ParseTwoText(f.day, rest);
      assert Assign([c], f, g) == g.(day := f.day);
    case NumMonth =>
      ParsePlainText(f.month, rest);
      assert Assign([c], f, g) == g.(month := f.month);
    case NumDay =>
      ParsePlainText(f.day, rest);
      assert Assign([c], f, g) == g.(day := f.day);
  }

  /** Two zero-padded digits read back as the number. */
  lemma ParseTwoText(n: int, rest: string)
    requires 0 <= n <= 99
    ensures GetNum(AppendInt(n, 2) + rest, true) == Some((n, rest))
  {
    var s := AppendInt(n, 2) + rest;
    AppendIntTwo(n);
    assert s[2..] == rest;
  }

  /** A number written without padding reads back as the number when no
      digit follows it. */
  lemma ParsePlainText(n: int, rest: string)
    requires 0 <= n <= 99
    requires rest == [] || !IsDigit(rest[0])
    ensures GetNum(AppendInt(n, 0) + rest, false) == Some((n, rest))
  {
    var s := AppendInt(n, 0) + rest;
    AppendIntPlain(n);
    if n < 10 {
      assert s[1..] == rest;
    } else {
      assert s[2..] == rest;
    }
  }

  lemma SeparatedTail(layout: Layout)
    requires |layout| > 0 && Separated(layout)
    ensures Separated(layout[1..])
  {
    forall i | 0 <= i < |layout[1..]| && (layout[1..][i] == NumMonth || layout[1..][i] == NumDay)
      ensures i + 1 < |layout[1..]| && layout[1..][i + 1].Lit? && |layout[1..][i + 1].text| > 0
      ensures !IsDigit(layout[1..][i + 1].text[0])
    {
      assert layout[1..][i] == layout[i + 1];
    }
  }

  /** After a variable-width number of a separated layout, the formatted
      text continues with a non-digit. */
  lemma SeparatedNext(layout: Layout, f: Fields, t: string)
    requires |layout| > 0 && Separated(layout)
    requires layout[0] == NumMonth || layout[0] == NumDay
    ensures var rest := FormatFields(layout[1..], f) + t; rest == [] || !IsDigit(rest[0])
  {
    var tail := layout[1..];
    assert tail[0] == layout[1];
    assert FormatFields(tail, f) == tail[0].text + FormatFields(tail[1..], f);
  }

  lemma AssignCons(c: Chunk, tail: Layout, f: Fields, g: Fields)
    ensures Assign([c] + tail, f, g) == Assign(tail, f, Assign([c], f, g))
  {
    var L := [c] + tail;
    assert forall x :: x in L <==> x == c || x in tail;
  }

  /** `Parse` reads back exactly what `Format` wrote for in-range fields,
      leaving any text after it unconsumed; for a separated layout the
      greedy variable-width numbers never run into the next chunk. */
  lemma {:induction false} ParseFormatted(layout: Layout, f: Fields, g: Fields, t: string)
    requires Separated(layout) && InRange(f)
    ensures ParseFields(layout, FormatFields(layout, f) + t, g) == ParseFields([], t, Assign(layout, f, g))
    decreases |layout|
  {
    if |layout| > 0 {
      var c := layout[0];
      var tail := layout[1..];
      var g1 := Assign([c], f, g);
      ParseFormattedStep(layout, f, g, t);
      SeparatedTail(layout);
      ParseFormatted(tail, f, g1, t);
      AssignHead(layout, f, g);
    }
  }

  lemma AssignHead(layout: Layout, f: Fields, g: Fields)
    requires |layout| > 0
    ensures Assign(layout[1..], f, Assign([layout[0]], f, g)) == Assign(layout, f, g)
  {
    assert layout == [layout[0]] + layout[1..];
    AssignCons(layout[0], layout[1..], f, g);
  }

  /** Parsing a formatted text consumes the first chunk's text. */
  lemma ParseFormattedStep(layout: Layout, f: Fields, g: Fields, t: string)
    requires |layout| > 0 && Separated(layout) && InRange(f)
    ensures ParseFields(layout, FormatFields(layout, f) + t, g)
      == ParseFields(layout[1..], FormatFields(layout[1..], f) + t, Assign([layout[0]], f, g))
  {
    var c := layout[0];
    var rest := FormatFields(layout[1..], f) + t;
    assert FormatFields(layout, f) + t == ChunkText(c, f) + rest;
    if c == NumMonth || c == NumDay {
      SeparatedNext(layout, f, t);
    }
    ParseChunkText(c, f, g, rest);
  }

  /** Round trip: a valid date with a four-digit year, formatted with a
      layout that writes all three fields, parses back to itself; any text
      after it makes the parse fail. */
  lemma ParseFormat(layout: Layout, d: Date, t: string)
    requires Separated(layout) && WritesDate(layout)
    requires Valid(d) && 0 <= d.year <= 9999
    ensures Parse(layout, Format(layout, d) + t) == if t == [] then Some(d) else None
  {
    var f := Fields(d.year, d.month, d.day);
    ParseFormatted(layout, f, Unset, t);
    assert Assign(layout, f, Unset) == f;
  }

  // ------------------------------------------------------ Format of Parse

  /** What a fixed-width chunk consumed is exactly the text `Format` writes
      for the fields it produced. */
  lemma ParsedChunkCanonical(c: Chunk, s: string, g: Fields)
    requires c != NumMonth && c != NumDay
    requires ParseChunk(c, s, g).Some?
    ensures var st := ParseChunk(c, s, g).value; s == ChunkText(c, st.fields) + st.rest
  {
    match c
    case Lit(t) =>
      assert s == s[..|t|] + s[|t|..];
    case LongYear =>
      YearDigitsCanonical(s);
      assert s == s[..4] + s[4..];
    case ZeroMonth =>
      TwoDigitsCanonical(s);
      assert s == s[..2] + s[2..];
    case ZeroDay =>
      TwoDigitsCanonical(s);
      assert s == s[..2] + s[2..];
  }

  /** A chunk changes at most its own field. */
  lemma ParseChunkKeeps(c: Chunk, s: string, g: Fields, field: Field)
    requires ParseChunk(c, s, g).Some? && field != FieldOf(c)
    ensures Get(ParseChunk(c, s, g).value.fields, field) == Get(g, field)
  {
  }

  /** A field no chunk of the layout writes keeps its initial value. */
  lemma {:induction false} ParseFieldsKeeps(layout: Layout, s: string, g: Fields, field: Field)
    requires field != NoField && !Writes(layout, field)
    requires ParseFields(layout, s, g).Some?
    ensures Get(ParseFields(layout, s, g).value, field) == Get(g, field)
    decreases |layout|
  {
    if |layout| > 0 {
      var c := layout[0];
      var st := ParseChunk(c, s, g).value;
      assert c in layout;
      assert FieldOf(c) != field;
      ParseChunkKeeps(c, s, g, field);
      assert forall x :: x in layout[1..] ==> x in layout;
      ParseFieldsKeeps(layout[1..], st.rest, st.fields, field);
    }
  }

  lemma OnceTail(layout: Layout)
    requires |layout| > 0 && Once(layout)
    ensures Once(layout[1..])
    ensures FieldOf(layout[0]) != NoField ==> !Writes(layout[1..], FieldOf(layout[0]))
  {
    var tail := layout[1..];
    forall i, j | 0 <= i < j < |tail| && FieldOf(tail[i]) != NoField
      ensures FieldOf(tail[i]) != FieldOf(tail[j])
    {
      assert tail[i] == layout[i + 1] && tail[j] == layout[j + 1];
    }
  }

  /** For a fixed-width layout that writes each field once, every accepted
      string is exactly what `Format` writes for the parsed fields. */
  lemma {:induction false} ParsedIsFormatted(layout: Layout, s: string, g: Fields)
    requires FixedWidth(layout) && Once(layout)
    requires ParseFields(layout, s, g).Some?
    ensures s == FormatFields(layout, ParseFields(layout, s, g).value)
    decreases |layout|
  {
    if |layout| > 0 {
      var c := layout[0];
      var tail := layout[1..];
      var st := ParseChunk(c, s, g).value;
      var h := ParseFields(layout, s, g).value;
      assert c in layout;
      ParsedChunkCanonical(c, s, g);
      assert ParseFields(tail, st.rest, st.fields) == Some(h);
      assert forall x :: x in tail ==> x in layout;
      OnceTail(layout);
      ParsedIsFormatted(tail, st.rest, st.fields);
      if !c.Lit? {
        assert Writes([c], FieldOf(c));
        ParseFieldsKeeps(tail, st.rest, st.fields, FieldOf(c));
        assert ChunkText(c, st.fields) == ChunkText(c, h);
      }
    }
  }

  /** The reverse round trip: for a fixed-width layout that writes the whole
      date once, `Parse` accepts a string only if it is the date's `Format`. */
  lemma ParsedIsCanonical(layout: Layout, s: string)
    requires FixedWidth(layout) && Once(layout) && WritesDate(layout)
    requires Parse(layout, s).Some?
    ensures s == Format(layout, Parse(layout, s).value)
  {
    var h := ParseFields(layout, s, Unset).value;
    ParsedIsFormatted(layout, s, Unset);
    assert Parse(layout, s).value == Date(h.year, h.month, h.day);
  }

  // ----------------------------------------------- characters of a parse

  /** A chunk consumes a prefix: its literal text, or digits only. */
  lemma ParseChunkConsumes(c: Chunk, s: string, g: Fields)
    requires ParseChunk(c, s, g).Some?
    ensures var st := ParseChunk(c, s, g).value; var n := |s| - |st.rest|;
      && 0 <= n <= |s| && s == s[..n] + st.rest
      && (c.Lit? ==> s[..n] == c.text)
      && (!c.Lit? ==> forall k :: 0 <= k < n ==> IsDigit(s[k]))
  {
  }

  /** Every non-digit character of an accepted string comes from the
      layout's literal text, as often as it occurs there. */
  lemma {:induction false} ParsedCharCount(layout: Layout, s: string, g: Fields, ch: char)
    requires !IsDigit(ch)
    requires ParseFields(layout, s, g).Some?
    ensures multiset(s)[ch] == LitCount(layout, ch)
    decreases |layout|
  {
    if |layout| == 0 {
      assert s == [];
    } else {
      var c := layout[0];
      var st := ParseChunk(c, s, g).value;
      var n := |s| - |st.rest|;
      ParseChunkConsumes(c, s, g);
      ParsedCharCount(layout[1..], st.rest, st.fields, ch);
      assert multiset(s) == multiset(s[..n]) + multiset(st.rest) by {
        assert s == s[..n] + st.rest;
      }
      if !c.Lit? {
        assert ch !in s[..n];
      }
    }
  }

  // ------------------------------------------------- the concrete layouts

  /** `AppendInt` of a non-negative number writes digits only. */
  lemma AppendIntDigits(x: int, width: nat)
    requires 0 <= x
    ensures forall k :: 0 <= k < |AppendInt(x, width)| ==> IsDigit(AppendInt(x, width)[k])
  {
  }

  lemma FormatCons(c: Chunk, layout: Layout, f: Fields)
    ensures FormatFields([c] + layout, f) == ChunkText(c, f) + FormatFields(layout, f)
  {
    assert ([c] + layout)[1..] == layout;
  }

  lemma FormatFive(a: Chunk, b: Chunk, c: Chunk, d: Chunk, e: Chunk, f: Fields)
    ensures FormatFields([a, b, c, d, e], f)
      == ChunkText(a, f) + (ChunkText(b, f) + (ChunkText(c, f) + (ChunkText(d, f) + ChunkText(e, f))))
  {
    assert FormatFields([e], f) == ChunkText(e, f) by {
      assert [e][1..] == [];
      assert ChunkText(e, f) + "" == ChunkText(e, f);
    }
    assert FormatFields([d, e], f) == ChunkText(d, f) + FormatFields([e], f) by {
      assert [d, e][1..] == [e];
    }
    assert FormatFields([c, d, e], f) == ChunkText(c, f) + FormatFields([d, e], f) by {
      assert [c, d, e][1..] == [d, e];
    }
    assert FormatFields([b, c, d, e], f) == ChunkText(b, f) + FormatFields([c, d, e], f) by {
      assert [b, c, d, e][1..] == [c, d, e];
    }
    assert FormatFields([a, b, c, d, e], f) == ChunkText(a, f) + FormatFields([b, c, d, e], f) by {
      assert [a, b, c, d, e][1..] == [b, c, d, e];
    }
  }

  /** Formatting a concatenated layout concatenates the two texts. */
  lemma {:induction false} FormatAppend(l1: Layout, l2: Layout, f: Fields)
    ensures FormatFields(l1 + l2, f) == FormatFields(l1, f) + FormatFields(l2, f)
    decreases |l1|
  {
    if |l1| > 0 {
      assert (l1 + l2)[1..] == l1[1..] + l2;
      FormatAppend(l1[1..], l2, f);
    } else {
      assert l1 + l2 == l2;
    }
  }

  lemma FormatSix(a: Chunk, b: Chunk, c: Chunk, d: Chunk, e: Chunk, g: Chunk, f: Fields)
    ensures FormatFields([a, b, c, d, e, g], f) == FormatFields([a, b, c, d, e], f) + ChunkText(g, f)
  {
    assert [a, b, c, d, e, g] == [a, b, c, d, e] + [g];
    FormatAppend([a, b, c, d, e], [g], f);
    FormatCons(g, [], f);
    assert [g] + [] == [g];
  }

  /** `d.Format("2006-01-02")` */
  lemma FormatDash(d: Date)
    ensures Format(DashLayout, d) == AppendInt(d.year, 4) + "-" + AppendInt(d.month, 2) + "-" + AppendInt(d.day, 2)
  {
    FormatFive(LongYear, Lit("-"), ZeroMonth, Lit("-"), ZeroDay, Fields(d.year, d.month, d.day));
  }

  /** `d.Format("2006/01/02")` */
  lemma FormatSlash(d: Date)
    ensures Format(SlashLayout, d) == AppendInt(d.year, 4) + "/" + AppendInt(d.month, 2) + "/" + AppendInt(d.day, 2)
  {
    FormatFive(LongYear, Lit("/"), ZeroMonth, Lit("/"), ZeroDay, Fields(d.year, d.month, d.day));
  }

  /** `d.Format("2006/01/02.pdf")` is `d.Format("2006/01/02")` followed by ".pdf". */
  lemma FormatStorage(d: Date)
    ensures Format(StorageLayout, d) == Format(SlashLayout, d) + ".pdf"
  {
    FormatSix(LongYear, Lit("/"), ZeroMonth, Lit("/"), ZeroDay, Lit(".pdf"), Fields(d.year, d.month, d.day));
  }

  /** `d.Format("2006-01-02.pdf")` is `d.Format("2006-01-02")` followed by ".pdf". */
  lemma FormatPdfName(d: Date)
    ensures Format(PdfNameLayout, d) == Format(DashLayout, d) + ".pdf"
  {
    FormatSix(LongYear, Lit("-"), ZeroMonth, Lit("-"), ZeroDay, Lit(".pdf"), Fields(d.year, d.month, d.day));
  }

  /** `d.Format("1-2-2006")` */
  lemma FormatUpstream(d: Date)
    ensures Format(UpstreamLayout, d) == AppendInt(d.month, 0) + "-" + AppendInt(d.day, 0) + "-" + AppendInt(d.year, 4)
  {
    FormatFive(NumMonth, Lit("-"), NumDay, Lit("-"), LongYear, Fields(d.year, d.month, d.day));
  }

  /** Any string "2006-01-02" accepts has exactly two '-'. */
  lemma DashParseHyphens(s: string)
    requires Parse(DashLayout, s).Some?
    ensures multiset(s)['-'] == 2
  {
    DashLayoutHyphens();
    ParsedCharCount(DashLayout, s, Unset, '-');
  }

  /** Any string "1-2-2006" accepts has exactly two '-'. */
  lemma UpstreamParseHyphens(s: string)
    requires Parse(UpstreamLayout, s).Some?
    ensures multiset(s)['-'] == 2
  {
    UpstreamLayoutHyphens();
    ParsedCharCount(UpstreamLayout, s, Unset, '-');
  }

  /** Any string "2006-01-02" accepts is ten characters long. */
  lemma DashParsedLength(s: string)
    requires Parse(DashLayout, s).Some?
    ensures |s| == 10
  {
    var d := Parse(DashLayout, s).value;
    DashLayoutFacts();
    ParsedIsCanonical(DashLayout, s);
    FormatDash(d);
    AppendIntYear(d.year);
    AppendIntTwo(d.month);
    AppendIntTwo(d.day);
  }

  /** Any string "1-2-2006" accepts holds no character other than digits
      and '-'. */
  lemma UpstreamParseChars(s: string, ch: char)
    requires Parse(UpstreamLayout, s).Some? && !IsDigit(ch) && ch != '-'
    ensures ch !in s
  {
    var L := UpstreamLayout;
    assert L[1..] == [Lit("-"), NumDay, Lit("-"), LongYear];
    assert L[1..][1..] == [NumDay, Lit("-"), LongYear];
    assert L[1..][1..][1..] == [Lit("-"), LongYear];
    assert L[1..][1..][1..][1..] == [LongYear];
    assert L[1..][1..][1..][1..][1..] == [];
    assert multiset("-")[ch] == 0;
    assert LitCount(L[1..][1..][1..][1..], ch) == 0;
    assert LitCount(L[1..][1..][1..], ch) == 0;
    assert LitCount(L[1..][1..], ch) == 0;
    assert LitCount(L[1..], ch) == 0;
    assert LitCount(L, ch) == 0;
    ParsedCharCount(L, s, Unset, ch);
  }

  /** "1-2-2006" reads back what it writes for a valid date with a four-digit year. */
  lemma UpstreamRoundTrip(d: Date)
    requires Valid(d) && 0 <= d.year <= 9999
    ensures Parse(UpstreamLayout, Format(UpstreamLayout, d)) == Some(d)
  {
    var u := Format(UpstreamLayout, d);
    UpstreamLayoutFacts();
    ParseFormat(UpstreamLayout, d, []);
    assert u + [] == u;
  }

  /** Digit groups joined by `c` hold only digits and `c`. */
  lemma JoinedChars(y: string, m: string, dd: string, c: char)
    requires forall k :: 0 <= k < |y| ==> IsDigit(y[k])
    requires forall k :: 0 <= k < |m| ==> IsDigit(m[k])
    requires forall k :: 0 <= k < |dd| ==> IsDigit(dd[k])
    ensures var t := y + [c] + m + [c] + dd; forall k :: 0 <= k < |t| ==> IsDigit(t[k]) || t[k] == c
  {
    var t := y + [c] + m + [c] + dd;
    forall k | 0 <= k < |t|
      ensures IsDigit(t[k]) || t[k] == c
    {
      if k < |y| {
        assert t[k] == y[k];
      } else if k == |y| {
      } else if k < |y| + 1 + |m| {
        assert t[k] == m[k - |y| - 1];
      } else if k == |y| + 1 + |m| {
      } else {
        assert t[k] == dd[k - |y| - 2 - |m|];
      }
    }
  }

  /** "1-2-2006" writes digits and '-' only for a date with non-negative fields. */
  lemma UpstreamTextDigits(d: Date)
    requires 0 <= d.year && 0 <= d.month && 0 <= d.day
    ensures var u := Format(UpstreamLayout, d); forall k | 0 <= k < |u| :: IsDigit(u[k]) || u[k] == '-'
  {
    FormatUpstream(d);
    AppendIntDigits(d.month, 0);
    AppendIntDigits(d.day, 0);
    AppendIntDigits(d.year, 4);
    JoinedChars(AppendInt(d.month, 0), AppendInt(d.day, 0), AppendInt(d.year, 4), '-');
  }

}
