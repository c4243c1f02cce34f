/** The issue codec of `issue.go`: an issue is a (date, extension) pair
    rendered as a storage key `YYYY/MM/DD<ext>` or a public name
    `YYYY-MM-DD<ext>`, and parsed back from a file name that is either
    `YYYY-MM-DD<ext>` or the upstream `<rand>-<rand>-M-D-YYYY<ext>`. */
module Issues {
  import opened Wrappers
  import opened GoStrings
  import opened Calendar
  import opened GoTime

  datatype Issue = Issue(date: Date, ext: string)

  /** The reasons wrapped in `ErrInvalidFilename`. */
  datatype FilenameError = MissingRandomPrefix | MissingNonRandomPrefix | BadDate

  /** `NewIssueFromDate`: keeps the date and extension as given; no check is made. */
  function NewIssueFromDate(date: Date, ext: string): (r: Issue)
    ensures r.date == date && r.ext == ext
  {
    Issue(date, ext)
  }

  /** `Issue.FullPath`: the object-store key. Its '/' separators turned
      into '-' give the public name, when the extension holds no '/'. */
  function FullPath(i: Issue): (r: string)
    ensures Valid(i.date) && 0 <= i.date.year && '/' !in i.ext ==>
      ReplaceAll(r, '/', '-') == Format(DashLayout, i.date) + i.ext
  {
    if Valid(i.date) && 0 <= i.date.year && '/' !in i.ext then
      DateTextSwap(i.date, i.ext);
      Format(SlashLayout, i.date) + i.ext
    else Format(SlashLayout, i.date) + i.ext
  }

  /** `Issue.ShortPath`: the public, flat name. Its '-' separators turned
      into '/' give the storage key, when the extension holds no '-'. */
  function ShortPath(i: Issue): (r: string)
    ensures Valid(i.date) && 0 <= i.date.year && '-' !in i.ext ==> ReplaceAll(r, '-', '/') == FullPath(i)
  {
    if Valid(i.date) && 0 <= i.date.year && '-' !in i.ext then
      DateTextSwap(i.date, i.ext);
      Format(DashLayout, i.date) + i.ext
    else Format(DashLayout, i.date) + i.ext
  }

  /** The two renderings of a date, followed by an extension free of the
      separator being replaced, turn into each other. */
  lemma DateTextSwap(d: Date, ext: string)
    requires 0 <= d.year && Valid(d)
    ensures '-' !in ext ==> ReplaceAll(Format(DashLayout, d) + ext, '-', '/') == Format(SlashLayout, d) + ext
    ensures '/' !in ext ==> ReplaceAll(Format(SlashLayout, d) + ext, '/', '-') == Format(DashLayout, d) + ext
  {
    var y, m, dd := AppendInt(d.year, 4), AppendInt(d.month, 2), AppendInt(d.day, 2);
    DateTextParts(d);
    Regroup(y, m, dd, ext, '-');
    Regroup(y, m, dd, ext, '/');
    if '-' !in ext {
      ReplaceSeparators(y, m, dd + ext, '-', '/');
    }
    if '/' !in ext {
      ReplaceSeparators(y, m, dd + ext, '/', '-');
    }
  }

  /** `Issue.String`. */
  function String(i: Issue): (r: string)
    ensures r == ShortPath(i)
  {
    ShortPath(i)
  }

  /** The base name of a path with its extension removed. */
  function Stem(filename: string): string {
    var base := Base(filename);
    TrimSuffix(base, Ext(base))
  }

  /** `getDate` of `issue.go`: the stem is first read as `YYYY-MM-DD`; if
      that fails, the text up to the first '-' is dropped twice and the rest
      is read as `M-D-YYYY`. A missing first or second '-' has its own error. */
  function GetDate(filename: string): (r: Result<Date, FilenameError>)
    ensures r.Ok? ==> Valid(r.value) && 0 <= r.value.year <= 9999
  {
    DateOfStem(Stem(filename))
  }

  /** The body of `getDate` once the stem is taken. */
  function DateOfStem(stem: string): (r: Result<Date, FilenameError>)
    ensures r.Ok? ==> Valid(r.value) && 0 <= r.value.year <= 9999
  {
    assert LongYear in DashLayout && LongYear in UpstreamLayout;
    match Parse(DashLayout, stem)
    case Some(d) => Ok(d)
    case None =>
      var first := Cut(stem, '-');
      if !first.found then Err(MissingRandomPrefix)
      else
        var second := Cut(first.after, '-');
        if !second.found then Err(MissingNonRandomPrefix)
        else
          match Parse(UpstreamLayout, second.after)
          case Some(d) => Ok(d)
          case None => Err(BadDate)
  }

  /** `NewIssueFromPath`: the date `getDate` finds in the base name, with the
      base name's extension; any `getDate` error is returned as is. */
  function NewIssueFromPath(p: string): (r: Result<Issue, FilenameError>)
    ensures r.Ok? <==> GetDate(p).Ok?
    ensures r.Ok? ==> r.value == Issue(GetDate(p).value, Ext(Base(p)))
    ensures r.Err? ==> r.error == GetDate(p).error
  {
    var base := Base(p);
    GetDateOfBase(p);
    match GetDate(base)
    case Ok(d) => Ok(Issue(d, Ext(base)))
    case Err(e) => Err(e)
  }

  /** `getDate` looks only at the base name. */
  lemma GetDateOfBase(p: string)
    ensures GetDate(Base(p)) == GetDate(p)
  {
    BaseIdempotent(p);
    assert Stem(Base(p)) == Stem(p);
  }

  // ------------------------------------------------------------ properties

  /** The two prefix errors are decided by the number of '-' in the stem:
      none gives "missing random prefix", exactly one gives "missing
      non-random prefix" (a `YYYY-MM-DD` stem has two). */
  lemma GetDatePrefixErrors(filename: string)
    ensures GetDate(filename) == Err(MissingRandomPrefix) <==> '-' !in Stem(filename)
    ensures GetDate(filename) == Err(MissingNonRandomPrefix) <==> multiset(Stem(filename))['-'] == 1
  {
    StemPrefixErrors(Stem(filename));
  }

  lemma StemPrefixErrors(stem: string)
    ensures DateOfStem(stem) == Err(MissingRandomPrefix) <==> '-' !in stem
    ensures DateOfStem(stem) == Err(MissingNonRandomPrefix) <==> multiset(stem)['-'] == 1
  {
    if Parse(DashLayout, stem).Some? {
      DashParseHyphens(stem);
    } else {
      CutCount(stem, '-');
      CutCount(Cut(stem, '-').after, '-');
    }
  }

  /** Characters of a rendered date with a non-negative year: digits and the separator. */
  lemma DateTextChars(d: Date)
    requires 0 <= d.year && Valid(d)
    ensures forall k :: 0 <= k < |Format(DashLayout, d)| ==> IsDigit(Format(DashLayout, d)[k]) || Format(DashLayout, d)[k] == '-'
    ensures forall k :: 0 <= k < |Format(SlashLayout, d)| ==> IsDigit(Format(SlashLayout, d)[k]) || Format(SlashLayout, d)[k] == '/'
    ensures |Format(DashLayout, d)| > 0
  {
    var y, m, dd := AppendInt(d.year, 4), AppendInt(d.month, 2), AppendInt(d.day, 2);
    DateTextParts(d);
    AppendIntDigits(d.year, 4);
    AppendIntDigits(d.month, 2);
    AppendIntDigits(d.day, 2);
    JoinedChars(y, m, dd, '-');
    JoinedChars(y, m, dd, '/');
  }

  /** An extension `filepath.Ext` gives back whole: empty, or a '.' followed
      by text with no further '.' and no '/'. */
  predicate PlainExt(e: string) {
    e == "" || (e[0] == '.' && '.' !in e[1..] && '/' !in e)
  }

  /** The public name is its own base name, its extension is the issue's,
      and its stem is the rendered date. */
  lemma ShortPathParts(i: Issue)
    requires Valid(i.date) && 0 <= i.date.year && PlainExt(i.ext)
    ensures Base(ShortPath(i)) == ShortPath(i)
    ensures Ext(ShortPath(i)) == i.ext
    ensures Stem(ShortPath(i)) == Format(DashLayout, i.date)
  {
    var t := Format(DashLayout, i.date);
    assert t != "" && '/' !in t && '.' !in t by { DateTextChars(i.date); }
    assert ShortPath(i) == t + i.ext;
    NameParts(t, i.ext);
  }

  /** A non-empty, slash-free, dot-free stem followed by a plain extension is
      its own base name, and splits back into that stem and extension. */
  lemma NameParts(t: string, ext: string)
    requires t != "" && '/' !in t && '.' !in t && PlainExt(ext)
    ensures Base(t + ext) == t + ext
    ensures Ext(t + ext) == ext
    ensures Stem(t + ext) == t
  {
    var s := t + ext;
    assert '/' !in s;
    ExtOfSuffix(t, ext);
    assert HasSuffix(s, ext);
    var r := TrimSuffix(s, ext);
    assert r + ext == t + ext;
    assert r == (r + ext)[..|r|];
  }

  /** Round trip: the public name of an issue with a valid date and a plain
      extension parses back to the same issue. */
  lemma ShortPathRoundTrip(i: Issue)
    requires Valid(i.date) && 0 <= i.date.year <= 9999 && PlainExt(i.ext)
    ensures NewIssueFromPath(ShortPath(i)) == Ok(i)
  {
    var s := ShortPath(i);
    ShortPathParts(i);
    DashTextParses(i.date);
    assert DateOfStem(Stem(s)) == Ok(i.date);
    assert GetDate(s) == Ok(i.date);
  }

  /** An issue built from a date and printed with `String` parses back,
      through `NewIssueFromPath`, to the same issue. */
  lemma FromDateRoundTrip(d: Date, ext: string)
    requires Valid(d) && 0 <= d.year <= 9999 && PlainExt(ext)
    ensures NewIssueFromPath(String(NewIssueFromDate(d, ext))) == Ok(NewIssueFromDate(d, ext))
  {
    ShortPathRoundTrip(NewIssueFromDate(d, ext));
  }

  /** The dash form of a date parses back to the date. */
  lemma DashTextParses(d: Date)
    requires Valid(d) && 0 <= d.year <= 9999
    ensures Parse(DashLayout, Format(DashLayout, d)) == Some(d)
  {
    DashLayoutFacts();
    ParseFormat(DashLayout, d, []);
    assert Format(DashLayout, d) + [] == Format(DashLayout, d);
  }

  /** The two renderings of a date are the same digit groups with '-' or
      '/' between them. */
  lemma DateTextParts(d: Date)
    requires 0 <= d.year && Valid(d)
    ensures var y, m, dd := AppendInt(d.year, 4), AppendInt(d.month, 2), AppendInt(d.day, 2);
      && Format(DashLayout, d) == y + ['-'] + m + ['-'] + dd
      && Format(SlashLayout, d) == y + ['/'] + m + ['/'] + dd
      && '-' !in y && '-' !in m && '-' !in dd && '/' !in y && '/' !in m && '/' !in dd
  {
    FormatDash(d);
    FormatSlash(d);
    AppendIntDigits(d.year, 4);
    AppendIntDigits(d.month, 2);
    AppendIntDigits(d.day, 2);
  }

  /** Both paths of an issue are the same digit groups and extension with
      '-' or '/' between the groups. */
  lemma PathParts(i: Issue)
    requires Valid(i.date) && 0 <= i.date.year
    ensures var y, m, dd := AppendInt(i.date.year, 4), AppendInt(i.date.month, 2), AppendInt(i.date.day, 2);
      && ShortPath(i) == y + ['-'] + m + ['-'] + (dd + i.ext)
      && FullPath(i) == y + ['/'] + m + ['/'] + (dd + i.ext)
      && '-' !in y && '-' !in m && '-' !in dd && '/' !in y && '/' !in m && '/' !in dd
  {
    var y, m, dd := AppendInt(i.date.year, 4), AppendInt(i.date.month, 2), AppendInt(i.date.day, 2);
    assert ShortPath(i) == y + ['-'] + m + ['-'] + (dd + i.ext) by {
      FormatDash(i.date);
      Regroup(y, m, dd, i.ext, '-');
    }
    assert FullPath(i) == y + ['/'] + m + ['/'] + (dd + i.ext) by {
      FormatSlash(i.date);
      Regroup(y, m, dd, i.ext, '/');
    }
    DigitsHoldNoSeparator(i.date.year, 4);
    DigitsHoldNoSeparator(i.date.month, 2);
    DigitsHoldNoSeparator(i.date.day, 2);
  }

  lemma Regroup(y: string, m: string, dd: string, e: string, c: char)
    ensures y + [c] + m + [c] + dd + e == y + [c] + m + [c] + (dd + e)
    ensures y + [c] + m + [c] + dd + e == y + [c] + (m + [c] + dd + e)
  {
  }

  lemma DigitsHoldNoSeparator(x: int, width: nat)
    requires 0 <= x
    ensures '-' !in AppendInt(x, width) && '/' !in AppendInt(x, width)
  {
    AppendIntDigits(x, width);
  }

  /** Rewriting every '-' of the public name to '/' gives the storage key,
      when the extension holds no '-' (what `get.go` relies on). */
  lemma ShortPathToFullPath(i: Issue)
    requires Valid(i.date) && 0 <= i.date.year && '-' !in i.ext
    ensures ReplaceAll(ShortPath(i), '-', '/') == FullPath(i)
  {
    var d := i.date;
    PathParts(i);
    ReplaceSeparators(AppendInt(d.year, 4), AppendInt(d.month, 2), AppendInt(d.day, 2) + i.ext, '-', '/');
  }

  /** Rewriting every '/' of the storage key to '-' gives the public name,
      when the extension holds no '/' (what `findLatest` relies on). */
  lemma FullPathToShortPath(i: Issue)
    requires Valid(i.date) && 0 <= i.date.year && '/' !in i.ext
    ensures ReplaceAll(FullPath(i), '/', '-') == ShortPath(i)
  {
    var d := i.date;
    PathParts(i);
    ReplaceSeparators(AppendInt(d.year, 4), AppendInt(d.month, 2), AppendInt(d.day, 2) + i.ext, '/', '-');
  }

  /** The upstream date text `M-D-YYYY` holds digits and exactly two '-'. */
  lemma UpstreamTextChars(d: Date)
    requires Valid(d) && 0 <= d.year <= 9999
    ensures forall k :: 0 <= k < |Format(UpstreamLayout, d)| ==> IsDigit(Format(UpstreamLayout, d)[k]) || Format(UpstreamLayout, d)[k] == '-'
    ensures multiset(Format(UpstreamLayout, d))['-'] == 2
    ensures Parse(UpstreamLayout, Format(UpstreamLayout, d)) == Some(d)
  {
    UpstreamRoundTrip(d);
    UpstreamParseHyphens(Format(UpstreamLayout, d));
    UpstreamTextDigits(d);
  }

  /** A rendered upstream date holds no '.' and no '/', and two '-'. */
  lemma UpstreamTextPlain(d: Date)
    requires Valid(d) && 0 <= d.year <= 9999
    ensures '.' !in Format(UpstreamLayout, d) && '/' !in Format(UpstreamLayout, d)
    ensures multiset(Format(UpstreamLayout, d))['-'] == 2
  {
    UpstreamTextChars(d);
  }

  /** A name made of a stem free of '/' and '.' and a plain extension has
      that stem. */
  lemma StemOfPlainName(stem: string, e: string)
    requires stem != "" && '/' !in stem && '.' !in stem && PlainExt(e)
    ensures Base(stem + e) == stem + e
    ensures Ext(stem + e) == e
    ensures Stem(stem + e) == stem
  {
    var name := stem + e;
    assert '/' !in name;
    ExtOfSuffix(stem, e);
    assert HasSuffix(name, e);
    var r := TrimSuffix(name, e);
    assert r + e == stem + e;
    assert r == (r + e)[..|r|];
  }

  /** A stem whose number of '-' is not two is never a `YYYY-MM-DD` date. */
  lemma DashRejects(stem: string)
    requires multiset(stem)['-'] != 2
    ensures Parse(DashLayout, stem).None?
  {
    if Parse(DashLayout, stem).Some? {
      DashParseHyphens(stem);
    }
  }

  /** The stem of an upstream name `<a>-<b>-M-D-YYYY<ext>`, with prefixes
      free of '-', '.' and '/': four '-', and no '.' or '/'. */
  lemma UpstreamStem(a: string, b: string, d: Date)
    requires '-' !in a && '.' !in a && '/' !in a
    requires '-' !in b && '.' !in b && '/' !in b
    requires Valid(d) && 0 <= d.year <= 9999
    ensures var stem := a + "-" + b + "-" + Format(UpstreamLayout, d);
      '/' !in stem && '.' !in stem && multiset(stem)['-'] == 4
  {
    UpstreamTextPlain(d);
    PrefixedStem(a, b, Format(UpstreamLayout, d));
  }

  lemma PrefixedStem(a: string, b: string, u: string)
    requires '-' !in a && '.' !in a && '/' !in a
    requires '-' !in b && '.' !in b && '/' !in b
    requires '.' !in u && '/' !in u
    ensures var stem := a + "-" + b + "-" + u;
      '/' !in stem && '.' !in stem && multiset(stem)['-'] == multiset(u)['-'] + 2
  {
  }

  /** An upstream name `<a>-<b>-M-D-YYYY<ext>`, with prefixes free of '-',
      '.' and '/', parses to its date: the ISO attempt fails (the stem has
      four '-'), the two cuts drop exactly the two prefixes. */
  lemma UpstreamNameParses(a: string, b: string, d: Date, e: string)
    requires '-' !in a && '.' !in a && '/' !in a
    requires '-' !in b && '.' !in b && '/' !in b
    requires Valid(d) && 0 <= d.year <= 9999 && PlainExt(e)
    ensures GetDate(a + "-" + b + "-" + Format(UpstreamLayout, d) + e) == Ok(d)
  {
    var u := Format(UpstreamLayout, d);
    var stem := a + "-" + b + "-" + u;
    UpstreamStem(a, b, d);
    StemOfPlainName(stem, e);
    DashRejects(stem);
    CutTwice(a, b, u, '-');
    UpstreamRoundTrip(d);
  }

  /** When the stem is not an ISO date and splits as `<a>-<b>-<rest>` with
      no '-' in either prefix, the date is what `M-D-YYYY` reads in `rest`. */
  lemma GetDateAfterPrefixes(filename: string, a: string, b: string, rest: string)
    requires Stem(filename) == a + "-" + b + "-" + rest
    requires '-' !in a && '-' !in b
    requires Parse(DashLayout, Stem(filename)).None?
    ensures Parse(UpstreamLayout, rest).Some? ==> GetDate(filename) == Ok(Parse(UpstreamLayout, rest).value)
    ensures Parse(UpstreamLayout, rest).None? ==> GetDate(filename) == Err(BadDate)
  {
    CutTwice(a, b, rest, '-');
  }
}
