/** The concrete cases pinned by `issue_test.go`, stated about the model. */
module IssueExamples {
  import opened Wrappers
  import opened GoStrings
  import opened Calendar
  import opened GoTime
  import opened Issues
  import opened UpstreamNames

  /** 2 January 2025, the date every case uses. */
  const Jan2: Date := Date(2025, 1, 2)

  lemma AppendIntExamples()
    ensures AppendInt(2025, 4) == "2025" && AppendInt(1, 4) == "0001"
    ensures AppendInt(1, 2) == "01" && AppendInt(2, 2) == "02"
  {
    assert AppendInt(2025, 4) == "2025" by { YearText(2025, 2, 0, 2, 5); }
    assert AppendInt(1, 4) == "0001" by { YearText(1, 0, 0, 0, 1); }
  }

  /** A year written digit by digit. */
  lemma YearText(y: int, a: int, b: int, c: int, d: int)
    requires 0 <= a < 10 && 0 <= b < 10 && 0 <= c < 10 && 0 <= d < 10
    requires y == a * 1000 + b * 100 + c * 10 + d
    ensures AppendInt(y, 4) == [DigitChar(a), DigitChar(b), DigitChar(c), DigitChar(d)]
  {
    DivThousand(y, a, b * 100 + c * 10 + d);
    DivHundred(y, a * 10 + b, c * 10 + d);
    DivTen(a * 10 + b, a, b);
    DivTen(y, a * 100 + b * 10 + c, d);
    DivTen(a * 100 + b * 10 + c, a * 10 + b, c);
  }

  /** A month or day below ten, written with width 2 and with no width. */
  lemma SmallText(n: int, c: char)
    requires 0 <= n < 10 && c == DigitChar(n)
    ensures AppendInt(n, 2) == ['0', c] && AppendInt(n, 0) == [c]
  {
    AppendIntPlain(n);
  }

  /** The example texts as the concatenations the model produces. */
  lemma DateLiterals()
    ensures "2025" + "-" + "01" + "-" + "02" == "2025-01-02"
    ensures "2025" + "/" + "01" + "/" + "02" == "2025/01/02"
    ensures "1" + "-" + "2" + "-" + "2025" == "1-2-2025"
    ensures "0001" + "-" + "01" + "-" + "01" == "0001-01-01"
    ensures "0001" + "/" + "01" + "/" + "01" == "0001/01/01"
    ensures "test-issue-1-2-2025" + ".pdf" == "test-issue-1-2-2025.pdf"
    ensures "2025/01/02" + ".pdf" == "2025/01/02.pdf" && "2025/01/02" + "" == "2025/01/02"
    ensures "0001/01/01" + ".pdf" == "0001/01/01.pdf" && "0001/01/01" + "" == "0001/01/01"
    ensures "2025-01-02" + ".pdf" == "2025-01-02.pdf" && "2025-01-02" + "" == "2025-01-02"
    ensures "0001-01-01" + ".pdf" == "0001-01-01.pdf" && "0001-01-01" + "" == "0001-01-01"
  {
  }

  lemma Jan2Dash(d: Date)
    requires d.year == 2025 && d.month == 1 && d.day == 2
    ensures Format(DashLayout, d) == "2025-01-02"
  {
    FormatDash(d);
    YearText(d.year, 2, 0, 2, 5);
    SmallText(d.month, '1');
    SmallText(d.day, '2');
    DateLiterals();
  }

  lemma Jan2Slash(d: Date)
    requires d.year == 2025 && d.month == 1 && d.day == 2
    ensures Format(SlashLayout, d) == "2025/01/02"
  {
    FormatSlash(d);
    YearText(d.year, 2, 0, 2, 5);
    SmallText(d.month, '1');
    SmallText(d.day, '2');
    DateLiterals();
  }

  lemma Jan2Upstream(d: Date)
    requires d.year == 2025 && d.month == 1 && d.day == 2
    ensures Format(UpstreamLayout, d) == "1-2-2025"
  {
    FormatUpstream(d);
    YearText(d.year, 2, 0, 2, 5);
    SmallText(d.month, '1');
    SmallText(d.day, '2');
    DateLiterals();
  }

  lemma EpochDash(d: Date)
    requires d.year == 1 && d.month == 1 && d.day == 1
    ensures Format(DashLayout, d) == "0001-01-01"
  {
    FormatDash(d);
    YearText(d.year, 0, 0, 0, 1);
    SmallText(d.month, '1');
    SmallText(d.day, '1');
    DateLiterals();
  }

  lemma EpochSlash(d: Date)
    requires d.year == 1 && d.month == 1 && d.day == 1
    ensures Format(SlashLayout, d) == "0001/01/01"
  {
    FormatSlash(d);
    YearText(d.year, 0, 0, 0, 1);
    SmallText(d.month, '1');
    SmallText(d.day, '1');
    DateLiterals();
  }

  lemma SlashTexts()
    ensures Format(SlashLayout, Jan2) == "2025/01/02"
    ensures Format(SlashLayout, Epoch) == "0001/01/01"
  {
    Jan2Slash(Jan2);
    EpochSlash(Epoch);
  }

  lemma DashTexts()
    ensures Format(DashLayout, Jan2) == "2025-01-02"
    ensures Format(DashLayout, Epoch) == "0001-01-01"
  {
    Jan2Dash(Jan2);
    EpochDash(Epoch);
  }

  /** `TestIssue_FullPath`: zero-padded, extension verbatim, the zero date is 0001/01/01. */
  lemma FullPathExamples()
    ensures FullPath(Issue(Jan2, ".pdf")) == "2025/01/02.pdf"
    ensures FullPath(Issue(Jan2, "")) == "2025/01/02"
    ensures FullPath(Issue(Epoch, ".pdf")) == "0001/01/01.pdf"
    ensures FullPath(Issue(Epoch, "")) == "0001/01/01"
  {
    SlashTexts();
    DateLiterals();
  }

  /** `TestIssue_ShortPath`. */
  lemma ShortPathExamples()
    ensures ShortPath(Issue(Jan2, ".pdf")) == "2025-01-02.pdf"
    ensures ShortPath(Issue(Jan2, "")) == "2025-01-02"
    ensures ShortPath(Issue(Epoch, ".pdf")) == "0001-01-01.pdf"
    ensures ShortPath(Issue(Epoch, "")) == "0001-01-01"
  {
    DashTexts();
    DateLiterals();
  }

  lemma UpstreamJan2()
    ensures Format(UpstreamLayout, Jan2) == "1-2-2025"
  {
    Jan2Upstream(Jan2);
  }

  /** `TestNewIssueFromPath` / `Test_getDate`, case "short". */
  lemma ShortNameExample()
    ensures GetDate("2025-01-02.pdf") == Ok(Jan2)
    ensures NewIssueFromPath("2025-01-02.pdf") == Ok(Issue(Jan2, ".pdf"))
  {
    ShortPathExamples();
    PdfIsPlain();
    ShortPathRoundTrip(Issue(Jan2, ".pdf"));
  }

  lemma PdfIsPlain()
    ensures Valid(Jan2) && PlainExt(".pdf")
  {
    assert ".pdf"[1..] == "pdf";
  }

  /** A text with no '-' is never an `M-D-YYYY` date. */
  lemma UpstreamNeedsHyphens(s: string)
    requires multiset(s)['-'] != 2
    ensures Parse(UpstreamLayout, s).None?
  {
    if Parse(UpstreamLayout, s).Some? {
      UpstreamParseHyphens(s);
    }
  }

  lemma ShortInvalidIssue()
    ensures NewIssueFromPath("2025-01-02abc.pdf") == Err(BadDate)
  {
    ShortInvalidExample();
  }

  lemma LongNameStem()
    ensures Base("test-issue-1-2-2025.pdf") == "test-issue-1-2-2025.pdf"
    ensures Ext("test-issue-1-2-2025.pdf") == ".pdf"
  {
    DateLiterals();
    StemOfPlainName("test-issue-1-2-2025", ".pdf");
  }

  lemma LongNameIssue()
    ensures NewIssueFromPath("test-issue-1-2-2025.pdf") == Ok(Issue(Jan2, ".pdf"))
  {
    LongNameExample();
    LongNameStem();
  }

  lemma LongMissingIssue()
    ensures NewIssueFromPath("test-1-2-2025.pdf") == Err(BadDate)
  {
    LongMissingExample();
  }

  lemma LongInvalidIssue()
    ensures NewIssueFromPath("test-issue-1-2-2025abc.pdf") == Err(BadDate)
  {
    LongInvalidExample();
  }

  /** The base name of "" is ".", whose stem is empty. */
  lemma EmptyStem()
    ensures Stem("") == ""
  {
    assert Base("") == ".";
    assert Ext(".") == ".";
  }

  /** Case "empty". */
  lemma EmptyNameExample()
    ensures GetDate("") == Err(MissingRandomPrefix)
  {
    EmptyStem();
    GetDatePrefixErrors("");
  }

  lemma EmptyNameIssue()
    ensures NewIssueFromPath("") == Err(MissingRandomPrefix)
  {
    EmptyNameExample();
  }

  lemma LongNameSplit(u: string)
    requires u == "1-2-2025"
    ensures "test" + "-" + "issue" + "-" + u + ".pdf" == "test-issue-1-2-2025.pdf"
  {
  }

  /** Case "long": two random prefixes, then `M-D-YYYY`. */
  lemma LongNameExample()
    ensures GetDate("test-issue-1-2-2025.pdf") == Ok(Jan2)
  {
    UpstreamJan2();
    LongNameSplit(Format(UpstreamLayout, Jan2));
    UpstreamNameParses("test", "issue", Jan2, ".pdf");
  }

  lemma ShortInvalidStem(name: string, stem: string)
    requires name == "2025-01-02abc.pdf" && stem == "2025-01-02abc"
    ensures Stem(name) == stem
  {
    assert stem + ".pdf" == name;
    StemOfPlainName(stem, ".pdf");
  }

  lemma ShortInvalidNotIso(stem: string)
    requires stem == "2025-01-02abc"
    ensures Parse(DashLayout, stem).None?
  {
    if Parse(DashLayout, stem).Some? {
      DashParsedLength(stem);
    }
  }

  lemma ShortInvalidSplit(a: string, b: string, rest: string, stem: string)
    requires a == "2025" && b == "01" && rest == "02abc" && stem == "2025-01-02abc"
    ensures stem == a + "-" + b + "-" + rest && '-' !in a && '-' !in b
  {
  }

  lemma ShortInvalidRest(rest: string)
    requires rest == "02abc"
    ensures Parse(UpstreamLayout, rest).None?
  {
    assert multiset(rest)['-'] == 0;
    UpstreamNeedsHyphens(rest);
  }

  lemma ShortInvalidParts(name: string, a: string, b: string, rest: string, stem: string)
    requires name == "2025-01-02abc.pdf" && stem == "2025-01-02abc"
    requires a == "2025" && b == "01" && rest == "02abc"
    ensures GetDate(name) == Err(BadDate)
  {
    ShortInvalidStem(name, stem);
    ShortInvalidNotIso(stem);
    ShortInvalidSplit(a, b, rest, stem);
    ShortInvalidRest(rest);
    GetDateAfterPrefixes(name, a, b, rest);
  }

  /** Case "short invalid date": the ISO reading leaves "abc" over, and after
      the two cuts "02abc" is no `M-D-YYYY` date. */
  lemma ShortInvalidExample()
    ensures GetDate("2025-01-02abc.pdf") == Err(BadDate)
  {
    ShortInvalidParts("2025-01-02abc.pdf", "2025", "01", "02abc", "2025-01-02abc");
  }

  lemma LongMissingStem(name: string, stem: string)
    requires name == "test-1-2-2025.pdf" && stem == "test-1-2-2025"
    ensures Stem(name) == stem
  {
    assert stem + ".pdf" == name;
    StemOfPlainName(stem, ".pdf");
  }

  lemma LongMissingNotIso(stem: string)
    requires stem == "test-1-2-2025"
    ensures Parse(DashLayout, stem).None?
  {
    if Parse(DashLayout, stem).Some? {
      DashParsedLength(stem);
    }
  }

  lemma LongMissingSplit(a: string, b: string, rest: string, stem: string)
    requires a == "test" && b == "1" && rest == "2-2025" && stem == "test-1-2-2025"
    ensures stem == a + "-" + b + "-" + rest && '-' !in a && '-' !in b
  {
  }

  lemma LongMissingRest(rest: string)
    requires rest == "2-2025"
    ensures Parse(UpstreamLayout, rest).None?
  {
    assert multiset(rest)['-'] == 1;
    UpstreamNeedsHyphens(rest);
  }

  lemma LongMissingParts(name: string, a: string, b: string, rest: string, stem: string)
    requires name == "test-1-2-2025.pdf" && stem == "test-1-2-2025"
    requires a == "test" && b == "1" && rest == "2-2025"
    ensures GetDate(name) == Err(BadDate)
  {
    LongMissingStem(name, stem);
    LongMissingNotIso(stem);
    LongMissingSplit(a, b, rest, stem);
    LongMissingRest(rest);
    GetDateAfterPrefixes(name, a, b, rest);
  }

  /** Case "long missing section": after the two cuts "2-2025" is left,
      which holds one '-' where `M-D-YYYY` needs two. */
  lemma LongMissingExample()
    ensures GetDate("test-1-2-2025.pdf") == Err(BadDate)
  {
    LongMissingParts("test-1-2-2025.pdf", "test", "1", "2-2025", "test-1-2-2025");
  }

  lemma LongMissingUpstreamParts(name: string, a: string, b: string, u: string, e: string)
    requires name == "test-1-2-2025.pdf" && a == "test" && b == "1" && u == "2-2025" && e == ".pdf"
    ensures GetDateUpstream(name) == Err(BadDate)
  {
    assert a + "-" + b + "-" + u + e == name;
    assert e[1..] == "pdf";
    PrefixedText(a, b, u, e);
    LongMissingRest(u);
  }

  /** The upstream-only parser of `update.go` and `upload.go` refuses the
      "long missing section" name too: it reads "2-2025" as well. */
  lemma LongMissingUpstream()
    ensures GetDateUpstream("test-1-2-2025.pdf") == Err(BadDate)
  {
    LongMissingUpstreamParts("test-1-2-2025.pdf", "test", "1", "2-2025", ".pdf");
  }

  lemma LongInvalidStem(name: string, stem: string)
    requires name == "test-issue-1-2-2025abc.pdf" && stem == "test-issue-1-2-2025abc"
    ensures Stem(name) == stem
  {
    assert stem + ".pdf" == name;
    StemOfPlainName(stem, ".pdf");
  }

  lemma LongInvalidNotIso(stem: string)
    requires stem == "test-issue-1-2-2025abc"
    ensures Parse(DashLayout, stem).None?
  {
    if Parse(DashLayout, stem).Some? {
      DashParsedLength(stem);
    }
  }

  lemma LongInvalidSplit(a: string, b: string, rest: string, stem: string)
    requires a == "test" && b == "issue" && rest == "1-2-2025abc" && stem == "test-issue-1-2-2025abc"
    ensures stem == a + "-" + b + "-" + rest && '-' !in a && '-' !in b
  {
  }

  lemma LongInvalidRest(rest: string)
    requires rest == "1-2-2025abc"
    ensures Parse(UpstreamLayout, rest).None?
  {
    if Parse(UpstreamLayout, rest).Some? {
      assert rest[8] == 'a';
      UpstreamParseChars(rest, 'a');
    }
  }

  lemma LongInvalidParts(name: string, a: string, b: string, rest: string, stem: string)
    requires name == "test-issue-1-2-2025abc.pdf" && stem == "test-issue-1-2-2025abc"
    requires a == "test" && b == "issue" && rest == "1-2-2025abc"
    ensures GetDate(name) == Err(BadDate)
  {
    LongInvalidStem(name, stem);
    LongInvalidNotIso(stem);
    LongInvalidSplit(a, b, rest, stem);
    LongInvalidRest(rest);
    GetDateAfterPrefixes(name, a, b, rest);
  }

  /** Case "long invalid date": `M-D-YYYY` followed by "abc". */
  lemma LongInvalidExample()
    ensures GetDate("test-issue-1-2-2025abc.pdf") == Err(BadDate)
  {
    LongInvalidParts("test-issue-1-2-2025abc.pdf", "test", "issue", "1-2-2025abc", "test-issue-1-2-2025abc");
  }
}
