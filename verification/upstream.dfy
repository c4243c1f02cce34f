/** The older, upstream-only file-name parser that `update.go` and
    `upload.go` each carry, and the storage key / public name the two
    handlers derive from a fetched file name with it. */
module UpstreamNames {
  import opened Wrappers
  import opened GoStrings
  import opened Calendar
  import opened GoTime
  import opened Issues

  /** `getDate` of `update.go` and `upload.go`: the text up to the first
      '-' is dropped twice, and only then is the extension stripped and the
      rest read as `M-D-YYYY`. There is no ISO attempt and no `path.Base`. */
  function GetDateUpstream(filename: string): (r: Result<Date, FilenameError>)
    ensures r.Ok? ==> Valid(r.value) && 0 <= r.value.year <= 9999
  {
    var first := Cut(filename, '-');
    if !first.found then Err(MissingRandomPrefix)
    else
      var second := Cut(first.after, '-');
      if !second.found then Err(MissingNonRandomPrefix)
      else
        var rest := second.after;
        assert LongYear in UpstreamLayout;
        match Parse(UpstreamLayout, TrimSuffix(rest, Ext(rest)))
        case Some(d) => Ok(d)
        case None => Err(BadDate)
  }

  /** Where a fetched file is stored (`key`) and the name it is published
      under (`flat`). */
  datatype Names = Names(key: string, flat: string)

  /** The mapping both handlers apply to a file name: a dated name becomes
      `YYYY/MM/DD<ext>` and `YYYY-MM-DD<ext>`; any other name is kept as is
      for both. */
  function KeyAndFlat(filename: string): (r: Names)
    ensures GetDateUpstream(filename).Err? ==> r.key == filename && r.flat == filename
  {
    match GetDateUpstream(filename)
    case Ok(d) =>
      var ext := Ext(filename);
      Names(Format(SlashLayout, d) + ext, Format(DashLayout, d) + ext)
    case Err(_) => Names(filename, filename)
  }

  // ------------------------------------------------------------ properties

  /** The two prefix errors depend only on the number of '-' in the whole
      name: none, or exactly one. */
  lemma UpstreamPrefixErrors(filename: string)
    ensures GetDateUpstream(filename) == Err(MissingRandomPrefix) <==> '-' !in filename
    ensures GetDateUpstream(filename) == Err(MissingNonRandomPrefix) <==> multiset(filename)['-'] == 1
  {
    CutCount(filename, '-');
    CutCount(Cut(filename, '-').after, '-');
  }

  /** Stripping a plain extension from `<u><e>` leaves `u`, when `u` holds
      no '.' and no '/'. */
  lemma StripPlainExt(u: string, e: string)
    requires '.' !in u && '/' !in u && PlainExt(e)
    ensures Ext(u + e) == e
    ensures TrimSuffix(u + e, Ext(u + e)) == u
  {
    ExtOfSuffix(u, e);
    assert HasSuffix(u + e, e);
    var r := TrimSuffix(u + e, e);
    assert r + e == u + e;
    assert r == (r + e)[..|r|];
  }

  /** An upstream name `<a>-<b>-M-D-YYYY<ext>` parses to its date for any
      prefixes free of '-'. */
  lemma UpstreamNameAccepted(a: string, b: string, d: Date, e: string)
    requires '-' !in a && '-' !in b
    requires Valid(d) && 0 <= d.year <= 9999 && PlainExt(e)
    ensures GetDateUpstream(a + "-" + b + "-" + Format(UpstreamLayout, d) + e) == Ok(d)
  {
    UpstreamTextPlain(d);
    UpstreamRoundTrip(d);
    PrefixedText(a, b, Format(UpstreamLayout, d), e);
  }

  /** The upstream parser on `<a>-<b>-<u><e>` reads `u` as `M-D-YYYY`. */
  lemma PrefixedText(a: string, b: string, u: string, e: string)
    requires '-' !in a && '-' !in b && '.' !in u && '/' !in u && PlainExt(e)
    ensures GetDateUpstream(a + "-" + b + "-" + u + e) ==
      match Parse(UpstreamLayout, u) case Some(d) => Ok(d) case None => Err(BadDate)
  {
    assert a + "-" + b + "-" + u + e == a + ['-'] + b + ['-'] + (u + e);
    CutTwice(a, b, u + e, '-');
    StripPlainExt(u, e);
  }

  /** A plain ISO name `YYYY-MM-DD<ext>` is never accepted by the upstream
      parser: after the two cuts only the day is left. */
  lemma IsoNameRejected(i: Issue)
    requires Valid(i.date) && 0 <= i.date.year && PlainExt(i.ext) && '-' !in i.ext
    ensures GetDateUpstream(ShortPath(i)) == Err(BadDate)
  {
    var y, m, dd := AppendInt(i.date.year, 4), AppendInt(i.date.month, 2), AppendInt(i.date.day, 2);
    PathParts(i);
    assert '.' !in dd && '/' !in dd by { AppendIntDigits(i.date.day, 2); }
    CutTwice(y, m, dd + i.ext, '-');
    StripPlainExt(dd, i.ext);
    assert multiset(dd)['-'] == 0;
    if Parse(UpstreamLayout, dd).Some? {
      UpstreamParseHyphens(dd);
    }
  }

  /** The two parsers split on ISO names: the combined one accepts every
      rendered public name, the upstream one none of them. */
  lemma ParsersSplitOnIsoNames(i: Issue)
    requires Valid(i.date) && 0 <= i.date.year <= 9999 && PlainExt(i.ext) && '-' !in i.ext
    ensures NewIssueFromPath(ShortPath(i)) == Ok(i)
    ensures GetDateUpstream(ShortPath(i)) == Err(BadDate)
  {
    ShortPathRoundTrip(i);
    IsoNameRejected(i);
  }

  /** On upstream names whose prefixes hold no '-', '.' or '/', the two
      parsers agree. */
  lemma ParsersAgreeOnUpstreamNames(a: string, b: string, d: Date, e: string)
    requires '-' !in a && '.' !in a && '/' !in a
    requires '-' !in b && '.' !in b && '/' !in b
    requires Valid(d) && 0 <= d.year <= 9999 && PlainExt(e)
    ensures var name := a + "-" + b + "-" + Format(UpstreamLayout, d) + e;
      GetDate(name) == GetDateUpstream(name) == Ok(d)
  {
    UpstreamNameParses(a, b, d, e);
    UpstreamNameAccepted(a, b, d, e);
  }

  /** Pieces of a name `<p>.<q>-<b>-M-D-YYYY`: its extension starts at the
      '.' inside the first prefix, so its stem is `p`. */
  lemma DottedPrefixStem(p: string, q: string, b: string, d: Date)
    requires p != "" && '-' !in p && '.' !in p && '/' !in p
    requires '-' !in q && '.' !in q && '/' !in q
    requires '-' !in b && '.' !in b && '/' !in b
    requires Valid(d) && 0 <= d.year <= 9999
    ensures Stem(p + "." + q + "-" + b + "-" + Format(UpstreamLayout, d)) == p
  {
    UpstreamTextPlain(d);
    DottedStem(p, q, b, Format(UpstreamLayout, d));
  }

  lemma DottedStem(p: string, q: string, b: string, u: string)
    requires p != "" && '.' !in p && '/' !in p
    requires '.' !in q && '/' !in q && '.' !in b && '/' !in b && '.' !in u && '/' !in u
    ensures Stem(p + "." + q + "-" + b + "-" + u) == p
  {
    var tail := q + "-" + b + "-" + u;
    var e := "." + tail;
    assert p + "." + q + "-" + b + "-" + u == p + e;
    assert e[1..] == tail;
    StemOfPlainName(p, e);
  }

  /** Because it cuts before stripping the extension, the upstream parser
      accepts a name whose first prefix holds a '.', which the combined
      parser reads as the start of the extension and rejects. */
  lemma ParsersDivergeOnDottedPrefix(p: string, q: string, b: string, d: Date)
    requires p != "" && '-' !in p && '.' !in p && '/' !in p
    requires '-' !in q && '.' !in q && '/' !in q
    requires '-' !in b && '.' !in b && '/' !in b
    requires Valid(d) && 0 <= d.year <= 9999
    ensures var name := p + "." + q + "-" + b + "-" + Format(UpstreamLayout, d);
      GetDateUpstream(name) == Ok(d) && GetDate(name) == Err(MissingRandomPrefix)
  {
    var u := Format(UpstreamLayout, d);
    var name := p + "." + q + "-" + b + "-" + u;
    assert name == (p + "." + q) + "-" + b + "-" + u + "";
    UpstreamNameAccepted(p + "." + q, b, d, "");
    DottedPrefixStem(p, q, b, d);
    GetDatePrefixErrors(name);
  }

  /** On a dated name the storage key and the public name are the issue's
      `FullPath` and `ShortPath`, and the public name parses back, with the
      combined parser, to that same issue. */
  lemma KeyAndFlatDated(filename: string)
    requires GetDateUpstream(filename).Ok?
    ensures var i := Issue(GetDateUpstream(filename).value, Ext(filename));
      KeyAndFlat(filename) == Names(FullPath(i), ShortPath(i)) &&
      NewIssueFromPath(KeyAndFlat(filename).flat) == Ok(i)
  {
    var i := Issue(GetDateUpstream(filename).value, Ext(filename));
    ShortPathRoundTrip(i);
  }

  /** A rendered key and a rendered public name never coincide: the fifth
      character is '/' in one and '-' in the other. */
  lemma KeyDiffersFromFlat(d: Date, ext: string)
    requires 0 <= d.year <= 9999
    ensures Format(SlashLayout, d) + ext != Format(DashLayout, d) + ext
  {
    var y, m, dd := AppendInt(d.year, 4), AppendInt(d.month, 2), AppendInt(d.day, 2);
    assert |y| == 4 by { AppendIntYear(d.year); }
    assert Format(SlashLayout, d) + ext == y + ['/'] + (m + ['/'] + dd + ext) by {
      FormatSlash(d);
      Regroup(y, m, dd, ext, '/');
    }
    assert Format(DashLayout, d) + ext == y + ['-'] + (m + ['-'] + dd + ext) by {
      FormatDash(d);
      Regroup(y, m, dd, ext, '-');
    }
    SeparatorAt(y, '/', m + ['/'] + dd + ext);
    SeparatorAt(y, '-', m + ['-'] + dd + ext);
  }

  lemma SeparatorAt(y: string, c: char, rest: string)
    ensures (y + [c] + rest)[|y|] == c
  {
  }

  /** Key and public name coincide exactly when the name carries no date. */
  lemma KeyEqualsFlatIffUndated(filename: string)
    ensures KeyAndFlat(filename).key == KeyAndFlat(filename).flat <==> GetDateUpstream(filename).Err?
  {
    if GetDateUpstream(filename).Ok? {
      KeyDiffersFromFlat(GetDateUpstream(filename).value, Ext(filename));
    }
  }

  /** For a base name (no '/'), turning every '/' of the key into '-' gives
      the public name, dated or not. */
  lemma KeyToFlat(filename: string)
    requires '/' !in filename
    ensures ReplaceAll(KeyAndFlat(filename).key, '/', '-') == KeyAndFlat(filename).flat
  {
    match GetDateUpstream(filename)
    case Ok(d) =>
      FullPathToShortPath(Issue(d, Ext(filename)));
    case Err(_) =>
      ReplaceAllAbsent(filename, '/', '-');
  }
}
