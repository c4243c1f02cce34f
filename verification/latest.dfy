/** `findLatest` of `update.go`: the public name of the newest issue in the
    store, found by checking today's and yesterday's keys before scanning a
    listing of the whole store. The clock and the store are inputs: today's
    date, the set of keys `StatObject` finds, and the listing
    `ListObjectsIter` yields. */
module Latest {
  import opened Wrappers
  import opened GoStrings
  import opened Calendar
  import opened GoTime
  import opened Issues

  /** One element of the listing: an object key, or a listing error. */
  datatype ListItem = Entry(key: string) | ListFailure

  /** The listing error `findLatest` hands back. */
  datatype StoreFailure = StoreFailure

  /** The listing is asked for keys with this prefix. */
  const ListPrefix: string := "20"

  /** The issue date a storage key `YYYY/MM/DD.pdf` names, if it is one. */
  function KeyDate(key: string): (r: Option<Date>)
    ensures r.Some? ==> Valid(r.value) && 0 <= r.value.year <= 9999
  {
    assert LongYear in StorageLayout;
    Parse(StorageLayout, key)
  }

  /** The date a listed item can win with: a key carrying the listing prefix
      that names a date after the zero time the scan starts from. */
  function CandidateOf(item: ListItem): (r: Option<Date>)
    ensures r.Some? ==> item.Entry? && ListPrefix <= item.key && KeyDate(item.key) == r && Before(Epoch, r.value)
    ensures r.None? && item.Entry? && ListPrefix <= item.key && KeyDate(item.key).Some? ==>
      !Before(Epoch, KeyDate(item.key).value)
  {
    match item
    case ListFailure => None
    case Entry(key) =>
      if !(ListPrefix <= key) then None
      else
        match KeyDate(key)
        case Some(d) => if Before(Epoch, d) then Some(d) else None
        case None => None
  }

  /** The candidate dates of a whole listing, position by position. */
  function Candidates(listing: seq<ListItem>): (cs: seq<Option<Date>>)
    ensures |cs| == |listing|
  {
    seq(|listing|, k requires 0 <= k < |listing| => CandidateOf(listing[k]))
  }

  lemma CandidateAt(listing: seq<ListItem>, k: int)
    requires 0 <= k < |listing|
    ensures Candidates(listing)[k] == CandidateOf(listing[k])
  {
  }

  /** Position `k` holds a candidate no other candidate is later than. */
  predicate IsLatest(cs: seq<Option<Date>>, k: int)
    requires 0 <= k < |cs|
  {
    cs[k].Some? && forall j :: 0 <= j < |cs| && cs[j].Some? ==> !Before(cs[k].value, cs[j].value)
  }

  /** What the slow path returns for a listing: an error when the listing
      holds one; otherwise "" when nothing qualifies, and else the public
      name of a latest candidate. */
  predicate LatestOf(listing: seq<ListItem>, r: Result<string, StoreFailure>) {
    var cs := Candidates(listing);
    && (r.Err? <==> exists k :: 0 <= k < |listing| && listing[k].ListFailure?)
    && (r.Ok? ==> (r.value == "" <==> forall k :: 0 <= k < |cs| ==> cs[k].None?))
    && (r.Ok? && r.value != "" ==>
          exists k :: 0 <= k < |cs| && IsLatest(cs, k) && r.value == ShortPath(Issue(cs[k].value, ".pdf")))
  }

  /** A storage key that parses is the rendering of its date, so turning its
      '/' into '-' gives that issue's public name. */
  lemma NameOfKey(key: string)
    requires KeyDate(key).Some?
    ensures ReplaceAll(key, '/', '-') == ShortPath(Issue(KeyDate(key).value, ".pdf"))
  {
    var d := KeyDate(key).value;
    StorageLayoutFacts();
    ParsedIsCanonical(StorageLayout, key);
    FormatStorage(d);
    FullPathToShortPath(Issue(d, ".pdf"));
  }

  /** A public name is never empty. */
  lemma ShortPathNonEmpty(i: Issue)
    requires 0 <= i.date.year && Valid(i.date)
    ensures ShortPath(i) != ""
  {
    DateTextChars(i.date);
  }

  /** The scan's state after the first `i` items: `name` is "" with the zero
      time while no candidate has been seen; otherwise `latest` is the date
      of an earlier candidate that no earlier candidate is later than. */
  predicate BestSoFar(cs: seq<Option<Date>>, i: int, name: string, latest: Date)
    requires 0 <= i <= |cs|
  {
    && (name == "" ==> latest == Epoch && forall k :: 0 <= k < i ==> cs[k].None?)
    && (name != "" ==> Before(Epoch, latest) && exists k :: 0 <= k < i && cs[k] == Some(latest))
    && (forall k :: 0 <= k < i && cs[k].Some? ==> !Before(latest, cs[k].value))
  }

  /** An item that is not a later candidate leaves the state as it is. */
  lemma KeepBest(cs: seq<Option<Date>>, i: int, name: string, latest: Date)
    requires 0 <= i < |cs| && BestSoFar(cs, i, name, latest)
    requires !(cs[i].Some? && Before(latest, cs[i].value))
    requires cs[i].Some? ==> Before(Epoch, cs[i].value)
    ensures BestSoFar(cs, i + 1, name, latest)
  {
    if name != "" {
      var k :| 0 <= k < i && cs[k] == Some(latest);
      assert 0 <= k < i + 1;
    }
  }

  /** A candidate later than the best so far replaces it. */
  lemma TakeBest(cs: seq<Option<Date>>, i: int, name: string, latest: Date, newName: string)
    requires 0 <= i < |cs| && BestSoFar(cs, i, name, latest)
    requires cs[i].Some? && Before(latest, cs[i].value) && Before(Epoch, cs[i].value)
    requires newName != ""
    ensures BestSoFar(cs, i + 1, newName, cs[i].value)
  {
    var d := cs[i].value;
    forall k | 0 <= k < i + 1 && cs[k].Some?
      ensures !Before(d, cs[k].value)
    {
      if k < i {
        BeforeIsStrictTotal(cs[k].value, latest, d);
        BeforeIsStrictTotal(latest, cs[k].value, d);
      } else {
        BeforeIsStrictTotal(d, d, d);
      }
    }
  }

  /** At the end of the scan, a non-empty name is the key of a latest
      candidate of the whole listing. */
  lemma ScanResult(cs: seq<Option<Date>>, name: string, latest: Date)
    requires BestSoFar(cs, |cs|, name, latest) && name != ""
    requires KeyDate(name) == Some(latest)
    ensures exists k :: 0 <= k < |cs| && IsLatest(cs, k) && ReplaceAll(name, '/', '-') == ShortPath(Issue(cs[k].value, ".pdf"))
    ensures ReplaceAll(name, '/', '-') != ""
  {
    var k :| 0 <= k < |cs| && cs[k] == Some(latest);
    assert IsLatest(cs, k);
    NameOfKey(name);
    ShortPathNonEmpty(Issue(latest, ".pdf"));
  }

  /** One listed key: it replaces the best so far when it parses as a
      storage key and its date is strictly after the best date. The
      listing's "20" prefix filter is applied here too. */
  method Consider(key: string, latestName: string, latest: Date) returns (name: string, date: Date)
    requires latest == Epoch || Before(Epoch, latest)
    ensures var c := CandidateOf(Entry(key));
      if c.Some? && Before(latest, c.value) then name == key && date == c.value
      else name == latestName && date == latest
  {
    name, date := latestName, latest;
    var parsed := if ListPrefix <= key then KeyDate(key) else None;
    if parsed.Some? && Before(latest, parsed.value) {
      BeforeIsStrictTotal(Epoch, latest, parsed.value);
      name, date := key, parsed.value;
    }
  }

  /** The slow path: one pass over the listing, stopping at the first error
      and otherwise considering each key in turn. */
  method ScanListing(listing: seq<ListItem>) returns (r: Result<string, StoreFailure>)
    ensures LatestOf(listing, r)
  {
    ghost var cs := Candidates(listing);
    var latestName := "";
    var latest := Epoch;
    var i := 0;
    while i < |listing|
      invariant 0 <= i <= |listing|
      invariant forall k :: 0 <= k < i ==> listing[k].Entry?
      invariant BestSoFar(cs, i, latestName, latest)
      invariant latestName != "" ==> KeyDate(latestName) == Some(latest)
    {
      if listing[i].ListFailure? {
        return Err(StoreFailure);
      }
      assert forall k :: 0 <= k < i + 1 ==> listing[k].Entry?;
      var name, date := Consider(listing[i].key, latestName, latest);
      CandidateAt(listing, i);
      if cs[i].Some? && Before(latest, cs[i].value) {
        TakeBest(cs, i, latestName, latest, name);
      } else {
        KeepBest(cs, i, latestName, latest);
      }
      latestName, latest := name, date;
      i := i + 1;
    }
    if latestName != "" {
      ScanResult(cs, latestName, latest);
    }
    r := Ok(ReplaceAll(latestName, '/', '-'));
  }

  /** `findLatest`: today's public name if today's key exists; else
      yesterday's (one calendar day earlier) if that key exists; only then
      the scan of the listing. */
  method FindLatest(today: Date, store: set<string>, listing: seq<ListItem>) returns (r: Result<string, StoreFailure>)
    requires Valid(today)
    ensures Format(StorageLayout, today) in store ==> r == Ok(Format(PdfNameLayout, today))
    ensures Format(StorageLayout, today) !in store && Format(StorageLayout, PrevDay(today)) in store ==>
      r == Ok(Format(PdfNameLayout, PrevDay(today)))
    ensures Format(StorageLayout, today) !in store && Format(StorageLayout, PrevDay(today)) !in store ==>
      LatestOf(listing, r)
  {
    if Format(StorageLayout, today) in store {
      return Ok(Format(PdfNameLayout, today));
    }
    var yesterday := PrevDay(today);
    if Format(StorageLayout, yesterday) in store {
      return Ok(Format(PdfNameLayout, yesterday));
    }
    r := ScanListing(listing);
  }

  // ------------------------------------------------------------ properties

  /** The fast-path answer is the public name of that day's issue, and the
      key it checks is that issue's storage key. */
  lemma FastPathNames(d: Date)
    ensures Format(StorageLayout, d) == FullPath(Issue(d, ".pdf"))
    ensures Format(PdfNameLayout, d) == ShortPath(Issue(d, ".pdf"))
  {
    FormatStorage(d);
    FormatPdfName(d);
  }

  /** Two listed keys with the same candidate date are the same key, so the
      scan's answer does not depend on which of them it kept. */
  lemma CandidatesCanonical(a: ListItem, b: ListItem)
    requires CandidateOf(a).Some? && CandidateOf(a) == CandidateOf(b)
    ensures a.key == b.key
  {
    StorageLayoutFacts();
    ParsedIsCanonical(StorageLayout, a.key);
    ParsedIsCanonical(StorageLayout, b.key);
  }

  /** The storage key of an issue from the years 2000 to 2099 passes the
      listing's prefix and competes in the scan with its own date. */
  lemma RenderedKeyIsCandidate(d: Date)
    requires Valid(d) && 2000 <= d.year <= 2099
    ensures CandidateOf(Entry(FullPath(Issue(d, ".pdf")))) == Some(d)
  {
    KeyHasPrefix(d);
    KeyParses(d);
  }

  lemma KeyHasPrefix(d: Date)
    requires Valid(d) && 2000 <= d.year <= 2099
    ensures ListPrefix <= FullPath(Issue(d, ".pdf"))
  {
    var i := Issue(d, ".pdf");
    var y := AppendInt(d.year, 4);
    assert |y| == 4 && y[0] == '2' && y[1] == '0' by {
      assert d.year / 1000 == 2 && d.year / 100 % 10 == 0;
    }
    PathParts(i);
    StartsWithCentury(FullPath(i));
  }

  lemma KeyParses(d: Date)
    requires Valid(d) && 0 <= d.year <= 9999
    ensures KeyDate(FullPath(Issue(d, ".pdf"))) == Some(d)
  {
    StorageRoundTrip(d);
    FormatStorage(d);
  }

  lemma StartsWithCentury(key: string)
    requires |key| >= 2 && key[0] == '2' && key[1] == '0'
    ensures ListPrefix <= key
  {
  }

  /** "2006/01/02.pdf" reads back the date it writes. */
  lemma StorageRoundTrip(d: Date)
    requires Valid(d) && 0 <= d.year <= 9999
    ensures Parse(StorageLayout, Format(StorageLayout, d)) == Some(d)
  {
    StorageLayoutFacts();
    ParseFormat(StorageLayout, d, []);
    assert Format(StorageLayout, d) + [] == Format(StorageLayout, d);
  }

  /** A listing of issue keys (years 2000 to 2099, no errors) scans to the
      public name of its latest issue. */
  lemma LatestOfIssueKeys(listing: seq<ListItem>, ds: seq<Date>, m: int)
    requires |ds| == |listing| && 0 <= m < |ds|
    requires forall k :: 0 <= k < |ds| ==> Valid(ds[k]) && 2000 <= ds[k].year <= 2099
    requires forall k :: 0 <= k < |ds| ==> listing[k] == Entry(FullPath(Issue(ds[k], ".pdf")))
    requires forall k :: 0 <= k < |ds| ==> !Before(ds[m], ds[k])
    ensures LatestOf(listing, Ok(ShortPath(Issue(ds[m], ".pdf"))))
  {
    var cs := Candidates(listing);
    forall k | 0 <= k < |ds|
      ensures cs[k] == Some(ds[k])
    {
      CandidateAt(listing, k);
      RenderedKeyIsCandidate(ds[k]);
    }
    assert IsLatest(cs, m);
    ShortPathNonEmpty(Issue(ds[m], ".pdf"));
  }

  /** The slow path's answer is determined: two results that both satisfy
      `LatestOf` for the same listing are equal. */
  lemma LatestOfUnique(listing: seq<ListItem>, r1: Result<string, StoreFailure>, r2: Result<string, StoreFailure>)
    requires LatestOf(listing, r1) && LatestOf(listing, r2)
    ensures r1 == r2
  {
    var cs := Candidates(listing);
    if r1.Ok? && r2.Ok? && r1.value != "" && r2.value != "" {
      var k1 :| 0 <= k1 < |cs| && IsLatest(cs, k1) && r1.value == ShortPath(Issue(cs[k1].value, ".pdf"));
      var k2 :| 0 <= k2 < |cs| && IsLatest(cs, k2) && r2.value == ShortPath(Issue(cs[k2].value, ".pdf"));
      assert !Before(cs[k1].value, cs[k2].value) && !Before(cs[k2].value, cs[k1].value);
      BeforeIsStrictTotal(cs[k1].value, cs[k2].value, cs[k1].value);
    } else if r1.Err? {
      assert r1.error == StoreFailure && r2.error == StoreFailure;
    }
  }
}
