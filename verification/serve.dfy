/** `get` and `handleMinioError` of `get.go`: serve a stored issue under
    its public name. The store is an input: the error, if any, that
    `GetObject` or `Stat` reports (as the status code minio's error response
    carries), and the object's ETag. */
module Serve {
  import opened Wrappers
  import opened GoStrings
  import opened Calendar
  import opened GoTime
  import opened Issues
  import opened Http
  import opened Latest

  /** A store error, by the HTTP status of minio's error response. */
  datatype StoreError = StoreError(statusCode: int)

  datatype Header = Header(name: string, value: string)

  /** The handler either fails with a reply, or hands the object stored at
      `key` to `http.ServeContent` with these headers set. */
  datatype ServeOutcome = Failed(reply: Reply) | Content(key: string, headers: seq<Header>)

  const CacheControl: string := "public, max-age=86400"

  /** The storage key of a requested name: every '-' becomes '/', every
      other character stays in place, and a name without '/' can be read
      back from its key. */
  function ObjectKey(name: string): (r: string)
    ensures |r| == |name| && '-' !in r
    ensures forall i :: 0 <= i < |name| && name[i] != '-' ==> r[i] == name[i]
    ensures '/' !in name ==> ReplaceAll(r, '/', '-') == name
  {
    if '/' !in name then ReplaceAllInverse(name, '-', '/'); ReplaceAll(name, '-', '/')
    else ReplaceAll(name, '-', '/')
  }

  /** `handleMinioError`: a not-found error is a 404 "Not Found", anything
      else a 500 carrying the error's own message. */
  function HandleStoreError(e: StoreError): (r: Reply)
    ensures r.Plain? && (r.status == StatusNotFound <==> e.statusCode == StatusNotFound)
    ensures r.status == StatusNotFound ==> r.body == Text("Not Found\n")
    ensures r.status != StatusNotFound ==> r.status == StatusInternalServerError && r.body == LibraryMessage
  {
    if e.statusCode == StatusNotFound then Error(StatusText(StatusNotFound), StatusNotFound)
    else LibraryError(StatusInternalServerError)
  }

  /** `get`: an error opening or inspecting the object is answered by
      `handleMinioError`; otherwise the object is served with its quoted
      ETag, when it has one, and a one-day public Cache-Control. */
  function Get(name: string, openError: Option<StoreError>, stat: Result<string, StoreError>): (r: ServeOutcome)
    ensures r.Failed? <==> openError.Some? || stat.Err?
    ensures openError.Some? ==> r == Failed(HandleStoreError(openError.value))
    ensures openError.None? && stat.Err? ==> r == Failed(HandleStoreError(stat.error))
    ensures r.Content? ==> r.key == ObjectKey(name)
    ensures r.Content? ==> |r.headers| >= 1 && r.headers[|r.headers| - 1] == Header("Cache-Control", CacheControl)
    ensures r.Content? ==> ((exists k :: 0 <= k < |r.headers| && r.headers[k].name == "ETag") <==> stat.value != "")
    ensures r.Content? ==> forall k :: 0 <= k < |r.headers| && r.headers[k].name == "ETag" ==> r.headers[k].value == Quote(stat.value)
  {
    var key := ObjectKey(name);
    match openError
    case Some(e) => Failed(HandleStoreError(e))
    case None =>
      match stat
      case Err(e) => Failed(HandleStoreError(e))
      case Ok(etag) =>
        var tag := if etag != "" then [Header("ETag", Quote(etag))] else [];
        var headers := tag + [Header("Cache-Control", CacheControl)];
        assert etag != "" ==> headers[0].name == "ETag";
        assert "Cache-Control"[0] != "ETag"[0];
        Content(key, headers)
  }

  // ------------------------------------------------------- strconv.Quote

  const HexDigits: string := "0123456789abcdef"

  /** The escape `strconv.Quote` writes for one character: a backslash
      before '"' and '\', the seven named control escapes, `\xHH` for the
      other ASCII control characters, and the character itself otherwise. */
  function EscapeChar(c: char): (r: string)
    ensures |r| >= 1
    ensures r[0] == '\\' <==> c == '"' || c == '\\' || IsControl(c)
    ensures r[0] != '\\' ==> r == [c]
  {
    if c == '"' || c == '\\' then ['\\', c]
    else if c == '\U{07}' then "\\a"
    else if c == '\U{08}' then "\\b"
    else if c == '\U{0c}' then "\\f"
    else if c == '\n' then "\\n"
    else if c == '\r' then "\\r"
    else if c == '\t' then "\\t"
    else if c == '\U{0b}' then "\\v"
    else if IsControl(c) then ['\\', 'x', HexDigits[c as int / 16], HexDigits[c as int % 16]]
    else [c]
  }

  predicate IsControl(c: char) {
    c < ' ' || c == '\U{7f}'
  }

  function QuoteBody(s: string): string {
    if s == [] then [] else EscapeChar(s[0]) + QuoteBody(s[1..])
  }

  /** `strconv.Quote`: the escaped text between double quotes. */
  function Quote(s: string): (r: string)
    ensures |r| >= 2 && r[0] == '"' && r[|r| - 1] == '"'
  {
    "\"" + QuoteBody(s) + "\""
  }

  // ----------------------------------------------- the inverse of Quote

  function HexValue(c: char): Option<int> {
    if '0' <= c <= '9' then Some(c as int - '0' as int)
    else if 'a' <= c <= 'f' then Some(c as int - 'a' as int + 10)
    else if 'A' <= c <= 'F' then Some(c as int - 'A' as int + 10)
    else None
  }

  /** The character a two-letter escape `\e` stands for. */
  function SimpleEscape(e: char): Option<char> {
    if e == '"' || e == '\\' then Some(e)
    else if e == 'a' then Some('\U{07}')
    else if e == 'b' then Some('\U{08}')
    else if e == 'f' then Some('\U{0c}')
    else if e == 'n' then Some('\n')
    else if e == 'r' then Some('\r')
    else if e == 't' then Some('\t')
    else if e == 'v' then Some('\U{0b}')
    else None
  }

  /** Decodes quoted text: escapes are read back, and a bare '"' or a
      control character is refused. */
  function UnquoteBody(t: string): (r: Option<string>)
    decreases |t|
  {
    if t == [] then Some([])
    else if t[0] == '"' || IsControl(t[0]) then None
    else if t[0] != '\\' then
      match UnquoteBody(t[1..])
      case Some(rest) => Some([t[0]] + rest)
      case None => None
    else if |t| < 2 then None
    else if t[1] == 'x' then
      if |t| < 4 then None
      else
        match (HexValue(t[2]), HexValue(t[3]), UnquoteBody(t[4..]))
        case (Some(h), Some(l), Some(rest)) => Some([(h * 16 + l) as char] + rest)
        case _ => None
    else
      match (SimpleEscape(t[1]), UnquoteBody(t[2..]))
      case (Some(c), Some(rest)) => Some([c] + rest)
      case _ => None
  }

  /** The text of a double-quoted string, or None when it is not one. */
  function Unquote(q: string): Option<string> {
    if |q| >= 2 && q[0] == '"' && q[|q| - 1] == '"' then UnquoteBody(q[1..|q| - 1]) else None
  }

  /** Decoding one escape and then the rest is decoding the rest and
      putting the character in front. */
  lemma UnquoteEscape(c: char, rest: string)
    ensures UnquoteBody(EscapeChar(c) + rest) ==
      match UnquoteBody(rest) case Some(t) => Some([c] + t) case None => None
  {
    if IsControl(c) && !(c == '\U{07}' || c == '\U{08}' || c == '\U{0c}' || c == '\n' || c == '\r' || c == '\t' || c == '\U{0b}') {
      UnquoteHex(c, rest);
    } else if c == '"' || c == '\\' || IsControl(c) {
      var t := EscapeChar(c) + rest;
      assert t[0] == '\\' && |t| >= 2 && t[1] != 'x' && SimpleEscape(t[1]) == Some(c);
      assert t[2..] == rest;
    } else {
      var t := EscapeChar(c) + rest;
      assert t[0] == c && t[1..] == rest;
    }
  }

  /** A `\xHH` escape reads back as the character it encodes. */
  lemma UnquoteHex(c: char, rest: string)
    requires IsControl(c) && !(c == '\U{07}' || c == '\U{08}' || c == '\U{0c}' || c == '\n' || c == '\r' || c == '\t' || c == '\U{0b}')
    ensures UnquoteBody(EscapeChar(c) + rest) ==
      match UnquoteBody(rest) case Some(t) => Some([c] + t) case None => None
  {
    var t := EscapeChar(c) + rest;
    var h, l := c as int / 16, c as int % 16;
    assert EscapeChar(c) == ['\\', 'x', HexDigits[h], HexDigits[l]];
    assert t[0] == '\\' && t[1] == 'x' && t[2] == HexDigits[h] && t[3] == HexDigits[l] && t[4..] == rest;
    HexDigitValue(h);
    HexDigitValue(l);
    assert (h * 16 + l) as char == c;
  }

  lemma HexDigitValue(n: int)
    requires 0 <= n < 16
    ensures HexValue(HexDigits[n]) == Some(n)
  {
    assert n < 10 || n == 10 || n == 11 || n == 12 || n == 13 || n == 14 || n == 15;
  }

  lemma {:induction false} UnquoteQuoteBody(s: string)
    ensures UnquoteBody(QuoteBody(s)) == Some(s)
    decreases |s|
  {
    if s != [] {
      UnquoteQuoteBody(s[1..]);
      UnquoteEscape(s[0], QuoteBody(s[1..]));
      assert [s[0]] + s[1..] == s;
    }
  }

  /** Round trip: the ETag header's value reads back as the stored ETag. */
  lemma UnquoteQuote(s: string)
    ensures Unquote(Quote(s)) == Some(s)
  {
    var q := Quote(s);
    assert q[1..|q| - 1] == QuoteBody(s);
    UnquoteQuoteBody(s);
  }

  /** The quoted text holds no control character, so it is a valid header
      value whatever the ETag holds. */
  lemma {:induction false} QuoteBodyPrintable(s: string)
    ensures forall k :: 0 <= k < |QuoteBody(s)| ==> !IsControl(QuoteBody(s)[k])
    decreases |s|
  {
    if s != [] {
      QuoteBodyPrintable(s[1..]);
      var e := EscapeChar(s[0]);
      assert forall k :: 0 <= k < |e| ==> !IsControl(e[k]);
    }
  }

  // ------------------------------------------------------------ properties

  /** The names `findLatest` answers with are served from the key it found:
      for a listed key that parses, `get` rewrites its public name back to
      that key. */
  lemma ServesLatestKey(key: string)
    requires KeyDate(key).Some?
    ensures ObjectKey(ReplaceAll(key, '/', '-')) == key
  {
    var d := KeyDate(key).value;
    NameOfKey(key);
    ShortPathToFullPath(Issue(d, ".pdf"));
    StorageLayoutFacts();
    ParsedIsCanonical(StorageLayout, key);
    FormatStorage(d);
  }

  /** The fast-path names `findLatest` answers with are served from the key
      it checked. */
  lemma ServesFastPathName(d: Date)
    requires Valid(d) && 0 <= d.year
    ensures ObjectKey(Format(PdfNameLayout, d)) == Format(StorageLayout, d)
  {
    FastPathNames(d);
    ShortPathToFullPath(Issue(d, ".pdf"));
  }

  /** Issues stored by `update` or `upload` are served under their public
      name when the extension holds no '-'. */
  lemma ServesIssue(i: Issue)
    requires Valid(i.date) && 0 <= i.date.year && '-' !in i.ext
    ensures ObjectKey(ShortPath(i)) == FullPath(i)
  {
    ShortPathToFullPath(i);
  }

  /** A stored name that is not a dated issue and holds a '-' is kept as
      its own key by `update` and `upload`, but `get` looks it up under a
      different key. */
  lemma UndatedNameWithHyphenMissed(name: string)
    requires '-' in name
    ensures ObjectKey(name) != name
  {
  }
}
