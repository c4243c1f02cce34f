/** `upload` of `upload.go`: fetch a URL given in the query, keep the file
    name of the last redirect target, store the file under the key derived
    from that name, and answer with a link to its public name.

    The network and the store are inputs as in `Fetch`: the paths of the
    redirect targets in order, how the last request ended, and whether
    `PutObject` succeeds. Building the request is an input too, since URL
    parsing is not modelled. */
module Upload {
  import opened Wrappers
  import opened GoStrings
  import opened Http
  import opened UpstreamNames
  import opened Fetch

  /** The parts of the request's URL that `URL.String` writes for a server
      request: no user info, no fragment, no opaque form. */
  datatype Url = Url(scheme: string, host: string, path: string, rawQuery: string)

  /** `URL.String`: `scheme:`, `//host`, a '/' before a relative path when
      there is a host, "./" before a path whose first segment holds a ':'
      when nothing precedes it, the path, and `?query` when there is one. */
  function UrlString(u: Url): (r: string)
    ensures u.rawQuery != "" ==> |r| > |u.rawQuery| && r[|r| - |u.rawQuery| - 1..] == "?" + u.rawQuery
    ensures u.rawQuery == "" ==> |r| >= |u.path| && r[|r| - |u.path|..] == u.path
    ensures u.rawQuery == "" && u.scheme == "" && u.host == "" && ':' !in u.path ==> r == u.path
  {
    var authority := if u.scheme != "" || u.host != "" then (if u.host != "" || u.path != "" then "//" else "") + u.host else "";
    var head := (if u.scheme != "" then u.scheme + ":" else "") + authority;
    var slash := if u.path != "" && u.path[0] != '/' && u.host != "" then "/" else "";
    var dot := if head == "" && ':' in Cut(u.path, '/').before then "./" else "";
    var query := if u.rawQuery != "" then "?" + u.rawQuery else "";
    head + slash + dot + u.path + query
  }

  /** The `CheckRedirect` callback over the whole chain: every hop replaces
      the tracked name by the base of its path, and none is refused. */
  function Track(filename: string, hops: seq<string>): (r: string)
    ensures hops == [] ==> r == filename
    ensures hops != [] ==> r == Base(hops[|hops| - 1])
    decreases |hops|
  {
    if hops == [] then filename
    else if |hops| == 1 then Base(hops[0])
    else
      var rest := hops[1..];
      assert rest[|rest| - 1] == hops[|hops| - 1];
      Track(Base(hops[0]), rest)
  }

  /** What `upload` does: whether it fetched, the put it made, and the reply. */
  datatype UploadOutcome = UploadOutcome(fetched: bool, put: Option<Put>, reply: Reply)

  /** `upload`. A wrong `Authorization` header is refused with 401 and a
      missing `url` with 400 "Missing url", both before any fetch. A
      request or transport error is a 500, a final status other than 200 is
      answered with that status, and a failed put is a 500. On success the
      body is the request's URL with the public name as its path and no
      query, and a newline. */
  function UploadHandler(authorization: string, authKey: string, urlParam: string, requestBuilt: bool,
                         hops: seq<string>, ending: Ending, putOk: bool, requestUrl: Url): (r: UploadOutcome)
    ensures !r.fetched <==> authorization != authKey || urlParam == "" || !requestBuilt
    ensures authorization != authKey ==> r.reply == Error("Unauthorized", StatusUnauthorized)
    ensures authorization == authKey && urlParam == "" ==> r.reply == Error("Missing url", StatusBadRequest)
    ensures r.put.Some? <==> r.fetched && ending == Responded(StatusOK)
    ensures authorization == authKey && urlParam != "" && !requestBuilt ==> r.reply == LibraryError(StatusInternalServerError)
    ensures r.fetched && ending == TransportFailed ==> r.reply == LibraryError(StatusInternalServerError)
    ensures r.fetched && ending.Responded? && ending.status != StatusOK ==> r.reply == LibraryError(ending.status)
    ensures r.put.Some? ==> var filename := if hops == [] then Base(urlParam) else Base(hops[|hops| - 1]);
      r.put.value == Put(KeyAndFlat(filename).key, "attachment; filename=" + KeyAndFlat(filename).flat)
    ensures r.put.Some? && !putOk ==> r.reply == LibraryError(StatusInternalServerError)
    ensures r.put.Some? && putOk ==> var filename := if hops == [] then Base(urlParam) else Base(hops[|hops| - 1]);
      r.reply == Plain(StatusOK, Text(UrlString(requestUrl.(path := KeyAndFlat(filename).flat, rawQuery := "")) + "\n"))
    ensures r.reply.Plain? && r.reply.status == StatusOK <==> r.put.Some? && putOk
  {
    if authorization != authKey then
      UploadOutcome(false, None, Error(StatusText(StatusUnauthorized), StatusUnauthorized))
    else if urlParam == "" then
      UploadOutcome(false, None, Error("Missing url", StatusBadRequest))
    else if !requestBuilt then
      UploadOutcome(false, None, LibraryError(StatusInternalServerError))
    else
      var filename := Track(Base(urlParam), hops);
      match ending
      case TransportFailed => UploadOutcome(true, None, LibraryError(StatusInternalServerError))
      case Responded(status) =>
        if status != StatusOK then UploadOutcome(true, None, LibraryError(status))
        else
          var names := KeyAndFlat(filename);
          var put := Put(names.key, "attachment; filename=" + names.flat);
          if !putOk then UploadOutcome(true, Some(put), LibraryError(StatusInternalServerError))
          else
            var fileUrl := requestUrl.(path := names.flat, rawQuery := "");
            UploadOutcome(true, Some(put), Plain(StatusOK, Text(UrlString(fileUrl) + "\n")))
  }

  // ------------------------------------------------------------ properties

  /** A successful upload answers, for a request in origin form (no scheme,
      no host), with the public name it stored the file under and a newline,
      whatever query the request carried. */
  lemma UploadLinksPublicName(authKey: string, urlParam: string, hops: seq<string>, path: string, query: string)
    requires urlParam != ""
    requires var filename := if hops == [] then Base(urlParam) else Base(hops[|hops| - 1]);
      ':' !in KeyAndFlat(filename).flat
    ensures var filename := if hops == [] then Base(urlParam) else Base(hops[|hops| - 1]);
      var r := UploadHandler(authKey, authKey, urlParam, true, hops, Responded(StatusOK), true, Url("", "", path, query));
      r.reply == Plain(StatusOK, Text(KeyAndFlat(filename).flat + "\n"))
  {
  }

  /** Scenario: the last redirect target is an upstream file name; the file
      is stored under the issue's storage key with the public name as its
      download name, and the answer links the public name. */
  lemma UploadOfUpstreamName(authKey: string, urlParam: string, first: seq<string>, dir: string,
                             a: string, b: string, d: Calendar.Date, e: string, path: string, query: string)
    requires urlParam != ""
    requires '-' !in a && '.' !in a && '/' !in a && '-' !in b && '.' !in b && '/' !in b
    requires Calendar.Valid(d) && 0 <= d.year <= 9999 && Issues.PlainExt(e) && ':' !in e
    ensures var name := a + "-" + b + "-" + GoTime.Format(GoTime.UpstreamLayout, d) + e;
      var i := Issues.Issue(d, e);
      var r := UploadHandler(authKey, authKey, urlParam, true, first + [dir + "/" + name], Responded(StatusOK), true, Url("", "", path, query));
      r.put == Some(Put(Issues.FullPath(i), "attachment; filename=" + Issues.ShortPath(i))) &&
      r.reply == Plain(StatusOK, Text(Issues.ShortPath(i) + "\n"))
  {
    var name := a + "-" + b + "-" + GoTime.Format(GoTime.UpstreamLayout, d) + e;
    var i := Issues.Issue(d, e);
    var hops := first + [dir + "/" + name];
    var names := Names(Issues.FullPath(i), Issues.ShortPath(i));
    assert KeyAndFlat(Base(hops[|hops| - 1])) == names by {
      assert hops[|hops| - 1] == dir + "/" + name;
      HopOfUpstreamName(dir, a, b, d, e);
    }
    assert ':' !in names.flat by {
      Issues.DateTextChars(d);
      assert names.flat == GoTime.Format(GoTime.DashLayout, d) + e;
    }
    UploadLinksPublicName(authKey, urlParam, hops, path, query);
  }

  /** A request in absolute form keeps its scheme and host in the link. */
  lemma UploadLinkAbsolute(scheme: string, host: string, flat: string)
    requires scheme != "" && host != "" && flat != "" && flat[0] != '/'
    ensures UrlString(Url(scheme, host, flat, "")) == scheme + "://" + host + "/" + flat
  {
  }
}
