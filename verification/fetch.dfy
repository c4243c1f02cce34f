/** `update` and `updateHandler` of `update.go`: fetch the configured
    upstream URL, following redirects while renaming the file after each
    hop, stop as soon as a hop names a file already in the store, and store
    a fresh download under its key, recording its public name as the latest
    issue.

    The network and the store are inputs: the redirect targets in the order
    the server sends them, how the last request ended, the set of keys
    `StatObject` finds, and whether `PutObject` succeeds. */
module Fetch {
  import opened Wrappers
  import opened GoStrings
  import opened Http
  import opened UpstreamNames

  /** How the request chain ended when it was not cut short. */
  datatype Ending = Responded(status: int) | TransportFailed

  /** The one write `update` makes: key and `Content-Disposition`. */
  datatype Put = Put(key: string, disposition: string)

  datatype UpdateError = UpstreamStatus(status: int) | Transport | Store

  /** Where following the redirects left the names, and whether it was cut
      short because the store already held the key (`exists`). */
  datatype Chain = Chain(names: Names, stopped: bool)

  /** Everything `update` decides: the put it makes, if any, the value of
      the `latest` slot afterwards, and its result. */
  datatype UpdateOutcome = UpdateOutcome(put: Option<Put>, latest: Option<string>, result: Result<string, UpdateError>)

  /** The names a redirect target gives: `KeyAndFlat` of the base of the
      whole target URL text. */
  function HopNames(target: string): Names {
    KeyAndFlat(Base(target))
  }

  /** A target whose base carries a date is named by that issue's storage
      key and public name; any other target by its base, for both. */
  lemma HopNamesOf(target: string)
    ensures GetDateUpstream(Base(target)).Ok? ==>
      var i := Issues.Issue(GetDateUpstream(Base(target)).value, Ext(Base(target)));
      HopNames(target) == Names(Issues.FullPath(i), Issues.ShortPath(i))
    ensures GetDateUpstream(Base(target)).Err? ==> HopNames(target) == Names(Base(target), Base(target))
  {
    var name := Base(target);
    if GetDateUpstream(name).Ok? {
      KeyAndFlatDated(name);
    }
  }

  /** The names of every hop, in order. */
  function ChainNames(hops: seq<string>): (r: seq<Names>)
    ensures |r| == |hops| && forall i :: 0 <= i < |hops| ==> r[i] == HopNames(hops[i])
  {
    seq(|hops|, i requires 0 <= i < |hops| => HopNames(hops[i]))
  }

  /** A hop whose key `StatObject` finds. */
  predicate Stored(hs: seq<Names>, store: set<string>, i: int)
    requires 0 <= i < |hs|
  {
    hs[i].key in store
  }

  /** The `CheckRedirect` callback over the whole chain: every hop renames;
      the first hop whose key is stored stops the chain. */
  function Follow(names: Names, hs: seq<Names>, store: set<string>): (r: Chain)
    ensures r.stopped <==> FirstStored(hs, store) < |hs|
    ensures r.stopped ==> r.names == hs[FirstStored(hs, store)]
    ensures !r.stopped ==> r.names == if hs == [] then names else hs[|hs| - 1]
    decreases |hs|
  {
    if hs == [] then Chain(names, false)
    else if hs[0].key in store then Chain(hs[0], true)
    else Follow(hs[0], hs[1..], store)
  }

  /** The index of the first stored hop, or the number of hops when there
      is none. */
  function FirstStored(hs: seq<Names>, store: set<string>): (r: int)
    ensures 0 <= r <= |hs|
    ensures r < |hs| ==> Stored(hs, store, r)
    ensures forall j :: 0 <= j < r ==> !Stored(hs, store, j)
    decreases |hs|
  {
    if hs == [] then 0
    else if Stored(hs, store, 0) then 0
    else
      var k := FirstStored(hs[1..], store);
      assert forall j :: 1 <= j < |hs| ==> Stored(hs, store, j) == Stored(hs[1..], store, j - 1);
      1 + k
  }

  /** The names before any redirect: the base of the configured URL, for
      both key and public name; no date is read from it. */
  function Initial(configUrl: string): (r: Names)
    ensures r.key == r.flat == Base(configUrl)
  {
    var filename := Base(configUrl);
    Names(filename, filename)
  }

  /** `update`. A chain cut short answers with the redirect itself, which is
      never 200, so it succeeds with the public name of the stored file.
      Otherwise only a 200 leads to the single put, and only a successful
      put writes `latest`. */
  function Update(configUrl: string, hops: seq<string>, ending: Ending, store: set<string>, putOk: bool, latest: Option<string>): (r: UpdateOutcome)
    ensures r.put.Some? <==> FirstStored(ChainNames(hops), store) == |hops| && ending == Responded(StatusOK)
    ensures r.latest != latest ==> r.put.Some? && putOk && r.result.Ok? && r.latest == Some(r.result.value)
  {
    var chain := Follow(Initial(configUrl), ChainNames(hops), store);
    var names := chain.names;
    if chain.stopped then UpdateOutcome(None, latest, Ok(names.flat))
    else
      match ending
      case TransportFailed => UpdateOutcome(None, latest, Err(Transport))
      case Responded(status) =>
        if status != StatusOK then UpdateOutcome(None, latest, Err(UpstreamStatus(status)))
        else
          var put := Put(names.key, "attachment; filename=" + names.flat);
          if !putOk then UpdateOutcome(Some(put), latest, Err(Store))
          else UpdateOutcome(Some(put), Some(names.flat), Ok(names.flat))
  }

  /** What `updateHandler` does: whether `update` ran, its effects, and the reply. */
  datatype HandlerOutcome = HandlerOutcome(ran: bool, put: Option<Put>, latest: Option<string>, reply: Reply)

  /** `updateHandler`: a wrong `Authorization` header is refused with 401
      before anything is fetched; an `update` error is a 500; success
      redirects (307) to `../<name>`. */
  function UpdateHandler(authorization: string, authKey: string,
                         configUrl: string, hops: seq<string>, ending: Ending, store: set<string>, putOk: bool,
                         latest: Option<string>): (r: HandlerOutcome)
    ensures !r.ran <==> authorization != authKey
    ensures !r.ran ==> r.put.None? && r.latest == latest && r.reply == Error(StatusText(StatusUnauthorized), StatusUnauthorized)
    ensures r.ran ==> var u := Update(configUrl, hops, ending, store, putOk, latest);
      r.put == u.put && r.latest == u.latest &&
      (u.result.Err? ==> r.reply == LibraryError(StatusInternalServerError)) &&
      (u.result.Ok? ==> r.reply == Redirect(StatusTemporaryRedirect, "../" + u.result.value))
  {
    if authorization != authKey then
      HandlerOutcome(false, None, latest, Error(StatusText(StatusUnauthorized), StatusUnauthorized))
    else
      var u := Update(configUrl, hops, ending, store, putOk, latest);
      var reply := match u.result
        case Ok(name) => Redirect(StatusTemporaryRedirect, "../" + name)
        case Err(_) => LibraryError(StatusInternalServerError);
      HandlerOutcome(true, u.put, u.latest, reply)
  }

  // ------------------------------------------------------------ properties

  /** Already mirrored: when some hop names a stored key, `update` succeeds
      with the public name of the first such hop, puts nothing and leaves
      `latest` alone, whatever the rest of the chain would have done. */
  lemma AlreadyMirrored(configUrl: string, hops: seq<string>, ending: Ending, store: set<string>, putOk: bool, latest: Option<string>)
    requires FirstStored(ChainNames(hops), store) < |hops|
    ensures var r := Update(configUrl, hops, ending, store, putOk, latest);
      r == UpdateOutcome(None, latest, Ok(HopNames(hops[FirstStored(ChainNames(hops), store)]).flat))
  {
  }

  /** Not mirrored: with no stored hop, the names are those of the last hop
      (or of the configured URL), and the outcome is decided by how the
      chain ended and whether the put succeeds. */
  lemma FreshDownload(configUrl: string, hops: seq<string>, ending: Ending, store: set<string>, putOk: bool, latest: Option<string>)
    requires FirstStored(ChainNames(hops), store) == |hops|
    ensures var names := if hops == [] then Initial(configUrl) else HopNames(hops[|hops| - 1]);
      var r := Update(configUrl, hops, ending, store, putOk, latest);
      match ending
      case TransportFailed => r == UpdateOutcome(None, latest, Err(Transport))
      case Responded(status) =>
        if status != StatusOK then r == UpdateOutcome(None, latest, Err(UpstreamStatus(status)))
        else
          var put := Put(names.key, "attachment; filename=" + names.flat);
          r == if putOk then UpdateOutcome(Some(put), Some(names.flat), Ok(names.flat))
               else UpdateOutcome(Some(put), latest, Err(Store))
  {
  }

  /** Without a redirect, the file is stored under the base of the
      configured URL as it is, even when that name carries a date, and the
      store is not asked about it first. */
  lemma UnredirectedName(configUrl: string, store: set<string>, latest: Option<string>)
    ensures var n := Base(configUrl);
      var r := Update(configUrl, [], Responded(StatusOK), store, true, latest);
      r.put == Some(Put(n, "attachment; filename=" + n)) && r.latest == Some(n) && r.result == Ok(n)
  {
  }

  /** An error leaves `latest` as it was. */
  lemma ErrorKeepsLatest(configUrl: string, hops: seq<string>, ending: Ending, store: set<string>, putOk: bool, latest: Option<string>)
    ensures Update(configUrl, hops, ending, store, putOk, latest).result.Err? ==>
      Update(configUrl, hops, ending, store, putOk, latest).latest == latest
  {
  }

  /** An upstream file name `<a>-<b>-M-D-YYYY<ext>` holds no '/', and its
      extension is `ext`. */
  lemma UpstreamNameShape(a: string, b: string, d: Calendar.Date, e: string)
    requires '-' !in a && '.' !in a && '/' !in a && '-' !in b && '.' !in b && '/' !in b
    requires Calendar.Valid(d) && 0 <= d.year <= 9999 && Issues.PlainExt(e)
    ensures var name := a + "-" + b + "-" + GoTime.Format(GoTime.UpstreamLayout, d) + e;
      '/' !in name && Ext(name) == e
  {
    Issues.UpstreamTextPlain(d);
    var stem := a + "-" + b + "-" + GoTime.Format(GoTime.UpstreamLayout, d);
    assert '/' !in stem;
    StripPlainExt(stem, e);
  }

  /** A redirect target ending in an upstream file name yields the issue's
      storage key and public name. */
  lemma HopOfUpstreamName(dir: string, a: string, b: string, d: Calendar.Date, e: string)
    requires '-' !in a && '.' !in a && '/' !in a && '-' !in b && '.' !in b && '/' !in b
    requires Calendar.Valid(d) && 0 <= d.year <= 9999 && Issues.PlainExt(e)
    ensures var name := a + "-" + b + "-" + GoTime.Format(GoTime.UpstreamLayout, d) + e;
      var i := Issues.Issue(d, e);
      HopNames(dir + "/" + name) == Names(Issues.FullPath(i), Issues.ShortPath(i))
  {
    var name := a + "-" + b + "-" + GoTime.Format(GoTime.UpstreamLayout, d) + e;
    UpstreamNameShape(a, b, d, e);
    BaseOfLast(dir, name);
    UpstreamNameAccepted(a, b, d, e);
    KeyAndFlatDated(name);
  }

  /** Scenario: the second redirect hop names an issue already in the store
      and the chain ends on the redirect; `update` returns that issue's
      public name and writes nothing. */
  lemma SecondHopAlreadyStored(configUrl: string, first: string, second: string, rest: seq<string>,
                               ending: Ending, store: set<string>, putOk: bool, latest: Option<string>)
    requires HopNames(first).key !in store && HopNames(second).key in store
    ensures var r := Update(configUrl, [first, second] + rest, ending, store, putOk, latest);
      r.result == Ok(HopNames(second).flat) && r.put.None? && r.latest == latest
  {
    var hops := [first, second] + rest;
    SecondHopFirstStored(first, second, rest, store);
    AlreadyMirrored(configUrl, hops, ending, store, putOk, latest);
  }

  /** In that scenario the second hop is the first stored one. */
  lemma SecondHopFirstStored(first: string, second: string, rest: seq<string>, store: set<string>)
    requires HopNames(first).key !in store && HopNames(second).key in store
    ensures var hops := [first, second] + rest;
      FirstStored(ChainNames(hops), store) == 1 && hops[1] == second
  {
    var hops := [first, second] + rest;
    assert hops[0] == first && hops[1] == second;
    SecondStoredFirst(ChainNames(hops), store);
  }

  /** A stored hop with none stored before it is the first stored hop. */
  /** A chain whose first hop is not stored and whose second is stops at the second. */
  lemma SecondStoredFirst(hs: seq<Names>, store: set<string>)
    requires 2 <= |hs| && hs[0].key !in store && hs[1].key in store
    ensures FirstStored(hs, store) == 1
  {
    FirstStoredAt(hs, store, 1);
  }

  lemma FirstStoredAt(hs: seq<Names>, store: set<string>, k: int)
    requires 0 <= k < |hs| && Stored(hs, store, k)
    requires forall j :: 0 <= j < k ==> !Stored(hs, store, j)
    ensures FirstStored(hs, store) == k
  {
  }

  /** Scenario: a genuine 200 for a new issue; exactly one put, at the key
      of the last hop, and `latest` reads its public name afterwards. */
  lemma FreshIssueStored(configUrl: string, hops: seq<string>, store: set<string>, latest: Option<string>)
    requires hops != [] && forall i :: 0 <= i < |hops| ==> HopNames(hops[i]).key !in store
    ensures var names := HopNames(hops[|hops| - 1]);
      var r := Update(configUrl, hops, Responded(StatusOK), store, true, latest);
      r.put == Some(Put(names.key, "attachment; filename=" + names.flat)) &&
      r.latest == Some(names.flat) && r.result == Ok(names.flat)
  {
    var hs := ChainNames(hops);
    assert forall i :: 0 <= i < |hs| ==> !Stored(hs, store, i);
    FreshDownload(configUrl, hops, Responded(StatusOK), store, true, latest);
  }
}
