/**
 The ARI client: the CA's directory cached per URL, absence cached like an answer, and the three
 questions asked of one state (modules/core/ari.py, `RenewalInfoClient`). What the server would
 answer is an input of each call, and so is the injected clock.
 */
module AriClient {
  import opened Wrappers
  import opened AriIdentifier
  import opened AriWindow

  const TTL := 3600 * SECOND

  /** A directory document: something that is no object, or one with the `renewalInfo` base when
      that is a string. */
  datatype Document = NotAnObject | Directory(base: Option<string>)

  function UrlFor(doc: Document, id: string): Option<string> {
    match doc
    case NotAnObject => None
    case Directory(base) => RenewalInfoUrl(base, id)
  }

  /** One cached answer: when it was asked for and what came back, `None` when nothing usable did. */
  datatype Cached = Cached(at: int, document: Option<Document>)

  type Cache = map<string, Cached>

  predicate Hit(cache: Cache, url: string, now: int) {
    url in cache && now - cache[url].at < TTL
  }

  /** The cache, the document returned, and whether the CA was asked. */
  function Asked(cache: Cache, url: string, now: int, answer: Option<Document>): (Cache, Option<Document>, bool) {
    if url == "" then (cache, None, false)
    else if Hit(cache, url, now) then (cache, cache[url].document, false)
    else (cache[url := Cached(now, answer)], answer, true)
  }

  /** The servers as they would answer now: the CA's directory, and the window for any URL. */
  datatype Servers = Servers(directory: Option<Document>, info: string -> Option<Payload>)

  /** What there is to know about one certificate. */
  function InfoFrom(doc: Option<Document>, id: string, servers: Servers): Option<Payload> {
    if doc == None || UrlFor(doc.value, id) == None then None else servers.info(UrlFor(doc.value, id).value)
  }

  class RenewalInfoClient {
    var directories: Cache

    constructor ()
      ensures directories == map[]
    {
      directories := map[];
    }

    method Directory(url: string, now: int, answer: Option<Document>)
      returns (document: Option<Document>, fetched: bool)
      modifies this
      ensures (directories, document, fetched) == Asked(old(directories), url, now, answer)
    {
      if url == "" { return None, false; }
      if url in directories {
        var hit := directories[url];
        if now - hit.at < TTL { return hit.document, false; }
      }
      directories := directories[url := Cached(now, answer)];
      return answer, true;
    }

    method RenewalInfo(url: string, id: string, now: int, servers: Servers) returns (payload: Option<Payload>)
      modifies this
      ensures directories == Asked(old(directories), url, now, servers.directory).0
      ensures payload == InfoFrom(Asked(old(directories), url, now, servers.directory).1, id, servers)
      ensures match Asked(old(directories), url, now, servers.directory).1
              case Some(Directory(Some(base))) =>
                payload == (if base == "" then None else servers.info(RStripSlash(base) + "/" + Quote(id)))
              case _ => payload == None
    {
      var document, _ := Directory(url, now, servers.directory);
      if document == None { return None; }
      var info := UrlFor(document.value, id);
      if info == None { return None; }
      return servers.info(info.value);
    }

    /** Which kind of answer it is: a window comes with its payload, and nothing else does. */
    method Lookup(url: string, id: string, now: int, servers: Servers)
      returns (status: Status, payload: Option<Payload>)
      modifies this
      ensures directories == Asked(old(directories), url, now, servers.directory).0
      ensures var doc := Asked(old(directories), url, now, servers.directory).1;
              var info := InfoFrom(doc, id, servers);
              && (status == Window <==> info.Some? && ParseWindow(info.value).Some?)
              && (status == Window ==> payload == info)
              && (status != Window ==> payload == None)
              && (status == Unsupported <==> doc.Some? && UrlFor(doc.value, id) == None)
              && (status == Unavailable <==> status != Window && status != Unsupported)
    {
      var document, _ := Directory(url, now, servers.directory);
      if document == None { return Unavailable, None; }
      var info := UrlFor(document.value, id);
      if info == None { return Unsupported, None; }
      var answer := servers.info(info.value);
      if answer == None || ParseWindow(answer.value) == None { return Unavailable, None; }
      return Window, answer;
    }

    method SaysRenewNow(url: string, id: string, digest: nat, now: int, servers: Servers) returns (due: bool)
      modifies this
      ensures directories == Asked(old(directories), url, now, servers.directory).0
      ensures var info := InfoFrom(Asked(old(directories), url, now, servers.directory).1, id, servers);
              due <==> info.Some? && IsDue(digest, info.value, now)
    {
      var payload := RenewalInfo(url, id, now, servers);
      if payload == None { return false; }
      return IsDue(digest, payload.value, now);
    }

    /** Asked one after the other in one instant, of servers that do not change their answers,
        the three agree, whatever was cached before; and the CA is asked at most once. */
    method AskAll(url: string, id: string, digest: nat, now: int, servers: Servers)
      returns (status: Status, payload: Option<Payload>, info: Option<Payload>, due: bool, again: bool)
      modifies this
      ensures status == Window ==> payload == info && info.Some?
      ensures due <==> status == Window && IsDue(digest, info.value, now)
      ensures info == None ==> status != Window && !due
      ensures !again && directories == Asked(old(directories), url, now, servers.directory).0
    {
      status, payload := Lookup(url, id, now, servers);
      info := RenewalInfo(url, id, now, servers);
      due := SaysRenewNow(url, id, digest, now, servers);
      var _, asked := Directory(url, now, servers.directory);
      again := asked;
    }
  }

  // ----------------------------------------------------------------- runs

  /** One request for a directory, at a time, with what the CA would have said. */
  datatype Call = Call(url: string, now: int, answer: Option<Document>)

  function CacheAfter(calls: seq<Call>): Cache {
    if calls == [] then map[]
    else
      var c := calls[|calls| - 1];
      Asked(CacheAfter(calls[..|calls| - 1]), c.url, c.now, c.answer).0
  }

  /** Call `i` of the run went to the CA. */
  predicate Fetched(calls: seq<Call>, i: nat)
    requires i < |calls|
  {
    Asked(CacheAfter(calls[..i]), calls[i].url, calls[i].now, calls[i].answer).2
  }

  function Returned(calls: seq<Call>, i: nat): Option<Document>
    requires i < |calls|
  {
    Asked(CacheAfter(calls[..i]), calls[i].url, calls[i].now, calls[i].answer).1
  }

  predicate ClockForward(calls: seq<Call>) {
    forall i, j | 0 <= i < j < |calls| :: calls[i].now <= calls[j].now
  }

  /** `m` is the latest call for `url` among the first `n` that went to the CA. */
  predicate LatestFetch(calls: seq<Call>, url: string, n: nat, m: nat) {
    && m < n <= |calls| && calls[m].url == url && Fetched(calls, m)
    && forall j: nat | m < j < n && calls[j].url == url :: !Fetched(calls, j)
  }

  /** What the cache holds for `url` after `n` calls is the latest fetch, or there was none. */
  ghost predicate HoldsLatest(calls: seq<Call>, url: string, n: nat)
    requires n <= |calls|
  {
    var cache := CacheAfter(calls[..n]);
    && (url in cache ==>
          exists m: nat :: LatestFetch(calls, url, n, m) && cache[url] == Cached(calls[m].now, calls[m].answer))
    && (url !in cache ==> forall j: nat | j < n && calls[j].url == url :: !Fetched(calls, j))
  }

  lemma OneMoreCall(calls: seq<Call>, url: string, i: nat)
    requires i < |calls| && HoldsLatest(calls, url, i)
    ensures HoldsLatest(calls, url, i + 1)
  {
    assert calls[..i + 1][..i] == calls[..i] && calls[..i + 1][i] == calls[i];
    var before, now := CacheAfter(calls[..i]), CacheAfter(calls[..i + 1]);
    if calls[i].url == url && Fetched(calls, i) {
      assert LatestFetch(calls, url, i + 1, i);
    } else {
      assert url in now <==> url in before;
      if url in before {
        var m: nat :| LatestFetch(calls, url, i, m) && before[url] == Cached(calls[m].now, calls[m].answer);
        assert LatestFetch(calls, url, i + 1, m);
      }
    }
  }

  /** The cache holds exactly the latest fetch of each URL. */
  lemma {:induction false} CacheIsLatest(calls: seq<Call>, url: string, n: nat)
    requires n <= |calls|
    ensures HoldsLatest(calls, url, n)
  {
    if n == 0 {
      assert calls[..0] == [] && CacheAfter([]) == map[];
    } else {
      CacheIsLatest(calls, url, n - 1);
      OneMoreCall(calls, url, n - 1);
    }
  }

  /** Two fetches of one URL are never less than an hour apart, however often it is asked for and
      whether or not the first one got an answer. */
  lemma FetchesAreSpaced(calls: seq<Call>, i: nat, j: nat)
    requires ClockForward(calls) && i < j < |calls| && calls[i].url == calls[j].url
    requires Fetched(calls, i) && Fetched(calls, j)
    ensures calls[j].now - calls[i].now >= 3600 * 1_000_000
  {
    var url := calls[j].url;
    CacheIsLatest(calls, url, j);
    var m: nat :| LatestFetch(calls, url, j, m)
                  && CacheAfter(calls[..j])[url] == Cached(calls[m].now, calls[m].answer);
    assert i <= m;
    assert calls[i].now <= calls[m].now;
  }

  /** Every document returned is what the CA said at the latest fetch, which is this call or one
      less than an hour ago. */
  lemma ReturnedIsLatest(calls: seq<Call>, i: nat)
    requires i < |calls|
    ensures calls[i].url == "" ==> Returned(calls, i) == None && !Fetched(calls, i)
    ensures calls[i].url != "" ==>
            exists m: nat :: LatestFetch(calls, calls[i].url, i + 1, m) && Returned(calls, i) == calls[m].answer
                             && (m == i || calls[i].now - calls[m].now < 3600 * 1_000_000)
  {
    var url := calls[i].url;
    CacheIsLatest(calls, url, i);
    if Fetched(calls, i) {
      assert LatestFetch(calls, url, i + 1, i);
    } else if url != "" {
      var m: nat :| LatestFetch(calls, url, i, m)
                    && CacheAfter(calls[..i])[url] == Cached(calls[m].now, calls[m].answer);
      assert LatestFetch(calls, url, i + 1, m);
    }
  }
}
