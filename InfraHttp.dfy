/** src/infra-http.ts: the rate-limit clamp, the URL-to-cache-key derivation, and the
    two fetch modes over an injected cache store, delay and HTTP request.
    The injected collaborators are the state of one `FetchLayer` object: the cache
    store is a map, and every delay, request and store is appended to an effect log
    in the order it is awaited. */
module InfraHttp {
  import opened Wrappers
  import opened Types
  import opened Encoding

  /** The floor on the pause before every network access. */
  const MinimumDelayMs: int := 1000

  /** `delaySafe`'s duration: the configured delay, raised to the floor. */
  function DelaySafe(delayMs: int): (ms: int)
    ensures ms >= MinimumDelayMs && ms >= delayMs
    ensures ms == MinimumDelayMs || ms == delayMs
  {
    if delayMs < MinimumDelayMs then MinimumDelayMs else delayMs
  }

  /** `urlToCacheKey`: the base64 of the URL's UTF-8 bytes. */
  function UrlToCacheKey(url: string): string {
    Base64Encode(Utf8Encode(url))
  }

  /** Distinct URLs never share a cache entry. */
  lemma UrlToCacheKeyInjective(u: string, v: string)
    requires UrlToCacheKey(u) == UrlToCacheKey(v)
    ensures u == v
  {
    Base64RoundTrip(Utf8Encode(u));
    Base64RoundTrip(Utf8Encode(v));
    Utf8RoundTrip(u);
    Utf8RoundTrip(v);
  }

  /** An awaited external effect: a pause of the injected `delay`, an HTTP request, or a
      write to the cache store. */
  datatype Effect = Wait(ms: int) | Request(url: string) | Stored(key: string)

  /** How the injected `findCache` reads the store: the file-backed one returns the
      content whenever an entry exists (so an empty entry is a hit, `cache != null`),
      the in-memory one of the tests returns `map.get(key) || null` (an empty entry
      reads as a miss). */
  datatype CacheLookup = FileLookup | TruthyLookup

  function Lookup(mode: CacheLookup, cache: map<string, string>, key: string): Option<string> {
    if key !in cache then None
    else if mode == TruthyLookup && cache[key] == "" then None
    else Some(cache[key])
  }

  function CountRequests(effects: seq<Effect>): nat {
    if effects == [] then 0
    else (if effects[0].Request? then 1 else 0) + CountRequests(effects[1..])
  }

  function CountWaits(effects: seq<Effect>): nat {
    if effects == [] then 0
    else (if effects[0].Wait? then 1 else 0) + CountWaits(effects[1..])
  }

  lemma {:induction false} CountAppend(a: seq<Effect>, b: seq<Effect>)
    ensures CountRequests(a + b) == CountRequests(a) + CountRequests(b)
    ensures CountWaits(a + b) == CountWaits(a) + CountWaits(b)
  {
    if a == [] {
      assert a + b == b;
    } else {
      assert (a + b)[1..] == a[1..] + b;
      CountAppend(a[1..], b);
    }
  }

  /** Every request is issued right after a pause of `ms`. */
  ghost predicate PacedBy(effects: seq<Effect>, ms: int) {
    forall i :: 0 <= i < |effects| && effects[i].Request? ==> 0 < i && effects[i - 1] == Wait(ms)
  }

  class FetchLayer {
    /** How long the injected `delay` pauses. */
    const waitMs: int
    const lookup: CacheLookup
    /** The injected cache store, keyed by cache key. */
    var cache: map<string, string>
    var effects: seq<Effect>

    ghost predicate Valid()
      reads this
    {
      PacedBy(effects, waitMs)
    }

    constructor (waitMs: int, lookup: CacheLookup, cache: map<string, string>)
      ensures Valid()
      ensures this.waitMs == waitMs && this.lookup == lookup && this.cache == cache && effects == []
    {
      this.waitMs := waitMs;
      this.lookup := lookup;
      this.cache := cache;
      effects := [];
    }

    function FindCache(key: string): Option<string>
      reads this
    {
      Lookup(lookup, cache, key)
    }

    /** `fetchHtml`: a hit returns the cached content and performs nothing else; a miss
        pauses, requests, and on success stores the content under the URL's key.
        `doFetch(url)` is the injected `doFetchHtml`'s response, `None` when it throws,
        in which case nothing is stored. */
    method FetchHtml(url: string, doFetch: string -> Option<string>) returns (r: Result<string, Error>)
      requires Valid()
      modifies this
      ensures Valid()
      ensures var key := UrlToCacheKey(url);
        match old(FindCache(key))
        case Some(hit) =>
          r == Success(hit) && cache == old(cache) && effects == old(effects)
        case None =>
          match doFetch(url)
          case Some(content) =>
            && r == Success(content)
            && cache == old(cache)[key := content]
            && effects == old(effects) + [Wait(waitMs), Request(url), Stored(key)]
          case None =>
            && r == Failure(FetchFailed(url))
            && cache == old(cache)
            && effects == old(effects) + [Wait(waitMs), Request(url)]
      ensures var miss := if old(FindCache(UrlToCacheKey(url))).Some? then 0 else 1;
        && CountRequests(effects) == CountRequests(old(effects)) + miss
        && CountWaits(effects) == CountWaits(old(effects)) + miss
    {
      var key := UrlToCacheKey(url);
      var hit := FindCache(key);
      if hit.Some? {
        return Success(hit.value);
      }
      ghost var before := effects;
      MissCounts(waitMs, url, key);
      effects := effects + [Wait(waitMs)];
      effects := effects + [Request(url)];
      var response := doFetch(url);
      if response.None? {
        CountAppend(before, [Wait(waitMs), Request(url)]);
        return Failure(FetchFailed(url));
      }
      CountAppend(before, [Wait(waitMs), Request(url), Stored(key)]);
      effects := effects + [Stored(key)];
      cache := cache[key := response.value];
      r := Success(response.value);
    }

    /** `fetchJson`: always one pause then one request; the cache is never touched. */
    method FetchJson(url: string, doFetch: string -> Option<string>) returns (r: Result<string, Error>)
      requires Valid()
      modifies this`effects
      ensures Valid()
      ensures effects == old(effects) + [Wait(waitMs), Request(url)]
      ensures r == if doFetch(url).Some? then Success(doFetch(url).value) else Failure(FetchFailed(url))
    {
      effects := effects + [Wait(waitMs)];
      effects := effects + [Request(url)];
      var response := doFetch(url);
      r := if response.Some? then Success(response.value) else Failure(FetchFailed(url));
    }
  }

  /** With `delaySafe` as the injected delay, every request waits at least the floor and
      at least the configured delay. */
  lemma PacedBySafeDelay(effects: seq<Effect>, delayMs: int, i: nat)
    requires PacedBy(effects, DelaySafe(delayMs))
    requires i < |effects| && effects[i].Request?
    ensures 0 < i && effects[i - 1].Wait? && effects[i - 1].ms >= MinimumDelayMs && effects[i - 1].ms >= delayMs
  {
  }

  /** A cache miss performs one pause and one request, whether the request succeeds and
      its answer is stored or it throws. */
  lemma MissCounts(ms: int, url: string, key: string)
    ensures CountRequests([Wait(ms), Request(url), Stored(key)]) == 1
    ensures CountWaits([Wait(ms), Request(url), Stored(key)]) == 1
    ensures CountRequests([Wait(ms), Request(url)]) == 1
    ensures CountWaits([Wait(ms), Request(url)]) == 1
  {
    var e := [Wait(ms), Request(url), Stored(key)];
    assert e[1..] == [Request(url), Stored(key)];
    assert e[1..][1..] == [Stored(key)];
    assert e[1..][1..][1..] == [];
    assert CountRequests(e[1..][1..]) == 0 && CountWaits(e[1..][1..]) == 0;
    var f := [Wait(ms), Request(url)];
    assert f[1..] == [Request(url)];
    assert f[1..][1..] == [];
  }

  /** The repository's cache test: fetching one URL twice and then a second URL makes two
      requests and two pauses, with the in-memory store that reads empty as missing. */
  method UsesCacheScenario(u1: string, u2: string, page: string) returns (requests: nat, waits: nat)
    requires u1 != u2 && page != ""
    ensures requests == 2 && waits == 2
  {
    var layer := new FetchLayer(0, TruthyLookup, map[]);
    var doFetch := (u: string) => Some(page);
    var key1, key2 := UrlToCacheKey(u1), UrlToCacheKey(u2);
    if key1 == key2 {
      UrlToCacheKeyInjective(u1, u2);
    }
    assert CountRequests(layer.effects) == 0 && CountWaits(layer.effects) == 0;
    var r := layer.FetchHtml(u1, doFetch);
    assert layer.cache == map[key1 := page];
    r := layer.FetchHtml(u1, doFetch);
    assert layer.cache == map[key1 := page];
    r := layer.FetchHtml(u2, doFetch);
    requests, waits := CountRequests(layer.effects), CountWaits(layer.effects);
  }
}
