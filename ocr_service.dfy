/** The text-extraction cache of the OCR service: a least-recently-used map
    from content hashes to extracted text, with hit and miss counters, and the
    cache-first flow that asks the Tika server for text only on a miss. */
module OcrService {
  import opened Wrappers
  import JsStrings
  import Base64

  type Bytes = Base64.Bytes

  /** `maxSize`: the most entries the cache holds. */
  const MaxSize: nat := 50

  predicate Distinct(s: seq<string>) {
    forall i, j :: 0 <= i < j < |s| ==> s[i] != s[j]
  }

  /** `order` without `k`, the rest in the same order. */
  function Without(order: seq<string>, k: string): seq<string> {
    if order == [] then [] else (if order[0] == k then [] else [order[0]]) + Without(order[1..], k)
  }

  /** Removing a key keeps every other key, in order, and removes exactly one
      place when the key occurs once. */
  lemma {:induction false} WithoutFacts(order: seq<string>, k: string)
    ensures forall x :: x in Without(order, k) <==> x in order && x != k
    ensures k !in order ==> Without(order, k) == order
    ensures Distinct(order) ==> Distinct(Without(order, k))
    ensures Distinct(order) && k in order ==> |Without(order, k)| == |order| - 1
  {
    if order != [] {
      WithoutFacts(order[1..], k);
      assert order == [order[0]] + order[1..];
      if Distinct(order) {
        assert Distinct(order[1..]) by {
          forall i, j | 0 <= i < j < |order[1..]| ensures order[1..][i] != order[1..][j] {
            assert order[1..][i] == order[i + 1] && order[1..][j] == order[j + 1];
          }
        }
        assert order[0] !in order[1..] by {
          forall i | 0 <= i < |order[1..]| ensures order[1..][i] != order[0] {
            assert order[1..][i] == order[i + 1];
          }
        }
      }
    }
  }

  /** Appending a key absent from a distinct order keeps it distinct. */
  lemma DistinctAppend(order: seq<string>, k: string)
    requires Distinct(order) && k !in order
    ensures Distinct(order + [k])
  {
    forall i, j | 0 <= i < j < |order + [k]| ensures (order + [k])[i] != (order + [k])[j] {
      assert (order + [k])[i] == order[i];
      if j < |order| {
        assert (order + [k])[j] == order[j];
      }
    }
  }

  /** `order` lists each key of `entries` exactly once. */
  ghost predicate Tracks(order: seq<string>, entries: map<string, string>) {
    Distinct(order) && forall k :: k in order <==> k in entries
  }

  lemma TracksRemove(order: seq<string>, entries: map<string, string>, k: string)
    requires Tracks(order, entries) && k in entries
    ensures Tracks(Without(order, k), entries - {k})
    ensures |Without(order, k)| == |order| - 1
  {
    WithoutFacts(order, k);
  }

  lemma TracksAdd(order: seq<string>, entries: map<string, string>, k: string, v: string)
    requires Tracks(order, entries) && k !in entries
    ensures Tracks(order + [k], entries[k := v])
  {
    DistinctAppend(order, k);
  }

  datatype CacheStats = CacheStats(size: nat, maxSize: nat, hits: nat, misses: nat)

  /** The head of a distinct order is removed by dropping it. */
  lemma WithoutHead(order: seq<string>)
    requires Distinct(order) && order != []
    ensures Without(order, order[0]) == order[1..]
  {
    assert order[0] !in order[1..] by {
      forall i | 0 <= i < |order[1..]| ensures order[1..][i] != order[0] {
        assert order[1..][i] == order[i + 1];
      }
    }
    WithoutFacts(order[1..], order[0]);
  }

  /** `TikaCache`: the `Map` of the source, whose insertion order is the
      recency order, is `order` (least recently used first) plus `entries`. */
  class TikaCache {
    var order: seq<string>
    var entries: map<string, string>
    var hits: nat
    var misses: nat

    ghost predicate Valid()
      reads this
    {
      Tracks(order, entries) && |order| <= MaxSize
    }

    constructor ()
      ensures Valid() && order == [] && entries == map[] && hits == 0 && misses == 0
    {
      order := [];
      entries := map[];
      hits := 0;
      misses := 0;
    }

    /** `get`: a hit returns the value, counts a hit and makes the key the most
        recent; a miss counts a miss and changes nothing else. */
    method Get(key: string) returns (r: Option<string>)
      requires Valid()
      modifies this
      ensures Valid()
      ensures key in old(entries) ==>
        r == Some(old(entries)[key]) && hits == old(hits) + 1 && misses == old(misses) &&
        entries == old(entries) && order == Without(old(order), key) + [key]
      ensures key !in old(entries) ==>
        r.None? && misses == old(misses) + 1 && hits == old(hits) && entries == old(entries) && order == old(order)
    {
      if key in entries {
        var value := entries[key];
        hits := hits + 1;
        WithoutFacts(order, key);
        DistinctAppend(Without(order, key), key);
        order := Without(order, key) + [key];
        r := Some(value);
      } else {
        misses := misses + 1;
        r := None;
      }
    }

    /** `set`: an existing key is replaced and made most recent; a new key is
        added last, after evicting the least recently used key when the cache
        is full. The counters are untouched. */
    method Set(key: string, value: string)
      requires Valid()
      modifies this
      ensures Valid()
      ensures key in entries && entries[key] == value && order[|order| - 1] == key
      ensures hits == old(hits) && misses == old(misses)
      ensures key in old(entries) ==>
        order == Without(old(order), key) + [key] && entries == old(entries)[key := value]
      ensures key !in old(entries) && |old(order)| < MaxSize ==>
        order == old(order) + [key] && entries == old(entries)[key := value]
      ensures key !in old(entries) && |old(order)| >= MaxSize ==>
        order == old(order)[1..] + [key] && entries == (old(entries) - {old(order)[0]})[key := value]
    {
      var o, e := order, entries;
      if key in e {
        TracksRemove(o, e, key);
        o, e := Without(o, key), e - {key};
        assert e[key := value] == entries[key := value];
      } else if |o| >= MaxSize {
        var firstKey := o[0];
        TracksRemove(o, e, firstKey);
        WithoutHead(o);
        o, e := o[1..], e - {firstKey};
      }
      TracksAdd(o, e, key, value);
      order, entries := o + [key], e[key := value];
    }

    /** `reset`: empties the cache and zeroes both counters. */
    method Reset()
      modifies this
      ensures Valid() && order == [] && entries == map[] && hits == 0 && misses == 0
    {
      order := [];
      entries := map[];
      hits := 0;
      misses := 0;
    }

    /** `getStats` without the hit rate. */
    function Stats(): (r: CacheStats)
      reads this
      requires Valid()
      ensures r.size == |entries| <= MaxSize && r.maxSize == MaxSize
      ensures r.hits == hits && r.misses == misses
    {
      EntriesCount(order, entries);
      CacheStats(|entries|, MaxSize, hits, misses)
    }
  }

  /** A distinct order naming exactly the keys of a map is as long as the map. */
  lemma {:induction false} EntriesCount(order: seq<string>, entries: map<string, string>)
    requires Tracks(order, entries)
    ensures |entries| == |order|
    decreases |order|
  {
    if order == [] {
      assert entries.Keys == {};
    } else {
      var k := order[0];
      WithoutFacts(order, k);
      WithoutHead(order);
      EntriesCount(order[1..], entries - {k});
    }
  }

  // ---------------------------------------------------------------------------
  // extractTextWithTika
  // ---------------------------------------------------------------------------

  const TikaHost := "://tika:"

  /** The URLs tried, in order: `<url>/tika`, and a `localhost` variant of it
      when the configured URL names the host `tika`. */
  function TikaUrls(tikaUrl: string): (r: seq<string>)
    ensures 1 <= |r| <= 2 && r[0] == tikaUrl + "/tika"
    ensures |r| == 2 <==> JsStrings.Contains(tikaUrl, TikaHost)
    ensures |r| == 2 ==> r[1] == JsStrings.ReplaceFirst(tikaUrl, TikaHost, "://localhost:") + "/tika"
  {
    [tikaUrl + "/tika"] +
      (if JsStrings.Contains(tikaUrl, TikaHost) then [JsStrings.ReplaceFirst(tikaUrl, TikaHost, "://localhost:") + "/tika"] else [])
  }

  /** The trimmed text of the first URL that answers; `fetch` yields `None`
      for an error or a response that is not OK. */
  function FirstAnswer(urls: seq<string>, fetch: string -> Option<string>): (r: Option<string>)
    ensures r.None? <==> forall i :: 0 <= i < |urls| ==> fetch(urls[i]).None?
  {
    if urls == [] then None
    else if fetch(urls[0]).Some? then Some(JsStrings.Trim(fetch(urls[0]).value))
    else
      var r := FirstAnswer(urls[1..], fetch);
      assert forall i :: 0 < i < |urls| ==> urls[i] == urls[1..][i - 1];
      r
  }

  /** The first answering URL decides: when every earlier URL failed and URL
      `i` answers, its text, trimmed, is the answer. */
  lemma {:induction false} FirstAnswerAt(urls: seq<string>, fetch: string -> Option<string>, i: nat)
    requires i < |urls| && fetch(urls[i]).Some?
    requires forall j :: 0 <= j < i ==> fetch(urls[j]).None?
    ensures FirstAnswer(urls, fetch) == Some(JsStrings.Trim(fetch(urls[i]).value))
  {
    if i > 0 {
      assert fetch(urls[0]).None?;
      assert urls[1..][i - 1] == urls[i];
      assert forall j :: 0 <= j < i - 1 ==> urls[1..][j] == urls[j + 1];
      FirstAnswerAt(urls[1..], fetch, i - 1);
    }
  }

  /** `extractTextWithTika`: with no `TIKA_URL` it fails and the cache is
      untouched; a cached text is returned without asking the server, counted
      as a hit and made the most recent entry; otherwise, after a second lookup
      (which misses again), the URLs are tried in order and the first answer,
      or `""` when none answers, is cached as the most recent entry, evicting
      the least recent one from a full cache, and returned; both lookups
      count as misses. */
  method ExtractTextWithTika(cache: TikaCache, tikaUrl: string, buffer: Bytes,
                             sha256: Bytes -> string, fetch: string -> Option<string>)
    returns (r: Result<string>)
    requires cache.Valid()
    modifies cache
    ensures cache.Valid()
    ensures tikaUrl == "" ==>
      r == Err("TIKA_URL environment variable not set") &&
      cache.entries == old(cache.entries) && cache.order == old(cache.order) &&
      cache.hits == old(cache.hits) && cache.misses == old(cache.misses)
    ensures tikaUrl != "" && sha256(buffer) in old(cache.entries) ==>
      var key := sha256(buffer);
      r == Ok(old(cache.entries)[key]) &&
      cache.entries == old(cache.entries) && cache.order == Without(old(cache.order), key) + [key] &&
      cache.hits == old(cache.hits) + 1 && cache.misses == old(cache.misses)
    ensures tikaUrl != "" && sha256(buffer) !in old(cache.entries) ==>
      var key := sha256(buffer);
      r == Ok(FirstAnswer(TikaUrls(tikaUrl), fetch).GetOr("")) &&
      cache.hits == old(cache.hits) && cache.misses == old(cache.misses) + 2 &&
      (|old(cache.order)| < MaxSize ==>
        cache.order == old(cache.order) + [key] && cache.entries == old(cache.entries)[key := r.value]) &&
      (|old(cache.order)| >= MaxSize ==>
        cache.order == old(cache.order)[1..] + [key] &&
        cache.entries == (old(cache.entries) - {old(cache.order)[0]})[key := r.value])
  {
    if tikaUrl == "" {
      return Err("TIKA_URL environment variable not set");
    }
    var hash := sha256(buffer);
    var cachedResult := cache.Get(hash);
    if cachedResult.Some? {
      return Ok(cachedResult.value);
    }
    // The lookup repeated after waiting for a free slot: with no other request
    // running in between it misses as well.
    var cachedAfterWait := cache.Get(hash);
    assert cachedAfterWait.None?;
    var urlsToTry := TikaUrls(tikaUrl);
    for i := 0 to |urlsToTry|
      invariant cache.Valid() && cache.misses == old(cache.misses) + 2 && cache.hits == old(cache.hits)
      invariant cache.entries == old(cache.entries) && cache.order == old(cache.order)
      invariant forall j :: 0 <= j < i ==> fetch(urlsToTry[j]).None?
    {
      var response := fetch(urlsToTry[i]);
      if response.None? {
        continue;
      }
      var result := JsStrings.Trim(response.value);
      FirstAnswerAt(urlsToTry, fetch, i);
      cache.Set(hash, result);
      return Ok(result);
    }
    cache.Set(hash, "");
    return Ok("");
  }
}
