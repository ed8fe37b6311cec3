/** The rules of `api_server.py` that do not depend on Flask: which access
    log lines `get_api_logs` returns, which response-cache entries
    `get_cache` keeps and `set_cache` writes, and the request-size and
    API-key gates. Time is an integer count of microseconds, the
    resolution of `datetime`. */
module ApiServer {
  import opened Wrappers
  import opened Text
  import opened Json

  // ---------------------------------------------------------------------
  // get_api_logs

  const MaxLogLimit: int := 1000

  /** `if limit > 1000: limit = 1000` */
  function EffectiveLimit(limit: int): (r: int)
    ensures r <= MaxLogLimit
    ensures r == limit || (limit > MaxLogLimit && r == MaxLogLimit)
  {
    if limit > MaxLogLimit then MaxLogLimit else limit
  }

  /** Where Python's `lines[-limit:]` starts in a list of `n` lines: a
      negative start counts from the end and stops at 0, and `-0` is 0. */
  function TailStart(n: nat, limit: int): (r: nat)
    ensures r <= n
  {
    var s := -limit;
    if s < 0 then (if s + n < 0 then 0 else s + n)
    else if s > n then n
    else s
  }

  /** The logs the loop collects from line `i` on: blank lines are skipped,
      the others parsed; the first line `json.loads` rejects raises, which
      ends the loop with what was collected so far. */
  function ParsedFrom(lines: seq<string>, parse: string -> Option<Json>, i: nat): (r: seq<Json>)
    requires i <= |lines|
    decreases |lines| - i
    ensures |r| <= NonBlankFrom(lines, i)
  {
    if i == |lines| then []
    else if Strip(lines[i]) == [] then ParsedFrom(lines, parse, i + 1)
    else match parse(lines[i])
      case None => []
      case Some(v) => [v] + ParsedFrom(lines, parse, i + 1)
  }

  /** `get_api_logs(limit)` over the lines of the access log (`None` when
      the file does not exist). */
  method GetApiLogs(limit: int, file: Option<seq<string>>, parse: string -> Option<Json>)
    returns (logs: seq<Json>)
    ensures file.None? ==> logs == []
    ensures file.Some? ==>
              logs == ParsedFrom(file.value, parse, TailStart(|file.value|, EffectiveLimit(limit)))
  {
    logs := [];
    if file.None? {
      return;
    }
    var lines := file.value;
    var lim := if limit > MaxLogLimit then MaxLogLimit else limit;
    var start := TailStart(|lines|, lim);
    var j := start;
    while j < |lines|
      invariant start <= j <= |lines|
      invariant logs + ParsedFrom(lines, parse, j) == ParsedFrom(lines, parse, start)
    {
      if Strip(lines[j]) != [] {
        var v := parse(lines[j]);
        if v.None? {
          assert ParsedFrom(lines, parse, j) == [];
          assert logs + [] == logs;
          return;
        }
        assert ParsedFrom(lines, parse, j) == [v.value] + ParsedFrom(lines, parse, j + 1);
        assert logs + ParsedFrom(lines, parse, j) == (logs + [v.value]) + ParsedFrom(lines, parse, j + 1);
        logs := logs + [v.value];
      }
      j := j + 1;
    }
    assert logs + [] == logs;
  }

  /** At most one log per line from `i` on. */
  lemma {:induction false} NonBlankBound(lines: seq<string>, i: nat)
    requires i <= |lines|
    decreases |lines| - i
    ensures NonBlankFrom(lines, i) <= |lines| - i
  {
    if i < |lines| {
      NonBlankBound(lines, i + 1);
    }
  }

  /** For a positive limit at most `min(limit, 1000)` logs come back. */
  lemma LogsBounded(limit: int, lines: seq<string>, parse: string -> Option<Json>)
    requires limit >= 1
    ensures |ParsedFrom(lines, parse, TailStart(|lines|, EffectiveLimit(limit)))| <= EffectiveLimit(limit)
  {
    var start := TailStart(|lines|, EffectiveLimit(limit));
    NonBlankBound(lines, start);
  }

  /** `lines[-0:]` is the whole list, so a limit of 0 reads every line; a
      negative limit drops that many lines from the front instead. */
  lemma NonPositiveLimits(n: nat, k: int)
    ensures TailStart(n, 0) == 0
    ensures k > 0 ==> TailStart(n, -k) == if k <= n then k else n
  {
  }

  /** A log line `log_api_call` wrote reads back as its entry. */
  lemma DumpedLogStep(events: seq<Json>, parse: string -> Option<Json>, i: nat)
    requires IsParser(parse)
    requires forall k :: 0 <= k < |events| ==> WellFormed(events[k])
    requires i < |events|
    ensures ParsedFrom(DumpLines(events), parse, i) == [events[i]] + ParsedFrom(DumpLines(events), parse, i + 1)
  {
    var lines := DumpLines(events);
    StripDumps(events[i]);
    DumpsEdges(events[i]);
    assert lines[i] == Dumps(events[i]);
    assert parse(lines[i]) == Some(events[i]);
  }

  /** Reading back a log of entries written one per line gives those
      entries, from the start of the tail on, in file order. */
  lemma {:induction false} DumpedLogsReadBack(events: seq<Json>, parse: string -> Option<Json>, i: nat)
    requires IsParser(parse)
    requires forall k :: 0 <= k < |events| ==> WellFormed(events[k])
    requires i <= |events|
    decreases |events| - i
    ensures ParsedFrom(DumpLines(events), parse, i) == events[i..]
  {
    if i < |events| {
      DumpedLogStep(events, parse, i);
      DumpedLogsReadBack(events, parse, i + 1);
      assert events[i..] == [events[i]] + events[i + 1..];
    }
  }

  /** So `get_api_logs(limit)` on such a log returns its last
      `min(limit, 1000)` entries, for a positive limit. */
  lemma ApiLogsAreTheTail(limit: int, events: seq<Json>, parse: string -> Option<Json>)
    requires IsParser(parse) && limit >= 1
    requires forall k :: 0 <= k < |events| ==> WellFormed(events[k])
    ensures var start := if |events| <= EffectiveLimit(limit) then 0 else |events| - EffectiveLimit(limit);
            ParsedFrom(DumpLines(events), parse, TailStart(|events|, EffectiveLimit(limit))) == events[start..]
  {
    DumpedLogsReadBack(events, parse, TailStart(|events|, EffectiveLimit(limit)));
  }

  // ---------------------------------------------------------------------
  // get_cache / set_cache

  const CacheTtl: int := 300
  const MicrosPerSecond: int := 1_000_000
  const MicrosPerDay: int := 86_400_000_000

  /** A cache entry's `timestamp` as `datetime.fromisoformat` reads it:
      a point in time, or text it raises on. */
  datatype Stamp = At(micros: int) | Unreadable

  /** One value of the cache file: its data, and its timestamp when it has
      that key. */
  datatype CacheEntry = CacheEntry(data: Json, timestamp: Option<Stamp>)

  /** `timedelta.seconds` of a difference: the seconds part left after
      whole days, always in `0..86399`, also for a negative difference. */
  function TimedeltaSeconds(d: int): (r: int)
    ensures 0 <= r < 86400
    ensures 0 <= d < MicrosPerDay ==> r == d / MicrosPerSecond
  {
    (d % MicrosPerDay) / MicrosPerSecond
  }

  /** The eviction test as written: `(now - ts).seconds > 300`. */
  predicate StaleAsWritten(e: CacheEntry, now: int) {
    e.timestamp.Some? && e.timestamp.value.At?
    && TimedeltaSeconds(now - e.timestamp.value.micros) > CacheTtl
  }

  /** The eviction test as intended: the entry's age in whole seconds,
      days included (`d.days * 86400 + d.seconds`), exceeds 300. */
  predicate Stale(e: CacheEntry, now: int) {
    e.timestamp.Some? && e.timestamp.value.At?
    && (now - e.timestamp.value.micros) / MicrosPerSecond > CacheTtl
  }

  predicate HasUnreadable(cache: map<string, CacheEntry>) {
    exists k :: k in cache && cache[k].timestamp == Some(Unreadable)
  }

  /** What `get_cache` returns, as written. */
  function CacheAsWritten(enabled: bool, file: Option<map<string, CacheEntry>>, now: int): (r: map<string, CacheEntry>)
    ensures forall k :: k in r ==> file.Some? && k in file.value && r[k] == file.value[k]
    ensures enabled && file.Some? && !HasUnreadable(file.value) ==>
              forall k :: k in file.value ==> (k in r <==> !StaleAsWritten(file.value[k], now))
    ensures !enabled || file.None? || HasUnreadable(file.value) ==> r == map[]
  {
    if !enabled || file.None? || HasUnreadable(file.value) then map[]
    else map k | k in file.value && !StaleAsWritten(file.value[k], now) :: file.value[k]
  }

  /** `get_cache`: the loop over the keys deletes each stale entry; an
      unreadable timestamp raises, and the handler returns `{}`. */
  method GetCache(enabled: bool, file: Option<map<string, CacheEntry>>, now: int)
    returns (r: map<string, CacheEntry>)
    ensures r == CacheAsWritten(enabled, file, now)
  {
    if !enabled || file.None? {
      return map[];
    }
    var original := file.value;
    var cache := original;
    var keys := original.Keys;
    while keys != {}
      decreases |keys|
      invariant keys <= original.Keys
      invariant forall k :: k in original && k !in keys ==> original[k].timestamp != Some(Unreadable)
      invariant cache.Keys <= original.Keys
      invariant forall k :: k in cache ==> cache[k] == original[k]
      invariant forall k :: k in original ==>
                  (k in cache <==> k in keys || !StaleAsWritten(original[k], now))
    {
      var key :| key in keys;
      keys := keys - {key};
      if original[key].timestamp.Some? {
        if original[key].timestamp.value.Unreadable? {
          return map[];
        }
        if TimedeltaSeconds(now - original[key].timestamp.value.micros) > CacheTtl {
          cache := map k | k in cache && k != key :: cache[k];
        }
      }
    }
    r := cache;
  }

  /** As written, an entry is kept although a day and a minute old, and one
      stamped a second in the future is evicted. */
  lemma SecondsIgnoresDays()
    ensures var e := CacheEntry(JNull, Some(At(0)));
            var file := Some(map["k" := e]);
            && "k" in CacheAsWritten(true, file, MicrosPerDay + 60 * MicrosPerSecond)
            && "k" !in CacheAsWritten(true, file, -MicrosPerSecond)
            && Stale(e, MicrosPerDay + 60 * MicrosPerSecond)
            && !Stale(e, -MicrosPerSecond)
  {
    var e := CacheEntry(JNull, Some(At(0)));
    var file := map["k" := e];
    assert !HasUnreadable(file);
    assert TimedeltaSeconds(MicrosPerDay + 60 * MicrosPerSecond) == 60;
    assert TimedeltaSeconds(-MicrosPerSecond) == 86399;
  }

  /** The two tests agree on entries between 0 and 24 hours old. */
  lemma StaleTestsAgreeWithinADay(e: CacheEntry, now: int)
    requires e.timestamp.Some? && e.timestamp.value.At?
    requires 0 <= now - e.timestamp.value.micros < MicrosPerDay
    ensures StaleAsWritten(e, now) <==> Stale(e, now)
  {
    var d := now - e.timestamp.value.micros;
    assert TimedeltaSeconds(d) == d / MicrosPerSecond;
  }

  /** `get_cache` with the test as intended; the rest of the model reads the
      cache through this. */
  function FreshCache(enabled: bool, file: Option<map<string, CacheEntry>>, now: int): (r: map<string, CacheEntry>)
    ensures forall k :: k in r ==> file.Some? && k in file.value && r[k] == file.value[k]
    ensures enabled && file.Some? && !HasUnreadable(file.value) ==>
              forall k :: k in file.value ==> (k in r <==> !Stale(file.value[k], now))
    ensures !enabled || file.None? || HasUnreadable(file.value) ==> r == map[]
  {
    if !enabled || file.None? || HasUnreadable(file.value) then map[]
    else map k | k in file.value && !Stale(file.value[k], now) :: file.value[k]
  }

  /** An entry with no timestamp, or one at most 300 seconds old, is kept;
      an older one is dropped. */
  lemma FreshCacheKeeps(file: map<string, CacheEntry>, now: int, k: string)
    requires !HasUnreadable(file) && k in file
    ensures file[k].timestamp.None? ==> k in FreshCache(true, Some(file), now)
    ensures file[k].timestamp.Some? && file[k].timestamp.value.At? ==>
              (k in FreshCache(true, Some(file), now)
               <==> now - file[k].timestamp.value.micros < (CacheTtl + 1) * MicrosPerSecond)
  {
  }

  /** `set_cache(key, value)`: the file rewritten with what `get_cache`
      returns, as written, and `key` set to the value stamped `now`; `None`
      when caching is off and nothing is written. */
  function SetCache(enabled: bool, file: Option<map<string, CacheEntry>>, key: string, value: Json, now: int)
    : (r: Option<map<string, CacheEntry>>)
    ensures r.Some? <==> enabled
    ensures r.Some? ==> key in r.value && r.value[key] == CacheEntry(value, Some(At(now)))
    ensures r.Some? ==> forall k :: k in r.value && k != key ==>
                          k in CacheAsWritten(enabled, file, now) && r.value[k] == file.value[k]
    ensures r.Some? ==> forall k :: k in CacheAsWritten(enabled, file, now) ==> k in r.value
  {
    if !enabled then None
    else Some(CacheAsWritten(enabled, file, now)[key := CacheEntry(value, Some(At(now)))])
  }

  /** `set_cache` over the eviction test as intended. */
  function SetCacheIntended(enabled: bool, file: Option<map<string, CacheEntry>>, key: string, value: Json, now: int)
    : (r: Option<map<string, CacheEntry>>)
    ensures r.Some? <==> enabled
    ensures r.Some? ==> key in r.value && r.value[key] == CacheEntry(value, Some(At(now)))
    ensures r.Some? ==> forall k :: k in r.value && k != key ==>
                          k in FreshCache(enabled, file, now) && r.value[k] == file.value[k]
    ensures r.Some? ==> forall k :: k in FreshCache(enabled, file, now) ==> k in r.value
  {
    if !enabled then None
    else Some(FreshCache(enabled, file, now)[key := CacheEntry(value, Some(At(now)))])
  }

  /** As written, `set_cache` carries a day-old entry over into the file it
      writes, where the intended test drops it. */
  lemma SetCacheKeepsDayOldEntry()
    ensures var file := Some(map["k" := CacheEntry(JNull, Some(At(0)))]);
            var now := MicrosPerDay + 60 * MicrosPerSecond;
            && "k" in SetCache(true, file, "other", JNull, now).value
            && "k" !in SetCacheIntended(true, file, "other", JNull, now).value
  {
    var e := CacheEntry(JNull, Some(At(0)));
    var now := MicrosPerDay + 60 * MicrosPerSecond;
    SecondsIgnoresDays();
    assert "k" in CacheAsWritten(true, Some(map["k" := e]), now);
    assert "k" !in FreshCache(true, Some(map["k" := e]), now) by {
      assert !HasUnreadable(map["k" := e]);
      assert Stale(e, now);
    }
  }

  /** What `set_cache` wrote, `get_cache` as written reads back for 300
      seconds. */
  lemma SetThenGet(file: Option<map<string, CacheEntry>>, key: string, value: Json, now: int, later: int)
    requires now <= later <= now + CacheTtl * MicrosPerSecond
    ensures var written := SetCache(true, file, key, value, now).value;
            key in CacheAsWritten(true, Some(written), later)
            && CacheAsWritten(true, Some(written), later)[key].data == value
  {
    var written := SetCache(true, file, key, value, now).value;
    assert !HasUnreadable(written) by {
      forall k | k in written
        ensures written[k].timestamp != Some(Unreadable)
      {
        if k != key {
          assert k in CacheAsWritten(true, file, now);
          assert !HasUnreadable(file.value);
        }
      }
    }
    assert TimedeltaSeconds(later - now) == (later - now) / MicrosPerSecond;
    assert !StaleAsWritten(written[key], later);
  }

  /** The same holds with the eviction test as intended. */
  lemma SetThenGetIntended(file: Option<map<string, CacheEntry>>, key: string, value: Json, now: int, later: int)
    requires now <= later <= now + CacheTtl * MicrosPerSecond
    ensures var written := SetCacheIntended(true, file, key, value, now).value;
            key in FreshCache(true, Some(written), later)
            && FreshCache(true, Some(written), later)[key].data == value
  {
    var written := SetCacheIntended(true, file, key, value, now).value;
    assert !HasUnreadable(written) by {
      forall k | k in written
        ensures written[k].timestamp != Some(Unreadable)
      {
        if k != key {
          assert k in FreshCache(true, file, now);
          assert !HasUnreadable(file.value);
        }
      }
    }
  }

  // ---------------------------------------------------------------------
  // validate_request_size, require_api_key

  const MaxRequestSize: int := 10485760

  /** `validate_request_size`: refused only when a Content-Length is given,
      is non-zero, and exceeds 10 MiB. */
  function ValidateRequestSize(contentLength: Option<nat>): (ok: bool)
    ensures ok <==> contentLength.None? || contentLength.value <= MaxRequestSize
  {
    !(contentLength.Some? && contentLength.value != 0 && contentLength.value > MaxRequestSize)
  }

  const ApiKey: string := "12345"

  /** `request.args.get("key") or request.headers.get("X-API-Key")`: an
      absent or empty query key gives way to the header. */
  function PresentedKey(queryKey: Option<string>, headerKey: Option<string>): Option<string> {
    if queryKey.Some? && queryKey.value != "" then queryKey else headerKey
  }

  /** The check of `require_api_key`'s wrapper. */
  function ApiKeyAdmits(queryKey: Option<string>, headerKey: Option<string>): (ok: bool)
    ensures ok <==> queryKey == Some(ApiKey)
                    || ((queryKey.None? || queryKey == Some("")) && headerKey == Some(ApiKey))
  {
    var k := PresentedKey(queryKey, headerKey);
    !(k.None? || k.value == "" || k.value != ApiKey)
  }

  /** A wrong query key is refused even with the right header. */
  lemma QueryKeyShadowsHeader()
    ensures !ApiKeyAdmits(Some("wrong"), Some(ApiKey))
    ensures ApiKeyAdmits(Some(""), Some(ApiKey))
  {
  }
}
