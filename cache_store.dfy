/**
 * The browser-side cache layer (app.js:224-381): the extracted entries are
 * kept in `localStorage` under a versioned key for 24 hours, and a second
 * load within 15 seconds (tracked in `sessionStorage`) bypasses the cache.
 *
 * Both storages are string maps. `JSON.stringify`, `JSON.parse` (None where
 * it throws), `Date.prototype.toJSON` and the `Date` string parse are the
 * fields of a `Codec`; the clock reading and the outcome of each storage
 * write are parameters.
 */
module CacheStore {
  import opened Common
  import opened Text
  import opened Calendar

  // ---------------------------------------------------------------------
  // Constants (app.js:236-239, 361)
  // ---------------------------------------------------------------------

  const CachePrefix: string := "airbusdriver_cache_"
  /** `CACHE_KEY`, version "v2". */
  const CacheKey: string := "airbusdriver_cache_v2"
  /** 24 hours. */
  const ExpirationMs: int := 86_400_000
  /** 15 seconds. */
  const DoubleRefreshThresholdMs: int := 15_000
  const LastFetchKey: string := "lastFetchTime"

  // ---------------------------------------------------------------------
  // JSON values and the record the cache stores
  // ---------------------------------------------------------------------

  /** A parsed JSON value; numbers are integers here. */
  datatype Json =
    | JNull
    | JBool(b: bool)
    | JNumber(n: int)
    | JString(s: string)
    | JArray(items: seq<Json>)
    | JObject(fields: map<string, Json>)

  /** The serialisation primitives the cache layer calls. */
  datatype Codec = Codec(
    stringify: Json -> string,
    parse: string -> Option<Json>,
    dateToJson: int -> string,
    dateFromText: string -> Option<int>)

  /**
   * The primitives behave as the platform's do on what the application
   * writes: a stringified value is non-empty text that parses back to
   * itself, and a date's JSON text is non-empty and parses back to the
   * same instant.
   */
  ghost predicate Faithful(c: Codec) {
    && (forall j :: c.stringify(j) != "" && c.parse(c.stringify(j)) == Some(j))
    && (forall t :: c.dateToJson(t) != "" && c.dateFromText(c.dateToJson(t)) == Some(t))
  }

  /** A property read: None where the property is `undefined`. */
  function Member(j: Json, key: string): Option<Json> {
    match j
    case JObject(fields) => if key in fields then Some(fields[key]) else None
    case _ => None
  }

  /** JavaScript truthiness of a present value. */
  predicate Truthy(j: Json) {
    match j
    case JNull => false
    case JBool(b) => b
    case JNumber(n) => n != 0
    case JString(s) => s != ""
    case _ => true
  }

  /** `x && typeof x === 'object'`: a non-null object or an array. */
  predicate IsObject(j: Json) {
    j.JObject? || j.JArray?
  }

  predicate IsStringMember(j: Json, key: string) {
    Member(j, key).Some? && Member(j, key).value.JString?
  }

  /** The checks `validateCacheData` makes of one element of `entries`. */
  predicate ValidEntry(j: Json) {
    IsObject(j) && IsStringMember(j, "content") && IsStringMember(j, "dateText")
  }

  /**
   * `validateCacheData`: a truthy numeric timestamp, a non-empty string
   * source URL, and an array of entries, each an object with string
   * `content` and `dateText`.
   */
  predicate ValidateCacheData(data: Json) {
    && IsObject(data)
    && Member(data, "timestamp").Some? && Member(data, "timestamp").value.JNumber?
    && Member(data, "timestamp").value.n != 0
    && IsStringMember(data, "sourceUrl") && Member(data, "sourceUrl").value.s != ""
    && Member(data, "entries").Some? && Member(data, "entries").value.JArray?
    && (forall i :: 0 <= i < |Member(data, "entries").value.items| ==> ValidEntry(Member(data, "entries").value.items[i]))
  }

  /** `JSON.stringify` sees an entry as this object; an unresolved date is `null`. */
  function EntryJson(e: Entry, c: Codec): Json {
    JObject(map[
      "dateText" := JString(e.dateText),
      "date" := (match e.date case Some(t) => JString(c.dateToJson(t)) case None => JNull),
      "content" := JString(e.content)])
  }

  /** The object `saveToCache` stringifies (app.js:251-255). */
  function RecordJson(entries: seq<Entry>, timestamp: int, sourceUrl: string, c: Codec): Json {
    JObject(map[
      "entries" := JArray(seq(|entries|, i requires 0 <= i < |entries| => EntryJson(entries[i], c))),
      "timestamp" := JNumber(timestamp),
      "sourceUrl" := JString(sourceUrl)])
  }

  /** The text `saveToCache` writes under `CacheKey`. */
  function StoredText(entries: seq<Entry>, timestamp: int, sourceUrl: string, c: Codec): string {
    c.stringify(RecordJson(entries, timestamp, sourceUrl, c))
  }

  /**
   * `entry.date ? new Date(entry.date) : null`. A string goes through the
   * date parse, a number through TimeClip, `true` is instant 1; an object
   * or array is taken as an invalid date.
   */
  function RehydratedDate(v: Option<Json>, c: Codec): Option<int> {
    match v
    case None => None
    case Some(j) =>
      if !Truthy(j) then None
      else match j
        case JString(s) => c.dateFromText(s)
        case JNumber(n) => if -MaxTimeValue <= n <= MaxTimeValue then Some(n) else None
        case JBool(_) => Some(1)
        case _ => None
  }

  /**
   * `entry.date ? … : null`: an absent or falsy stored date (null, false,
   * 0, "") gives no date, so a date is rehydrated only from a truthy value;
   * a non-empty string goes through the date parse.
   */
  lemma RehydratedOnlyFromTruthy(v: Option<Json>, c: Codec)
    ensures RehydratedDate(v, c).Some? ==> v.Some? && Truthy(v.value)
    ensures v.Some? && v.value.JString? && v.value.s != "" ==> RehydratedDate(v, c) == c.dateFromText(v.value.s)
  {
  }

  /** One rehydrated entry (app.js:322-325). */
  function RehydratedEntry(j: Json, c: Codec): Entry
    requires ValidEntry(j)
  {
    Entry(Member(j, "dateText").value.s, RehydratedDate(Member(j, "date"), c), Member(j, "content").value.s)
  }

  /** What `loadFromCache` returns; `stale` is the tag added to an expired record. */
  datatype CacheData = CacheData(entries: seq<Entry>, timestamp: int, sourceUrl: string, stale: bool)

  /** How a lookup of the stored text ends. */
  datatype LoadOutcome =
    | Missing           // no record, or an empty string
    | Corrupt           // `JSON.parse` threw, or validation failed: the record is cleared
    | Expired           // older than 24 hours and stale data not allowed
    | Hit(data: CacheData)

  /** The part of `loadFromCache` after the clean-up (app.js:307-340). */
  function Lookup(stored: Option<string>, allowStale: bool, now: int, c: Codec): LoadOutcome {
    match stored
    case None => Missing
    case Some(text) =>
      if text == "" then Missing
      else match c.parse(text)
        case None => Corrupt
        case Some(data) =>
          if !ValidateCacheData(data) then Corrupt
          else
            var items := Member(data, "entries").value.items;
            var entries := seq(|items|, i requires 0 <= i < |items| => RehydratedEntry(items[i], c));
            var timestamp := Member(data, "timestamp").value.n;
            var sourceUrl := Member(data, "sourceUrl").value.s;
            if now - timestamp > ExpirationMs then
              if allowStale then Hit(CacheData(entries, timestamp, sourceUrl, true)) else Expired
            else Hit(CacheData(entries, timestamp, sourceUrl, false))
  }

  /** A key of an earlier cache version. */
  predicate IsOldVersionKey(key: string) {
    OccursAt(key, CachePrefix, 0) && key != CacheKey
  }

  /** `localStorage` after the clean-up of earlier cache versions (app.js:298-303). */
  function Purged(m: map<string, string>): (r: map<string, string>)
    ensures forall k :: k in r <==> k in m && !IsOldVersionKey(k)
    ensures forall k :: k in r ==> r[k] == m[k]
  {
    map k | k in m && !IsOldVersionKey(k) :: m[k]
  }

  /**
   * The clean-up keeps the current record and every key outside the
   * cache's namespace, and removes every other cache version.
   */
  lemma PurgeKeepsCurrent(m: map<string, string>, key: string)
    ensures Get(Purged(m), CacheKey) == Get(m, CacheKey)
    ensures !OccursAt(key, CachePrefix, 0) ==> Get(Purged(m), key) == Get(m, key)
    ensures IsOldVersionKey(key) ==> Get(Purged(m), key).None?
  {
  }

  function Get(m: map<string, string>, key: string): Option<string> {
    if key in m then Some(m[key]) else None
  }

  // ---------------------------------------------------------------------
  // Properties of the record format
  // ---------------------------------------------------------------------

  /** The record `saveToCache` writes passes validation exactly when its timestamp is non-zero and its source URL non-empty. */
  lemma RecordValidIff(entries: seq<Entry>, timestamp: int, sourceUrl: string, c: Codec)
    ensures ValidateCacheData(RecordJson(entries, timestamp, sourceUrl, c)) <==> timestamp != 0 && sourceUrl != ""
  {
    var data := RecordJson(entries, timestamp, sourceUrl, c);
    var items := Member(data, "entries").value.items;
    forall i | 0 <= i < |items|
      ensures ValidEntry(items[i])
    {
      assert items[i] == EntryJson(entries[i], c);
    }
  }

  /** Each stored entry comes back unchanged, its date included. */
  lemma EntryRoundTrip(e: Entry, c: Codec)
    requires Faithful(c)
    ensures ValidEntry(EntryJson(e, c))
    ensures RehydratedEntry(EntryJson(e, c), c) == e
  {
    match e.date
    case None =>
    case Some(t) =>
      assert c.dateToJson(t) != "" && c.dateFromText(c.dateToJson(t)) == Some(t);
  }

  /**
   * Save, then load: a saved record with a non-zero timestamp and a source
   * URL is read back with the same entries, timestamp and URL, fresh up to
   * and including an age of exactly 24 hours, and after that stale or
   * expired as `allowStale` says.
   */
  lemma SaveThenLoad(entries: seq<Entry>, timestamp: int, sourceUrl: string, c: Codec, allowStale: bool, now: int)
    requires Faithful(c)
    requires timestamp != 0 && sourceUrl != ""
    ensures now - timestamp <= ExpirationMs ==>
      Lookup(Some(StoredText(entries, timestamp, sourceUrl, c)), allowStale, now, c)
        == Hit(CacheData(entries, timestamp, sourceUrl, false))
    ensures now - timestamp > ExpirationMs && allowStale ==>
      Lookup(Some(StoredText(entries, timestamp, sourceUrl, c)), allowStale, now, c)
        == Hit(CacheData(entries, timestamp, sourceUrl, true))
    ensures now - timestamp > ExpirationMs && !allowStale ==>
      Lookup(Some(StoredText(entries, timestamp, sourceUrl, c)), allowStale, now, c) == Expired
  {
    var data := RecordJson(entries, timestamp, sourceUrl, c);
    var text := StoredText(entries, timestamp, sourceUrl, c);
    assert c.stringify(data) != "" && c.parse(c.stringify(data)) == Some(data);
    RecordValidIff(entries, timestamp, sourceUrl, c);
    var items := Member(data, "entries").value.items;
    var back := seq(|items|, i requires 0 <= i < |items| => RehydratedEntry(items[i], c));
    forall i | 0 <= i < |entries|
      ensures back[i] == entries[i]
    {
      assert items[i] == EntryJson(entries[i], c);
      EntryRoundTrip(entries[i], c);
    }
    assert back == entries;
  }

  /** A record that fails validation, or text that does not parse, is corrupt whatever its age. */
  lemma InvalidRecordIsCorrupt(text: string, allowStale: bool, now: int, c: Codec)
    requires text != ""
    requires c.parse(text).None? || !ValidateCacheData(c.parse(text).value)
    ensures Lookup(Some(text), allowStale, now, c) == Corrupt
  {
  }

  // ---------------------------------------------------------------------
  // Integer text for the double-refresh detector
  // ---------------------------------------------------------------------

  function DigitChar(d: nat): char
    requires d < 10
  {
    ('0' as int + d) as char
  }

  /** `n.toString()` for a non-negative integer. */
  function NatToString(n: nat): (r: string)
    ensures |r| > 0
    ensures forall i :: 0 <= i < |r| ==> IsDigit(r[i])
  {
    if n < 10 then [DigitChar(n)] else NatToString(n / 10) + [DigitChar(n % 10)]
  }

  /** `n.toString()`. */
  function IntToString(n: int): (r: string)
    ensures |r| > 0
  {
    if n < 0 then "-" + NatToString(-n) else NatToString(n)
  }

  /** Number of leading ASCII digits of `s`. */
  function LeadingDigits(s: string): (n: nat)
    ensures n <= |s|
    ensures forall i :: 0 <= i < n ==> IsDigit(s[i])
    ensures n < |s| ==> !IsDigit(s[n])
  {
    if |s| > 0 && IsDigit(s[0]) then 1 + LeadingDigits(s[1..]) else 0
  }

  /**
   * `parseInt(s, 10)`: leading whitespace, an optional sign, then the
   * longest run of digits; None (NaN) when there is no digit.
   */
  function ParseInt(s: string): Option<int> {
    var t := s[LeadingSpaces(s)..];
    var negative := |t| > 0 && t[0] == '-';
    var u := if |t| > 0 && (t[0] == '-' || t[0] == '+') then t[1..] else t;
    var n := LeadingDigits(u);
    if n == 0 then None
    else
      var magnitude: int := DecimalValue(u[..n]);
      Some(if negative then -magnitude else magnitude)
  }

  lemma {:induction false} NatToStringValue(n: nat)
    ensures DecimalValue(NatToString(n)) == n
    decreases n
  {
    if n >= 10 {
      var s := NatToString(n);
      NatToStringValue(n / 10);
      assert s[..|s| - 1] == NatToString(n / 10);
    }
  }

  lemma {:induction false} AllDigitsLeading(s: string)
    requires forall i :: 0 <= i < |s| ==> IsDigit(s[i])
    ensures LeadingDigits(s) == |s|
    decreases |s|
  {
    if |s| > 0 {
      AllDigitsLeading(s[1..]);
    }
  }

  /** `parseInt(n.toString(), 10) == n`. */
  lemma ParseIntToString(n: int)
    ensures ParseInt(IntToString(n)) == Some(n)
  {
    var s := IntToString(n);
    var digits := NatToString(if n < 0 then -n else n);
    NatToStringValue(if n < 0 then -n else n);
    AllDigitsLeading(digits);
    assert !IsSpace(s[0]);
    assert s[0..] == s;
    if n < 0 {
      assert s[1..] == digits;
    } else {
      assert s == digits;
      assert s[0] != '-' && s[0] != '+';
    }
    assert digits[..|digits|] == digits;
  }

  /** The test `checkDoubleRefresh` makes of the stored fetch time (app.js:362-372). */
  predicate IsDoubleRefresh(session: map<string, string>, now: int) {
    && LastFetchKey in session
    && session[LastFetchKey] != ""
    && ParseInt(session[LastFetchKey]).Some?
    && now - ParseInt(session[LastFetchKey]).value < DoubleRefreshThresholdMs
  }

  /**
   * After a load that was not a double refresh, the next load is one
   * exactly when it comes less than 15 seconds later.
   */
  lemma NextLoadWithinThreshold(session: map<string, string>, previous: int, now: int)
    ensures IsDoubleRefresh(session[LastFetchKey := IntToString(previous)], now)
        <==> now - previous < DoubleRefreshThresholdMs
  {
    ParseIntToString(previous);
  }

  /** Without a stored fetch time no load is a double refresh. */
  lemma FirstLoadIsNotDouble(session: map<string, string>, now: int)
    requires LastFetchKey !in session
    ensures !IsDoubleRefresh(session, now)
  {
  }

  // ---------------------------------------------------------------------
  // The storage state and the operations on it
  // ---------------------------------------------------------------------

  /** Outcome of one `localStorage.setItem`. */
  datatype WriteResult = Written | QuotaExceeded | WriteFailed

  /** The two storages and the module field `lastCachedTimestamp`. */
  class BrowserCache {
    var local: map<string, string>
    var session: map<string, string>
    var lastCachedTimestamp: Option<int>

    /** A page load: the storages persist, the module field starts as `null` (app.js:224). */
    constructor(local: map<string, string>, session: map<string, string>)
      ensures this.local == local && this.session == session && lastCachedTimestamp == None
    {
      this.local := local;
      this.session := session;
      lastCachedTimestamp := None;
    }

    /** `clearCache` (app.js:348-356). */
    method ClearCache()
      modifies this
      ensures local == old(local) - {CacheKey}
      ensures lastCachedTimestamp == None
      ensures session == old(session)
    {
      local := local - {CacheKey};
      lastCachedTimestamp := None;
    }

    /**
     * `saveToCache` (app.js:242-277). The timestamp is recorded first; on a
     * quota error the cache is cleared, which also forgets that timestamp,
     * and the write is tried once more.
     */
    method SaveToCache(entries: seq<Entry>, sourceUrl: string, now: int, c: Codec, first: WriteResult, retry: WriteResult)
      modifies this
      ensures lastCachedTimestamp == if first == QuotaExceeded then None else Some(now)
      ensures local ==
        if first == Written || (first == QuotaExceeded && retry == Written) then
          old(local)[CacheKey := StoredText(entries, now, sourceUrl, c)]
        else if first == QuotaExceeded then old(local) - {CacheKey}
        else old(local)
      ensures session == old(session)
    {
      lastCachedTimestamp := Some(now);
      var text := StoredText(entries, now, sourceUrl, c);
      if first == Written {
        local := local[CacheKey := text];
      } else if first == QuotaExceeded {
        ClearCache();
        if retry == Written {
          local := local[CacheKey := text];
        }
      }
    }

    /** The `Object.keys(localStorage).forEach` clean-up at the start of `loadFromCache`. */
    method PurgeOldVersions()
      modifies this
      ensures local == Purged(old(local))
      ensures session == old(session) && lastCachedTimestamp == old(lastCachedTimestamp)
    {
      var keys := local.Keys;
      ghost var original := local;
      while keys != {}
        invariant keys <= original.Keys
        invariant local == map k | k in original && (k in keys || !IsOldVersionKey(k)) :: original[k]
        invariant session == old(session) && lastCachedTimestamp == old(lastCachedTimestamp)
        decreases keys
      {
        var k :| k in keys;
        if IsOldVersionKey(k) {
          local := local - {k};
        }
        keys := keys - {k};
      }
    }

    /**
     * `loadFromCache(allowStale)` (app.js:295-346): the clean-up, then the
     * lookup; a corrupt record is cleared, and a record that is returned
     * sets `lastCachedTimestamp`.
     */
    method LoadFromCache(allowStale: bool, now: int, c: Codec) returns (r: Option<CacheData>)
      modifies this
      ensures var outcome := Lookup(Get(Purged(old(local)), CacheKey), allowStale, now, c);
        && r == (if outcome.Hit? then Some(outcome.data) else None)
        && local == (if outcome.Corrupt? then Purged(old(local)) - {CacheKey} else Purged(old(local)))
        && lastCachedTimestamp == (
             if outcome.Corrupt? then None
             else if outcome.Hit? then Some(outcome.data.timestamp)
             else old(lastCachedTimestamp))
      ensures session == old(session)
    {
      PurgeOldVersions();
      if CacheKey !in local || local[CacheKey] == "" {
        return None;
      }
      var parsed := c.parse(local[CacheKey]);
      if parsed.None? || !ValidateCacheData(parsed.value) {
        ClearCache();
        return None;
      }
      var data := parsed.value;
      var items := Member(data, "entries").value.items;
      var entries := seq(|items|, i requires 0 <= i < |items| => RehydratedEntry(items[i], c));
      var timestamp := Member(data, "timestamp").value.n;
      var sourceUrl := Member(data, "sourceUrl").value.s;
      var age := now - timestamp;
      if age > ExpirationMs {
        if allowStale {
          lastCachedTimestamp := Some(timestamp);
          return Some(CacheData(entries, timestamp, sourceUrl, true));
        }
        return None;
      }
      lastCachedTimestamp := Some(timestamp);
      r := Some(CacheData(entries, timestamp, sourceUrl, false));
    }

    /**
     * `checkDoubleRefresh` (app.js:359-381): true when the last fetch was
     * less than 15 seconds ago, leaving the stored time as it is;
     * otherwise the current time is stored. `write` is the outcome of that
     * `setItem`: a write that throws is caught and the answer is still
     * false, with nothing stored.
     */
    method CheckDoubleRefresh(now: int, write: WriteResult) returns (forced: bool)
      modifies this
      ensures forced == IsDoubleRefresh(old(session), now)
      ensures session ==
        if forced || write != Written then old(session) else old(session)[LastFetchKey := IntToString(now)]
      ensures local == old(local) && lastCachedTimestamp == old(lastCachedTimestamp)
    {
      if LastFetchKey in session && session[LastFetchKey] != "" {
        var lastFetch := ParseInt(session[LastFetchKey]);
        if lastFetch.Some? && now - lastFetch.value < DoubleRefreshThresholdMs {
          return true;
        }
      }
      if write == Written {
        session := session[LastFetchKey := IntToString(now)];
      }
      forced := false;
    }
  }
}
