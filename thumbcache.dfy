/**
 * The thumbnail cache: a dictionary from a details-page URL to the poster
 * URL found there and the time it was stored, consulted before a details
 * page is fetched. Entries older than a week are ignored. The clock is a
 * parameter, and the outcome of the network request is an input.
 */
module ThumbCache {
  import opened Wrappers
  import opened Markup

  /** Seven days, in milliseconds. */
  const ThumbTtlMs: int := 7 * 24 * 60 * 60 * 1000

  /** A stored item: `url` may be `null`, and an item written by hand may lack `ts`. */
  datatype Entry = Entry(url: Option<string>, ts: Option<int>)

  /** A URL that JavaScript treats as true: present and not empty. */
  predicate Usable(url: Option<string>) {
    url.Some? && url.value != ""
  }

  /** `item.ts || 0` */
  function Stamp(e: Entry): int {
    if e.ts.Some? then e.ts.value else 0
  }

  /** Whether the item has been kept longer than the time to live at `now`. */
  predicate Expired(e: Entry, now: int) {
    now - Stamp(e) > ThumbTtlMs
  }

  /**
   * `getCachedThumb`: nothing for a missing item, for an item without a
   * usable URL and for an expired one; the stored URL otherwise.
   */
  function GetCachedThumb(cache: map<string, Entry>, key: string, now: int): (r: Option<string>)
    ensures r.Some? <==> key in cache && Usable(cache[key].url) && !Expired(cache[key], now)
    ensures r.Some? ==> r == cache[key].url && r.value != ""
  {
    if key !in cache then None
    else
      var item := cache[key];
      if !Usable(item.url) then None
      else if Expired(item, now) then None
      else item.url
  }

  /** The item `setCachedThumb` writes: a false URL is stored as `null`. */
  function Stored(thumb: Option<string>, now: int): (e: Entry)
    ensures Usable(e.url) <==> Usable(thumb)
    ensures Usable(thumb) ==> e.url == thumb
    ensures !Usable(thumb) ==> e.url.None?
    ensures e.ts == Some(now)
  {
    Entry(if Usable(thumb) then thumb else None, Some(now))
  }

  /** What the details request produced: an error, or the page with the poster found in it, if any. */
  datatype FetchOutcome = Failed | Loaded(thumb: Option<string>)

  /** The cache as stored in the browser, updated by read-modify-write. */
  class ThumbStore {
    var cache: map<string, Entry>

    constructor (initial: map<string, Entry>)
      ensures cache == initial
    {
      cache := initial;
    }

    /** `setCachedThumb`: replaces the item under `key` and no other. */
    method SetCachedThumb(key: string, thumb: Option<string>, now: int)
      modifies this
      ensures cache == old(cache)[key := Stored(thumb, now)]
    {
      var c := cache;
      c := c[key := Stored(thumb, now)];
      cache := c;
    }

    /**
     * `fetchThumbFromDetails`: a fresh cached poster is returned without a
     * request; a failed request returns nothing and leaves the cache alone;
     * a completed one records what was found (or `null`) and returns it.
     * The write happens inside the `try`: when the browser refuses it
     * (`saved` false, a full storage quota for instance) the `catch`
     * returns nothing and the cache stays as it was.
     */
    method FetchThumbFromDetails(detailsUrl: string, origin: string, lookupNow: int,
                                 outcome: FetchOutcome, saved: bool, storeNow: int)
      returns (thumb: Option<string>)
      modifies this
      ensures thumb.Some? ==> thumb.value != ""
      ensures var abs := NormalizeToAbs(detailsUrl, origin);
              var hit := GetCachedThumb(old(cache), abs, lookupNow);
              if hit.Some? then
                thumb == hit && cache == old(cache)
              else if outcome.Failed? || !saved then
                thumb.None? && cache == old(cache)
              else
                && cache == old(cache)[abs := Stored(outcome.thumb, storeNow)]
                && thumb == (if Usable(outcome.thumb) then outcome.thumb else None)
    {
      var abs := NormalizeToAbs(detailsUrl, origin);
      var cached := GetCachedThumb(cache, abs, lookupNow);
      if cached.Some? {
        return cached;
      }
      match outcome {
        case Failed =>
          thumb := None;
        case Loaded(found) =>
          if !saved {
            thumb := None;
          } else if Usable(found) {
            SetCachedThumb(abs, found, storeNow);
            thumb := found;
          } else {
            SetCachedThumb(abs, None, storeNow);
            thumb := None;
          }
      }
    }
  }

  /** A read right after a write at the same moment returns what was written, if it was usable. */
  lemma StoreThenGet(cache: map<string, Entry>, key: string, thumb: Option<string>, now: int)
    ensures GetCachedThumb(cache[key := Stored(thumb, now)], key, now)
         == (if Usable(thumb) then thumb else None)
  {
  }

  /** A write leaves every other key's answer as it was. */
  lemma StoreLeavesOthers(cache: map<string, Entry>, key: string, other: string,
                          thumb: Option<string>, stored: int, now: int)
    requires other != key
    ensures GetCachedThumb(cache[key := Stored(thumb, stored)], other, now)
         == GetCachedThumb(cache, other, now)
  {
  }

  /**
   * A stored `null` is a miss like a missing item: the next lookup falls
   * through to a new request rather than suppressing it.
   */
  lemma NegativeEntryMisses(cache: map<string, Entry>, key: string, thumb: Option<string>,
                            stored: int, now: int)
    requires !Usable(thumb)
    ensures GetCachedThumb(cache[key := Stored(thumb, stored)], key, now).None?
  {
  }

  /** An item is still fresh when exactly the time to live has passed, and stale one millisecond later. */
  lemma FreshUntilTtl(cache: map<string, Entry>, key: string, thumb: string, stored: int)
    requires thumb != ""
    ensures GetCachedThumb(cache[key := Stored(Some(thumb), stored)], key, stored + ThumbTtlMs) == Some(thumb)
    ensures GetCachedThumb(cache[key := Stored(Some(thumb), stored)], key, stored + ThumbTtlMs + 1).None?
  {
  }

  /** An item without a timestamp counts as stored at time 0. */
  lemma MissingStampIsEpoch(cache: map<string, Entry>, key: string, now: int)
    requires key in cache && cache[key].ts.None? && Usable(cache[key].url)
    ensures GetCachedThumb(cache, key, now).Some? <==> now <= ThumbTtlMs
  {
  }

  /** Once a lookup misses it keeps missing as time goes on. */
  lemma StaleStaysStale(cache: map<string, Entry>, key: string, now: int, later: int)
    requires now <= later
    requires GetCachedThumb(cache, key, now).None?
    ensures GetCachedThumb(cache, key, later).None?
  {
  }
}
