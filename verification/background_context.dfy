/** The background-image cache of `src/lib/backgroundContext.tsx`: one slot
    `{url, timestamp}` under the key `app_background_cache`, valid for one
    day, and the provider state `(backgroundUrl, isLoaded)` built on it.
    Each `Date.now()` the source calls is a separate clock argument. */
module BackgroundContext {
  import opened Wrappers
  import opened Storage
  import Decimal

  datatype BackgroundCache = BackgroundCache(url: string, timestamp: nat)

  type BgStore = Store<BackgroundCache>

  /** 24 hours in milliseconds. */
  const BG_EXPIRE_TIME: nat := 24 * 60 * 60 * 1000

  /** The image API queried with the clock value as its query string. */
  const BG_API_PREFIX: string := "https://loliapi.com/acg/?"

  /** A cached entry read at `now` has expired. The comparison is strict: an
      entry exactly `BG_EXPIRE_TIME` old is still served. */
  predicate Expired(c: BackgroundCache, now: nat) {
    now - c.timestamp > BG_EXPIRE_TIME
  }

  /** What `getCachedBackground` returns and the storage it leaves. */
  datatype CacheRead = CacheRead(url: Option<string>, store: BgStore)

  /** `getCachedBackground` at clock `now`. An expired entry is removed
      (`removeOk` is false when `removeItem` throws, which the `catch` turns
      into a plain miss). */
  function GetCachedBackground(st: BgStore, now: nat, removeOk: bool): (r: CacheRead)
    ensures r.url.Some? <==> Parse(st).Some? && !Expired(Parse(st).value, now)
    ensures r.url.Some? ==> r.url.value == Parse(st).value.url
    ensures Parse(st).Some? && Expired(Parse(st).value, now) && removeOk ==> r.store == Available(Absent)
    ensures !(Parse(st).Some? && Expired(Parse(st).value, now) && removeOk) ==> r.store == st
  {
    match Parse(st)
    case None => CacheRead(None, st)
    case Some(data) =>
      if now - data.timestamp > BG_EXPIRE_TIME then CacheRead(None, RemoveItem(st, removeOk))
      else CacheRead(Some(data.url), st)
  }

  /** `setCachedBackground(url)` at clock `now`, its failure swallowed. */
  function SetCachedBackground(st: BgStore, url: string, now: nat, writeOk: bool): (st': BgStore)
    ensures WriteLands(st, writeOk) ==> Parse(st') == Some(BackgroundCache(url, now))
    ensures !WriteLands(st, writeOk) ==> st' == st
  {
    SetItem(st, BackgroundCache(url, now), writeOk)
  }

  /** `fetchNewBackground` at clock `now`: the API prefix followed by the
      decimal clock value, which reads back as `now`. */
  function FetchNewBackground(now: nat): (url: string)
    ensures |url| > |BG_API_PREFIX| && url[..|BG_API_PREFIX|] == BG_API_PREFIX
    ensures Decimal.ParseDecimal(url[|BG_API_PREFIX|..]) == Some(now)
  {
    Decimal.ParsePrinted(now);
    var url := BG_API_PREFIX + Decimal.NatToString(now);
    assert url[|BG_API_PREFIX|..] == Decimal.NatToString(now);
    url
  }

  /** Urls made at distinct clock values are distinct. */
  lemma FetchInjective(t1: nat, t2: nat)
    requires t1 != t2
    ensures FetchNewBackground(t1) != FetchNewBackground(t2)
  {
  }

  /** The provider's state: its storage slot and its two React state cells. */
  datatype Provider = Provider(store: BgStore, backgroundUrl: string, isLoaded: bool)

  /** The provider before its mount effect runs: `useState('')`, `useState(false)`. */
  function Initial(st: BgStore): (p: Provider)
    ensures p.store == st && p.backgroundUrl == "" && !p.isLoaded
  {
    Provider(st, "", false)
  }

  /** A read at `now` would yield a url the mount effect accepts: fresh and
      non-empty (an empty url is falsy and is replaced). */
  predicate ServesCached(st: BgStore, now: nat) {
    Parse(st).Some? && !Expired(Parse(st).value, now) && Parse(st).value.url != ""
  }

  /** The mount effect: reuse a cached url, or make a new one and persist it.
      `readNow`, `fetchNow` and `saveNow` are the three clock readings. */
  function Mount(p: Provider, readNow: nat, fetchNow: nat, saveNow: nat,
                 removeOk: bool, writeOk: bool): (q: Provider)
    ensures q.isLoaded == p.isLoaded
    ensures ServesCached(p.store, readNow) ==>
              q.backgroundUrl == Parse(p.store).value.url && q.store == p.store
    ensures !ServesCached(p.store, readNow) ==> q.backgroundUrl == FetchNewBackground(fetchNow)
    ensures !ServesCached(p.store, readNow) && WriteLands(p.store, writeOk) ==>
              Parse(q.store) == Some(BackgroundCache(q.backgroundUrl, saveNow))
    ensures !ServesCached(p.store, readNow) && !WriteLands(p.store, writeOk) ==>
              q.store == GetCachedBackground(p.store, readNow, removeOk).store
    ensures q.store.Available? <==> p.store.Available?
    ensures q.backgroundUrl != ""
  {
    var cached := GetCachedBackground(p.store, readNow, removeOk);
    if cached.url.Some? && cached.url.value != "" then
      p.(store := cached.store, backgroundUrl := cached.url.value)
    else
      var newUrl := FetchNewBackground(fetchNow);
      p.(store := SetCachedBackground(cached.store, newUrl, saveNow, writeOk), backgroundUrl := newUrl)
  }

  /** `setLoaded`: the image has loaded. */
  function SetLoaded(p: Provider): (q: Provider)
    ensures q.isLoaded
    ensures q.backgroundUrl == p.backgroundUrl && q.store == p.store
  {
    p.(isLoaded := true)
  }

  /** `refreshBackground`: a new url regardless of the cache, persisted, and
      the loaded flag cleared. */
  function RefreshBackground(p: Provider, fetchNow: nat, saveNow: nat, writeOk: bool): (q: Provider)
    ensures !q.isLoaded
    ensures q.backgroundUrl == FetchNewBackground(fetchNow)
    ensures WriteLands(p.store, writeOk) ==> Parse(q.store) == Some(BackgroundCache(q.backgroundUrl, saveNow))
    ensures !WriteLands(p.store, writeOk) ==> q.store == p.store
  {
    var newUrl := FetchNewBackground(fetchNow);
    Provider(SetCachedBackground(p.store, newUrl, saveNow, writeOk), newUrl, false)
  }

  /** A read finds nothing when storage is unavailable, empty or corrupt,
      and leaves it as it was. */
  lemma ReadMissesWithoutEntry(st: BgStore, now: nat, removeOk: bool)
    requires st.Unavailable? || st.slot.Absent? || st.slot.Corrupt?
    ensures GetCachedBackground(st, now, removeOk) == CacheRead(None, st)
  {
  }

  /** The expiry boundary: an entry is served at exactly one day old and
      removed one millisecond later. */
  lemma ExpiryBoundary(url: string, t: nat)
    ensures GetCachedBackground(Available(Stored(BackgroundCache(url, t))), t + 86_400_000, true).url == Some(url)
    ensures GetCachedBackground(Available(Stored(BackgroundCache(url, t))), t + 86_400_001, true)
            == CacheRead(None, Available(Absent))
  {
  }

  /** After a mount whose writes land, a second mount at a clock still
      within the stored entry's day shows the same url and writes nothing. */
  lemma MountTwiceSameUrl(p: Provider, r1: nat, f1: nat, s1: nat, r2: nat, f2: nat, s2: nat,
                          removeOk: bool, removeOk2: bool, writeOk2: bool)
    requires p.store.Available?
    requires r2 - (if ServesCached(p.store, r1) then Parse(p.store).value.timestamp else s1) <= BG_EXPIRE_TIME
    ensures var first := Mount(p, r1, f1, s1, removeOk, true);
            var second := Mount(first, r2, f2, s2, removeOk2, writeOk2);
            second.backgroundUrl == first.backgroundUrl && second.store == first.store
  {
    var first := Mount(p, r1, f1, s1, removeOk, true);
    assert ServesCached(first.store, r2);
  }

  /** From empty storage: a mount at `t0` makes `u1`; another at `t0 + 1h`
      still shows `u1`; another at `t0 + 25h` shows a new url. */
  lemma MountScenario(t0: nat, f: nat, s: nat)
    ensures var m1 := Mount(Initial(Available(Absent)), t0, t0, t0, true, true);
            var m2 := Mount(Initial(m1.store), t0 + 3_600_000, f, s, true, true);
            var m3 := Mount(Initial(m2.store), t0 + 90_000_000, t0 + 90_000_000, t0 + 90_000_000, true, true);
            m1.backgroundUrl == FetchNewBackground(t0) &&
            m2.backgroundUrl == m1.backgroundUrl &&
            m3.backgroundUrl != m1.backgroundUrl &&
            Parse(m3.store) == Some(BackgroundCache(m3.backgroundUrl, t0 + 90_000_000))
  {
    FetchInjective(t0, t0 + 90_000_000);
  }

  /** A corrupt slot survives a mount whose write throws: the read leaves
      it in place and the failed save does not replace it. */
  lemma CorruptSurvivesFailedMount(p: Provider, readNow: nat, fetchNow: nat, saveNow: nat, removeOk: bool)
    requires p.store == Available(Corrupt)
    ensures Mount(p, readNow, fetchNow, saveNow, removeOk, false).store == Available(Corrupt)
  {
  }

  /** A refresh after a url made at clock `t` shows a different url whenever
      the clock has moved, whatever the cache held. */
  lemma RefreshGivesNewUrl(p: Provider, t: nat, fetchNow: nat, saveNow: nat, writeOk: bool)
    requires p.backgroundUrl == FetchNewBackground(t)
    requires fetchNow != t
    ensures RefreshBackground(p, fetchNow, saveNow, writeOk).backgroundUrl != p.backgroundUrl
  {
    FetchInjective(t, fetchNow);
  }
}
