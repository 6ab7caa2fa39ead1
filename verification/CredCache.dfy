/**
 The cache file that carries creds from one process to the next: what `saveToDisk` writes, what
 `loadFromDisk` and the app's own reader `CredCache.loadValidCred` make of it.
 */
module CredCache {
  import opened Basics
  import opened CredEntry
  import opened PoolOps

  /** One persisted slot; lastUsedAt in Unix seconds, 0 when never used (the field is then absent). */
  datatype CacheEntry = CacheEntry(slot: int, address: string, username: string, password: string, lastUsedAt: int)

  datatype CacheFile = CacheFile(version: int, savedAt: int, creds: seq<CacheEntry>)

  const CACHE_VERSION: int := 2

  /** time.Unix(): whole seconds. */
  function Unix(t: Time): int { t / 1_000_000_000 }

  function FromUnix(s: int): Time { s * 1_000_000_000 }

  // ---------- saving ----------

  function SaveEntry(slot: nat, e: Entry, now: Time): CacheEntry
    requires e.creds.Some?
  {
    CacheEntry(slot, e.addr, e.creds.value.username, e.creds.value.password,
      if e.active > 0 then Unix(now) else if e.lastUsedAt.Some? then Unix(e.lastUsedAt.value) else 0)
  }

  /** The entries written for the first n slots. */
  function SavedBelow(slots: seq<Entry>, now: Time, n: nat): seq<CacheEntry>
    requires n <= |slots|
  {
    if n == 0 then []
    else if slots[n - 1].creds.Some? then SavedBelow(slots, now, n - 1) + [SaveEntry(n - 1, slots[n - 1], now)]
    else SavedBelow(slots, now, n - 1)
  }

  function Snapshot(slots: seq<Entry>, now: Time): CacheFile {
    CacheFile(CACHE_VERSION, Unix(now), SavedBelow(slots, now, |slots|))
  }

  /** Each saved entry stands for the slot it names. */
  lemma {:induction false} SavedFromSlot(slots: seq<Entry>, now: Time, n: nat, c: CacheEntry)
    requires n <= |slots| && c in SavedBelow(slots, now, n)
    ensures 0 <= c.slot < n && slots[c.slot].creds.Some? && c == SaveEntry(c.slot, slots[c.slot], now)
  {
    if n > 0 && c in SavedBelow(slots, now, n - 1) {
      SavedFromSlot(slots, now, n - 1, c);
    }
  }

  // ---------- the pool's reader ----------

  /** What `loadFromDisk` puts into the slot, or None when it skips the entry. */
  function LoadEntry(c: CacheEntry, size: nat, now: Time): Option<Entry> {
    if c.slot < 0 || c.slot >= size then None else
      var exp := ParseCredExpiry(c.username);
      if exp.None? || FromUnix(exp.value) - now < EXPIRY_BUFFER then None else
        var lastUsed := if c.lastUsedAt > 0 then Some(FromUnix(c.lastUsedAt)) else None;
        var availableAt := if lastUsed.Some? && now < lastUsed.value + LOAD_COOLDOWN
                           then Some(lastUsed.value + LOAD_COOLDOWN) else None;
        Some(Filled(c.address, Cred(c.username, c.password, c.address), 0)
               .(lastUsedAt := lastUsed, availableAt := availableAt))
  }

  function LoadOne(slots: seq<Entry>, c: CacheEntry, size: nat, now: Time): (r: seq<Entry>)
    requires |slots| == size
    ensures |r| == size
  {
    var e := LoadEntry(c, size, now);
    if e.Some? then slots[c.slot := e.value] else slots
  }

  /** The pool after the entries were read in file order, later ones over earlier ones. */
  function LoadAll(slots: seq<Entry>, cs: seq<CacheEntry>, size: nat, now: Time): (r: seq<Entry>)
    requires |slots| == size
    ensures |r| == size
    decreases cs
  {
    if cs == [] then slots
    else LoadOne(LoadAll(slots, cs[..|cs| - 1], size, now), cs[|cs| - 1], size, now)
  }

  function Reload(slots: seq<Entry>, f: Option<CacheFile>, size: nat, now: Time): (r: seq<Entry>)
    requires |slots| == size
    ensures |r| == size
  {
    if f.None? || f.value.version != CACHE_VERSION then slots else LoadAll(slots, f.value.creds, size, now)
  }

  /** A missing file or one of another version is not read. */
  lemma OtherVersionIgnored(slots: seq<Entry>, f: Option<CacheFile>, size: nat, now: Time)
    requires |slots| == size && (f.None? || f.value.version != 2)
    ensures Reload(slots, f, size, now) == slots
  {
  }

  // ---------- the app's reader ----------

  /** The app parses the expiry as a floating-point number; dbl is that parser. */
  predicate AppAccepts(c: CacheEntry, now: Time, dbl: string -> Option<real>) {
    var idx := IndexOf(c.username, ':');
    idx >= 0 &&
    var expiry := dbl(c.username[..idx]);
    var nowSec := now as real / 1_000_000_000.0;
    && expiry.Some?
    && expiry.value - nowSec > 1800.0
    && (c.lastUsedAt > 0 ==> !(0.0 <= nowSec - c.lastUsedAt as real < 600.0))
  }

  /** First entry of the file that passes every check; None when the file is absent or none passes. */
  method LoadValidCred(f: Option<CacheFile>, now: Time, dbl: string -> Option<real>) returns (r: Option<CacheEntry>)
    ensures r.Some? ==>
      && f.Some? && f.value.version == 2
      && exists k :: 0 <= k < |f.value.creds| && f.value.creds[k] == r.value && AppAccepts(r.value, now, dbl) &&
                     forall j :: 0 <= j < k ==> !AppAccepts(f.value.creds[j], now, dbl)
    ensures r.None? && f.Some? && f.value.version == 2 ==>
      forall j :: 0 <= j < |f.value.creds| ==> !AppAccepts(f.value.creds[j], now, dbl)
  {
    if f.None? { return None; }
    if f.value.version != CACHE_VERSION { return None; }
    var creds := f.value.creds;
    for k := 0 to |creds|
      invariant forall j :: 0 <= j < k ==> !AppAccepts(creds[j], now, dbl)
    {
      var entry := creds[k];
      var colon := IndexOf(entry.username, ':');
      if colon < 0 { continue; }
      var expiry := dbl(entry.username[..colon]);
      if expiry.None? { continue; }
      var nowSec := now as real / 1_000_000_000.0;
      if expiry.value - nowSec <= 1800.0 { continue; }
      if entry.lastUsedAt > 0 {
        var sinceUse := nowSec - entry.lastUsedAt as real;
        if sinceUse >= 0.0 && sinceUse < 600.0 { continue; }
      }
      assert AppAccepts(creds[k], now, dbl);
      return Some(entry);
    }
    r := None;
  }

  // ---------- agreement of the two readers ----------

  /** On plain decimal text the floating-point parser gives the number. */
  ghost predicate ReadsDecimals(dbl: string -> Option<real>) {
    forall d: string :: d != [] && AllDigits(d) ==> dbl(d) == Some(DecimalValue(d) as real)
  }

  /** "<digits>:..." with a value a 64-bit integer holds. */
  predicate PlainExpiry(username: string) {
    var idx := IndexOf(username, ':');
    idx > 0 && AllDigits(username[..idx]) && DecimalValue(username[..idx]) < INT64_LIMIT
  }

  predicate LoadsFresh(c: CacheEntry, size: nat, now: Time) {
    var e := LoadEntry(c, size, now);
    e.Some? && Fresh(e.value, now)
  }

  /** In terms of integer nanoseconds, the app's two comparisons are the pool's. */
  lemma AppChecksInNanoseconds(exp: int, last: int, now: Time)
    ensures exp as real - now as real / 1_000_000_000.0 > 1800.0 <==> now + EXPIRY_BUFFER < FromUnix(exp)
    ensures 0.0 <= now as real / 1_000_000_000.0 - last as real < 600.0 <==>
            FromUnix(last) <= now < FromUnix(last) + LOAD_COOLDOWN
  {
  }

  /**
   For an entry with an in-range slot and a plain decimal expiry the two readers agree at every instant,
   except exactly when the recorded last use lies in the future of a cred that still has its buffer:
   then the pool waits and the app does not.
   */
  lemma ReadersAgree(c: CacheEntry, size: nat, now: Time, dbl: string -> Option<real>)
    requires 0 <= c.slot < size && PlainExpiry(c.username) && ReadsDecimals(dbl)
    ensures (AppAccepts(c, now, dbl) <==> LoadsFresh(c, size, now)) <==>
            !(c.lastUsedAt > 0 && now < FromUnix(c.lastUsedAt) &&
              Unexpired(Cred(c.username, c.password, c.address), now))
    ensures LoadsFresh(c, size, now) ==> AppAccepts(c, now, dbl)
  {
  }

  /** They do disagree: a cred saved with a last use at 10 s, read at 1 s by a clock that was set back. */
  lemma ReadersDisagree(dbl: string -> Option<real>)
    requires ReadsDecimals(dbl)
    ensures var c := CacheEntry(0, "", "4000:a", "", 10);
            AppAccepts(c, SECOND, dbl) && !LoadsFresh(c, 2, SECOND)
  {
    var c := CacheEntry(0, "", "4000:a", "", 10);
    SampleExpiry('a');
    assert c.username == "4000:" + ['a'];
    ReadersAgree(c, 2, SECOND, dbl);
  }
}
