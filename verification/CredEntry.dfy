/**
 One slot of the TURN credential pool, and the pure predicates the pool asks of it.

 Times are integer nanoseconds since the Unix epoch. Go's zero `time.Time` is `None`: it lies
 before every instant, so `now.Before(zero)` is false, which is what `Future` says of `None`.
 */
module CredEntry {
  import opened Basics

  type Time = int

  const SECOND: Time := 1_000_000_000
  const MINUTE: Time := 60_000_000_000

  /** pkg/proxy/creds.go:55, 936, 956, 980, 1013, 1031, 1067-1068, 1725, 2188-2211 */
  const EXPIRY_BUFFER: Time := 1_800_000_000_000
  const LOAD_COOLDOWN: Time := 600_000_000_000
  const GHOST_COOLDOWN: Time := 180_000_000_000
  const ACTIVE_COOLDOWN: Time := 660_000_000_000
  const ACTIVE_WINDOW: Time := 720_000_000_000
  const PATH_PAUSE: Time := 500_000_000
  const CASCADE_WINDOW: Time := 90_000_000_000
  const CASCADE_PAUSE: Time := 30_000_000_000
  const ALLOC_LIFETIME: Time := 600_000_000_000
  const SAFETY_BUFFER: Time := 30_000_000_000
  const MIN_REAL_USE_AGE: Time := 2_000_000_000
  const CONNS_PER_SLOT: int := 10

  datatype Cred = Cred(username: string, password: string, address: string)

  datatype Entry = Entry(
    addr: string,
    creds: Option<Cred>,
    cooldownUntil: Option<Time>,
    fetching: bool,
    active: nat,
    availableAt: Option<Time>,
    lastUsedAt: Option<Time>,
    saturatedUntil: Option<Time>,
    saturationTimer: Option<Time>)  // the instant the armed timer fires

  const EMPTY: Entry := Entry("", None, None, false, 0, None, None, None, None)

  /** The composite literal every successful fetch and seed writes into a slot. */
  function Filled(addr: string, cred: Cred, active: nat): Entry {
    EMPTY.(addr := addr, creds := Some(cred), active := active)
  }

  /** `now.Before(t)` */
  predicate Future(t: Option<Time>, now: Time) {
    t.Some? && now < t.value
  }

  // ---------- expiry encoded in the username ----------

  /** Index of the first c in s, or -1 (strings.IndexByte). */
  function IndexOf(s: string, c: char): (r: int)
    ensures -1 <= r < |s|
  {
    if s == [] then -1
    else if s[0] == c then 0
    else
      var rest := IndexOf(s[1..], c);
      if rest < 0 then -1 else rest + 1
  }

  lemma {:induction false} IndexOfIsFirst(s: string, c: char)
    ensures var r := IndexOf(s, c);
            if r < 0 then c !in s else s[r] == c && c !in s[..r]
  {
    if s != [] && s[0] != c {
      IndexOfIsFirst(s[1..], c);
      var rest := IndexOf(s[1..], c);
      if rest >= 0 {
        assert s[..rest + 1] == [s[0]] + s[1..][..rest];
      }
    }
  }

  predicate AllDigits(s: string) {
    forall i :: 0 <= i < |s| ==> '0' <= s[i] <= '9'
  }

  function DecimalValue(s: string): (v: int)
    requires AllDigits(s)
    ensures v >= 0
  {
    if s == [] then 0 else DecimalValue(s[..|s| - 1]) * 10 + (s[|s| - 1] as int - '0' as int)
  }

  const INT64_LIMIT: int := 0x8000_0000_0000_0000

  /** strconv.ParseInt(s, 10, 64) */
  function ParseInt64(s: string): Option<int> {
    var negative := s != [] && s[0] == '-';
    var digits := if s != [] && (s[0] == '-' || s[0] == '+') then s[1..] else s;
    if digits == [] || !AllDigits(digits) then None else
      var v := if negative then -DecimalValue(digits) else DecimalValue(digits);
      if -INT64_LIMIT <= v < INT64_LIMIT then Some(v) else None
  }

  /** "<unix_expiry>:<key_id>" gives the expiry in whole seconds; anything else gives None. */
  function ParseCredExpiry(username: string): Option<int> {
    var idx := IndexOf(username, ':');
    if idx <= 0 then None else ParseInt64(username[..idx])
  }

  /** The decimal text of n. */
  function Decimal(n: nat): (s: string)
    ensures s != [] && AllDigits(s)
  {
    (if n < 10 then "" else Decimal(n / 10)) + [('0' as int + n % 10) as char]
  }

  lemma {:induction false} DecimalRoundTrip(n: nat)
    ensures DecimalValue(Decimal(n)) == n
  {
    var s := Decimal(n);
    if n >= 10 {
      DecimalRoundTrip(n / 10);
      assert s[..|s| - 1] == Decimal(n / 10);
    } else {
      assert s[..|s| - 1] == "";
    }
  }

  lemma {:induction false} ColonAfter(d: string, key: string)
    requires ':' !in d
    ensures IndexOf(d + ":" + key, ':') == |d|
  {
    var u := d + ":" + key;
    if d != [] {
      assert u[0] == d[0] && d[0] in d;
      ColonAfter(d[1..], key);
      assert u[1..] == d[1..] + ":" + key;
    }
  }

  lemma ParsesBeforeColon(d: string, key: string)
    requires ':' !in d
    ensures ParseCredExpiry(d + ":" + key) == if d == [] then None else ParseInt64(d)
  {
    ColonAfter(d, key);
    assert (d + ":" + key)[..|d|] == d;
  }

  /** What strconv.ParseInt makes of a number. */
  function Int64(v: int): Option<int> { if -INT64_LIMIT <= v < INT64_LIMIT then Some(v) else None }

  lemma SignedDigits(d: string)
    requires d != [] && AllDigits(d)
    ensures ParseInt64(d) == Int64(DecimalValue(d))
    ensures ParseInt64("+" + d) == Int64(DecimalValue(d))
    ensures ParseInt64("-" + d) == Int64(-DecimalValue(d))
    ensures ':' !in d
  {
    assert d[0] != '-' && d[0] != '+';
    assert ("+" + d)[1..] == d && ("-" + d)[1..] == d;
  }

  lemma DigitsBeforeColon(d: string, key: string)
    requires d != [] && AllDigits(d)
    ensures ReadsAs(d, DecimalValue(d), key)
  {
    SignedDigits(d);
    ParsesBeforeColon(d, key);
    ParsesBeforeColon("+" + d, key);
    ParsesBeforeColon("-" + d, key);
  }

  /** Every number a 64-bit integer holds is read back from its username, with or without a sign and whatever
      the key id; every other number gives no expiry. */
  lemma ExpiryRoundTrip(n: int, key: string)
    requires n >= 0
    ensures ReadsAs(Decimal(n), n, key)
  {
    DecimalRoundTrip(n);
    DigitsBeforeColon(Decimal(n), key);
  }

  /** The digits d before a colon are read as v, with their sign. */
  predicate ReadsAs(d: string, v: int, key: string) {
    && ParseCredExpiry(d + ":" + key) == Int64(v)
    && ParseCredExpiry("+" + d + ":" + key) == Int64(v)
    && ParseCredExpiry("-" + d + ":" + key) == Int64(-v)
  }

  predicate Digit(c: char) { '0' <= c <= '9' }

  /** Not a number: empty, a lone sign, or some character that is neither a digit nor a leading sign. */
  predicate NotANumber(d: string) {
    d == "" || d == "+" || d == "-" ||
    exists k :: 0 <= k < |d| && !Digit(d[k]) && (k == 0 ==> d[0] != '+' && d[0] != '-')
  }

  /** A username without a colon, or without a number before its first colon, has no expiry. */
  lemma ExpiryRefused(d: string, key: string)
    requires ':' !in d
    ensures ParseCredExpiry(d) == None
    ensures NotANumber(d) ==> ParseCredExpiry(d + ":" + key) == None
  {
    IndexOfIsFirst(d, ':');
    ParsesBeforeColon(d, key);
    if k :| 0 <= k < |d| && !Digit(d[k]) && (k == 0 ==> d[0] != '+' && d[0] != '-') {
      assert k > 0 ==> d[1..][k - 1] == d[k];
    }
  }

  /** A worked instance of the username format, for the concrete runs of other modules. */
  lemma SampleExpiry(key: char)
    ensures ParseCredExpiry("4000:" + [key]) == Some(4000)
    ensures AllDigits("4000") && DecimalValue("4000") == 4000
    ensures IndexOf("4000:" + [key], ':') == 4 && ("4000:" + [key])[..4] == "4000"
  {
    var u := "4000:" + [key];
    assert u[0] == '4' && u[1] == '0' && u[2] == '0' && u[3] == '0' && u[4] == ':';
    assert IndexOf(u, ':') == 4 by {
      IndexOfIsFirst(u, ':');
      var r := IndexOf(u, ':');
      assert r >= 0 && u[r] == ':' && forall k :: 0 <= k < r ==> u[..r][k] != ':';
    }
    assert u[..4] == "4000";
    assert DecimalValue("4") == 4 by { assert "4"[..0] == ""; }
    assert DecimalValue("40") == 40 by { assert "40"[..1] == "4"; }
    assert DecimalValue("400") == 400 by { assert "400"[..2] == "40"; }
    assert DecimalValue("4000") == 4000 by { assert "4000"[..3] == "400"; }
  }

  // ---------- slot predicates ----------

  /** The cred is more than the buffer away from its expiry. */
  predicate Unexpired(c: Cred, now: Time) {
    var exp := ParseCredExpiry(c.username);
    exp.Some? && now + EXPIRY_BUFFER < exp.value * 1_000_000_000
  }

  /** In numbers, for a username that tells its expiry: more than thirty minutes are left. */
  lemma UnexpiredIff(n: int, key: string, password: string, address: string, now: Time)
    requires 0 <= n < 0x8000_0000_0000_0000
    ensures Unexpired(Cred(Decimal(n) + ":" + key, password, address), now) <==>
            n * 1_000_000_000 - now > 1_800_000_000_000
  {
    ExpiryRoundTrip(n, key);
  }

  predicate Fresh(e: Entry, now: Time) {
    e.creds.Some? && Unexpired(e.creds.value, now) && !Future(e.availableAt, now)
  }

  predicate Available(e: Entry, now: Time) {
    Fresh(e, now) && !Future(e.saturatedUntil, now)
  }

  predicate Pending(e: Entry, now: Time) {
    e.creds.Some? && Future(e.availableAt, now) && Unexpired(e.creds.value, now)
  }

  /** The test `countWithUsableCredsLocked` applies to each slot. */
  predicate Usable(e: Entry, now: Time) {
    e.creds.Some? && Unexpired(e.creds.value, now)
  }

  /** What Phase 1 of `get` asks of a slot before handing it out. */
  predicate Acquirable(e: Entry, now: Time) {
    Fresh(e, now) && e.active < CONNS_PER_SLOT && !Future(e.saturatedUntil, now)
  }

  /** What Phase 2 of `get`, `tryFill` and the grower ask of a fetch target. */
  predicate FetchEligible(e: Entry, now: Time) {
    !Fresh(e, now) && !Pending(e, now) && !Future(e.cooldownUntil, now) && !e.fetching
  }
}
