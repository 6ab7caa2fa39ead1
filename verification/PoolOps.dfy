/**
 The critical sections of `credPool` as functions of the pool's value. The class `CredPool`
 implements them imperatively; the run modules interleave them.
 */
module PoolOps {
  import opened Basics
  import opened CredEntry

  datatype Pool = Pool(
    size: nat,
    cooldown: Time,
    slots: seq<Entry>,
    pauseUntil: Option<Time>,
    pauseTimer: Option<Time>,
    lastPathEvent: Option<Time>)

  function With(p: Pool, slots: seq<Entry>): Pool {
    Pool(p.size, p.cooldown, slots, p.pauseUntil, p.pauseTimer, p.lastPathEvent)
  }

  predicate WellFormed(p: Pool) {
    1 <= p.size <= |p.slots|
  }

  /** ceil(n * 4 / 10), at least 2 (pkg/proxy/creds.go:1301). */
  function PoolSizeForNumConns(n: int): nat {
    var m := if n <= 0 then 1 else n;
    var size := (m * 2 + 4) / 5;
    if size < 2 then 2 else size
  }

  function ColdStartTarget(size: nat): nat {
    var t := (size + 3) / 4;
    if t < 1 then 1 else t
  }

  /** The positions below n that are flagged. */
  function Flagged(flags: seq<bool>, n: nat): (r: set<nat>)
    requires n <= |flags|
    ensures forall i :: i in r <==> 0 <= i < n && flags[i]
  {
    if n == 0 then {}
    else if flags[n - 1] then Flagged(flags, n - 1) + {n - 1}
    else Flagged(flags, n - 1)
  }

  function UsableSlots(slots: seq<Entry>, now: Time): (r: set<nat>)
    ensures forall i :: i in r <==> 0 <= i < |slots| && Usable(slots[i], now)
  {
    Flagged(seq(|slots|, i requires 0 <= i < |slots| => Usable(slots[i], now)), |slots|)
  }

  function FetchingSlots(slots: seq<Entry>): (r: set<nat>)
    ensures forall i :: i in r <==> 0 <= i < |slots| && slots[i].fetching
  {
    Flagged(seq(|slots|, i requires 0 <= i < |slots| => slots[i].fetching), |slots|)
  }

  function AvailableSlots(slots: seq<Entry>, now: Time): (r: set<nat>)
    ensures forall i :: i in r <==> 0 <= i < |slots| && Available(slots[i], now)
  {
    Flagged(seq(|slots|, i requires 0 <= i < |slots| => Available(slots[i], now)), |slots|)
  }

  // ---------- choosing a slot ----------

  /** Slot r beats every acquirable slot below n other than own: more active, or as active and lower. */
  predicate Beats(slots: seq<Entry>, own: int, now: Time, n: nat, r: nat)
    requires r < |slots| && n <= |slots|
  {
    forall j: nat :: j < n && j != own && j != r && Acquirable(slots[j], now) ==> Ahead(slots, r, j)
  }

  /** The compact-fill order. */
  predicate Ahead(slots: seq<Entry>, r: nat, j: nat)
    requires r < |slots| && j < |slots|
  {
    slots[j].active < slots[r].active || (slots[j].active == slots[r].active && r < j)
  }

  /** The lowest of the open positions below n with the greatest count; -1 when none is open. */
  function Fullest(open: seq<bool>, counts: seq<nat>, n: nat): (r: int)
    requires n <= |open| == |counts|
    ensures -1 <= r < n
    ensures r >= 0 ==> open[r] &&
                       forall j :: 0 <= j < n && j != r && open[j] ==>
                         counts[j] < counts[r] || (counts[j] == counts[r] && r < j)
    ensures r < 0 ==> forall j :: 0 <= j < n ==> !open[j]
  {
    if n == 0 then -1 else
      var b := Fullest(open, counts, n - 1);
      if open[n - 1] && (b < 0 || counts[n - 1] > counts[b]) then n - 1 else b
  }

  function OpenToOthers(slots: seq<Entry>, own: int, now: Time): (r: seq<bool>)
    ensures |r| == |slots|
    ensures forall i :: 0 <= i < |slots| ==> r[i] == (i != own && Acquirable(slots[i], now))
  {
    seq(|slots|, i requires 0 <= i < |slots| => i != own && Acquirable(slots[i], now))
  }

  function ActiveCounts(slots: seq<Entry>): (r: seq<nat>)
    ensures |r| == |slots| && forall i :: 0 <= i < |slots| ==> r[i] == slots[i].active
  {
    seq(|slots|, i requires 0 <= i < |slots| => slots[i].active)
  }

  /** The compact-fill choice among the first n slots other than own; -1 when there is none. */
  function BestOther(slots: seq<Entry>, own: int, now: Time, n: nat): (r: int)
    requires n <= |slots|
    ensures -1 <= r < n
    ensures r >= 0 ==> r != own && Acquirable(slots[r], now) && Beats(slots, own, now, n, r)
    ensures r < 0 ==> forall j :: 0 <= j < n && j != own ==> !Acquirable(slots[j], now)
  {
    Fullest(OpenToOthers(slots, own, now), ActiveCounts(slots), n)
  }

  /** The own slot when acquirable, else the compact-fill choice, else -1. */
  function PickAcquire(p: Pool, own: nat, now: Time): (r: int)
    requires WellFormed(p) && own < p.size
    ensures -1 <= r < p.size
    ensures r >= 0 ==> Acquirable(p.slots[r], now)
    ensures r < 0 <==> forall j :: 0 <= j < p.size ==> !Acquirable(p.slots[j], now)
    ensures Acquirable(p.slots[own], now) ==> r == own
    ensures r >= 0 && r != own ==> Beats(p.slots, own, now, p.size, r)
  {
    if Acquirable(p.slots[own], now) then own else BestOther(p.slots, own, now, p.size)
  }

  function OwnSlot(size: nat, connIdx: int): (own: nat)
    requires size >= 1
    ensures own < size
  {
    if connIdx < CONNS_PER_SLOT then 0
    else if connIdx / CONNS_PER_SLOT >= size then size - 1
    else connIdx / CONNS_PER_SLOT
  }

  /** Lowest eligible fetch target in lo..n, or -1. */
  function FirstEligible(slots: seq<Entry>, now: Time, lo: nat, n: nat): (r: int)
    requires lo <= n <= |slots|
    ensures r < 0 ==> r == -1 && forall j :: lo <= j < n ==> !FetchEligible(slots[j], now)
    ensures r >= 0 ==> lo <= r < n && FetchEligible(slots[r], now) &&
                       forall j :: lo <= j < r ==> !FetchEligible(slots[j], now)
    decreases n - lo
  {
    if lo == n then -1
    else if FetchEligible(slots[lo], now) then lo
    else FirstEligible(slots, now, lo + 1, n)
  }

  function FetchTarget(p: Pool, own: nat, now: Time): (r: int)
    requires WellFormed(p) && own < p.size
    ensures -1 <= r < p.size
    ensures r >= 0 ==> FetchEligible(p.slots[r], now)
    ensures r < 0 ==> forall j :: 0 <= j < p.size ==> !FetchEligible(p.slots[j], now)
  {
    if FetchEligible(p.slots[own], now) then own else FirstEligible(p.slots, now, 0, p.size)
  }

  // ---------- get ----------

  datatype Decision = Paused | Granted(slot: nat) | Parked | NoSlot | FetchInto(slot: nat)

  /** Everything `get` decides before it drops the lock for a fetch. */
  function Decide(p: Pool, connIdx: int, now: Time): (d: Decision)
    requires WellFormed(p)
    ensures d.Granted? ==> d.slot < p.size && Acquirable(p.slots[d.slot], now)
    ensures d.FetchInto? ==> d.slot < p.size && FetchEligible(p.slots[d.slot], now)
  {
    var own := OwnSlot(p.size, connIdx);
    var pick := PickAcquire(p, own, now);
    if Future(p.pauseUntil, now) then Paused
    else if pick >= 0 then Granted(pick)
    else if |UsableSlots(p.slots, now)| + |FetchingSlots(p.slots)| >= ColdStartTarget(p.size) then Parked
    else
      var target := FetchTarget(p, own, now);
      if target < 0 then NoSlot else FetchInto(target)
  }

  function Bump(e: Entry): Entry { e.(active := e.active + 1) }

  function EnterGet(p: Pool, connIdx: int, now: Time): (q: Pool)
    requires WellFormed(p)
  {
    match Decide(p, connIdx, now)
    case Granted(i) => With(p, p.slots[i := Bump(p.slots[i])])
    case FetchInto(i) => With(p, p.slots[i := p.slots[i].(fetching := true)])
    case _ => p
  }

  function ExitGetOk(p: Pool, slot: nat, addr: string, cred: Cred): Pool
    requires slot < |p.slots|
  {
    With(p, p.slots[slot := Filled(addr, cred, 1)])
  }

  function CoolDown(p: Pool, slot: nat, now: Time): (q: Pool)
    requires slot < |p.slots|
    ensures WellFormed(p) ==> WellFormed(q)
  {
    With(p, p.slots[slot := p.slots[slot].(fetching := false, cooldownUntil := Some(now + p.cooldown))])
  }

  /** The failed-fetch tail of `get`: cool the target down, then retry the acquire scan. */
  function ExitGetFail(p: Pool, slot: nat, own: nat, now: Time): (r: (Pool, int))
    requires WellFormed(p) && slot < p.size && own < p.size
    ensures -1 <= r.1 < p.size
  {
    var q := CoolDown(p, slot, now);
    var pick := PickAcquire(q, own, now);
    if pick < 0 then (q, -1) else (With(q, q.slots[pick := Bump(q.slots[pick])]), pick)
  }

  // ---------- tryFill ----------

  datatype FillDecision = Rejected | AlreadyFilled | NotNow | Redundant | FillInto

  function DecideFill(p: Pool, slot: int, abort: int, now: Time): (d: FillDecision)
    requires WellFormed(p)
    ensures d.FillInto? ==> 0 <= slot < p.size && FetchEligible(p.slots[slot], now)
  {
    if slot < 0 || slot >= p.size then Rejected
    else if Fresh(p.slots[slot], now) || Pending(p.slots[slot], now) then AlreadyFilled
    else if Future(p.slots[slot].cooldownUntil, now) || p.slots[slot].fetching then NotNow
    else if abort > 0 && |AvailableSlots(p.slots, now)| >= abort then Redundant
    else FillInto
  }

  function EnterFill(p: Pool, slot: int, abort: int, now: Time): Pool
    requires WellFormed(p)
  {
    if DecideFill(p, slot, abort, now).FillInto?
    then With(p, p.slots[slot := p.slots[slot].(fetching := true)]) else p
  }

  /** The abort guard is evaluated after the fetching flag is cleared; it does not look at the flag. */
  predicate FillCommits(p: Pool, abort: int, now: Time) {
    !(abort > 0 && |AvailableSlots(p.slots, now)| >= abort)
  }

  function ExitFillOk(p: Pool, slot: nat, abort: int, addr: string, cred: Cred, now: Time): Pool
    requires slot < |p.slots|
  {
    if FillCommits(p, abort, now)
    then With(p, p.slots[slot := Filled(addr, cred, 0)])
    else With(p, p.slots[slot := p.slots[slot].(fetching := false)])
  }

  // ---------- release, saturation, path changes ----------

  function Lower(e: Entry, now: Time): Entry {
    if e.active > 1 then e.(active := e.active - 1)
    else if e.active == 1 then e.(active := 0, lastUsedAt := Some(now))
    else e
  }

  function Release(p: Pool, slot: int, now: Time): Pool
    requires WellFormed(p)
  {
    if slot < 0 || slot >= p.size then p else With(p, p.slots[slot := Lower(p.slots[slot], now)])
  }

  /** The broadcast condition `release` computes before it decrements. */
  predicate ReleaseSignals(p: Pool, slot: int, now: Time)
    requires WellFormed(p)
  {
    0 <= slot < p.size && p.slots[slot].active == CONNS_PER_SLOT &&
    Fresh(p.slots[slot], now) && !Future(p.slots[slot].saturatedUntil, now)
  }

  function Saturate(e: Entry, until: Time): Entry {
    e.(saturatedUntil := Some(until), saturationTimer := Some(until))
  }

  function QuotaCooldown(e: Entry, now: Time): Time {
    if e.active > 0 || (e.lastUsedAt.Some? && now - e.lastUsedAt.value < ACTIVE_WINDOW)
    then ACTIVE_COOLDOWN else GHOST_COOLDOWN
  }

  function MarkSaturated(p: Pool, slot: int, now: Time): Pool
    requires WellFormed(p)
  {
    if slot < 0 || slot >= p.size then p
    else With(p, p.slots[slot := Saturate(p.slots[slot], now + QuotaCooldown(p.slots[slot], now))])
  }

  /** The instant from which the relay's allocations on this slot are counted, if it may hold any. */
  function Anchor(e: Entry, now: Time): Option<Time> {
    if e.active > 0 then Some(now)
    else if e.lastUsedAt.Some? && MIN_REAL_USE_AGE < now - e.lastUsedAt.value < ACTIVE_WINDOW then e.lastUsedAt
    else None
  }

  /** The slots a path change marks. */
  predicate PathMarks(e: Entry, now: Time) {
    && !Future(e.saturatedUntil, now)
    && e.creds.Some?
    && !Future(e.availableAt, now)
    && Anchor(e, now).Some?
    && ALLOC_LIFETIME - (now - Anchor(e, now).value) + SAFETY_BUFFER > 0
  }

  function PathMark(e: Entry, now: Time): Entry {
    if PathMarks(e, now)
    then Saturate(e, Anchor(e, now).value + ALLOC_LIFETIME + SAFETY_BUFFER) else e
  }

  function PathPause(last: Option<Time>, now: Time): Time {
    if last.Some? && PATH_PAUSE <= now - last.value < CASCADE_WINDOW then CASCADE_PAUSE else PATH_PAUSE
  }

  /** Move the pause deadline to now + d if that is later, and re-arm its timer. */
  function ExtendPause(p: Pool, d: Time, now: Time): Pool {
    if p.pauseUntil.None? || p.pauseUntil.value < now + d
    then p.(pauseUntil := Some(now + d), pauseTimer := if d <= 0 then None else Some(now + d))
    else p
  }

  function PathChange(p: Pool, now: Time): (q: Pool)
    requires WellFormed(p)
    ensures |q.slots| == |p.slots|
    ensures forall i :: 0 <= i < |p.slots| ==>
      q.slots[i] == if i < p.size then PathMark(p.slots[i], now) else p.slots[i]
  {
    var marked := seq(|p.slots|, i requires 0 <= i < |p.slots| =>
      if i < p.size then PathMark(p.slots[i], now) else p.slots[i]);
    ExtendPause(With(p, marked), PathPause(p.lastPathEvent, now), now).(lastPathEvent := Some(now))
  }

  // ---------- dropping slots ----------

  function InvalidateAll(p: Pool): Pool {
    With(p, seq(p.size, _ => EMPTY))
  }

  function InvalidateEntry(p: Pool, slot: int): Pool {
    if 0 <= slot < |p.slots| then With(p, p.slots[slot := EMPTY]) else p
  }

  // ---------- seeding ----------

  predicate Holds(e: Entry, username: string) {
    e.creds.Some? && e.creds.value.username == username
  }

  function Grow(slots: seq<Entry>, n: nat): (r: seq<Entry>)
    ensures |r| == if |slots| < n then n else |slots|
    ensures forall i :: 0 <= i < |r| ==> r[i] == if i < |slots| then slots[i] else EMPTY
  {
    if |slots| < n then slots + seq(n - |slots|, _ => EMPTY) else slots
  }

  /** Lowest slot at or above lo that holds no cred, or -1. */
  function FirstVacant(slots: seq<Entry>, lo: nat): (r: int)
    requires lo <= |slots|
    ensures r < 0 ==> r == -1 && forall i :: lo <= i < |slots| ==> slots[i].creds.Some?
    ensures r >= 0 ==> lo <= r < |slots| && slots[r].creds.None? &&
                       forall i :: lo <= i < r ==> slots[i].creds.Some?
    decreases |slots| - lo
  {
    if lo == |slots| then -1 else if slots[lo].creds.None? then lo else FirstVacant(slots, lo + 1)
  }

  /** Clear every slot other than keep that holds the given cred set. */
  function Dedup(slots: seq<Entry>, keep: nat, username: string): (r: seq<Entry>)
    ensures |r| == |slots|
    ensures forall i :: 0 <= i < |slots| ==>
      r[i] == if i != keep && Holds(slots[i], username) then EMPTY else slots[i]
  {
    seq(|slots|, i requires 0 <= i < |slots| =>
      if i != keep && Holds(slots[i], username) then EMPTY else slots[i])
  }

  predicate SeedIgnored(slots: seq<Entry>, slot: nat, now: Time) {
    slot < |slots| && Fresh(slots[slot], now)
  }

  function SeedSlots(slots: seq<Entry>, slot: nat, addr: string, cred: Cred, now: Time): seq<Entry> {
    if SeedIgnored(slots, slot, now) then slots else
      var grown := Grow(slots, slot + 1);
      var before := grown[slot];
      var deduped := Dedup(grown[slot := Filled(addr, cred, 0)], slot, cred.username);
      var displaced := before.creds.Some? && before.creds.value.username != cred.username;
      var vacant := FirstVacant(deduped, 0);
      if displaced && vacant >= 0 then deduped[vacant := before] else deduped
  }

  function Seed(p: Pool, slot: nat, addr: string, cred: Cred, now: Time): Pool {
    With(p, SeedSlots(p.slots, slot, addr, cred, now))
  }

  /** Seeding without a cred: the slot, which must not hold one, only gets the address. */
  function SeedNothing(p: Pool, slot: nat, addr: string): Pool {
    With(p, Grow(p.slots, slot + 1)[slot := EMPTY.(addr := addr)])
  }

  /** What seeding leaves in a slot: nothing, the seed, or an entry that was in the pool before. */
  lemma SeedOrigin(slots: seq<Entry>, slot: nat, addr: string, cred: Cred, now: Time, j: nat)
    requires slot < |slots| && j < |slots|
    ensures var t := SeedSlots(slots, slot, addr, cred, now);
            && |t| == |slots|
            && (t[j] == EMPTY || t[j] == Filled(addr, cred, 0) || t[j] in slots)
  {
  }
}
