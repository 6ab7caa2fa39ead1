/**
 `credPool` as an object (pkg/proxy/creds.go:1115-2590). Every method is one critical section:
 `get` and `tryFill` drop the lock around the fetch, so each is an entry and an exit method.
 A method's contract ties the new pool value to a function of `PoolOps`, whose consequences over
 all interleavings the other modules prove.
 */
module CredPoolObject {
  import opened Basics
  import opened CredEntry
  import opened PoolOps
  import opened CredCache

  /** A Go `chan struct{}` that is only ever closed. */
  class Signal {
    var closed: bool

    constructor ()
      ensures !closed
    {
      closed := false;
    }

    /** Closing a closed channel panics, so the precondition is Go's own. */
    method Close()
      requires !closed
      modifies this
      ensures closed
    {
      closed := true;
    }
  }

  class CredPool {
    const size: nat
    const cooldown: Time
    var slots: seq<Entry>
    var pauseAcquireUntil: Option<Time>
    var pauseAcquireTimer: Option<Time>
    var lastPathEventAt: Option<Time>
    var slotAvailableCh: Signal

    ghost predicate Valid()
      reads this
    {
      1 <= size <= |slots|
    }

    ghost function View(): Pool
      reads this
    {
      Pool(size, cooldown, slots, pauseAcquireUntil, pauseAcquireTimer, lastPathEventAt)
    }

    constructor (n: int, coolFor: Time)
      ensures Valid() && fresh(slotAvailableCh) && !slotAvailableCh.closed
      ensures size == (if n < 1 then 1 else n)
      ensures cooldown == (if coolFor <= 0 then 2 * MINUTE else coolFor)
      ensures View() == Pool(size, cooldown, seq(size, _ => EMPTY), None, None, None)
    {
      var k: nat := if n < 1 then 1 else n;
      size := k;
      cooldown := if coolFor <= 0 then 2 * MINUTE else coolFor;
      slots := seq(k, _ => EMPTY);
      pauseAcquireUntil, pauseAcquireTimer, lastPathEventAt := None, None, None;
      slotAvailableCh := new Signal();
    }

    // ---------- broadcast ----------

    /** Swap in a new channel, then close the old one. */
    method BroadcastSlotAvailable()
      requires !slotAvailableCh.closed
      modifies this`slotAvailableCh, slotAvailableCh
      ensures old(slotAvailableCh).closed
      ensures fresh(slotAvailableCh) && !slotAvailableCh.closed
    {
      var oldCh := slotAvailableCh;
      slotAvailableCh := new Signal();
      oldCh.Close();
    }

    // ---------- counting loops ----------

    /** The counting loop of all three counts. */
    static method CountFlagged(flags: seq<bool>, ghost slots: set<nat>) returns (n: nat)
      requires forall i :: i in slots <==> 0 <= i < |flags| && flags[i]
      ensures n == |slots|
    {
      n := 0;
      for i := 0 to |flags|
        invariant n == |Flagged(flags, i)|
      {
        assert i !in Flagged(flags, i);
        if flags[i] { n := n + 1; }
      }
      assert Flagged(flags, |flags|) == slots;
    }

    method CountWithUsableCreds(now: Time) returns (n: nat)
      ensures n == |UsableSlots(slots, now)|
    {
      var all := slots;
      n := CountFlagged(seq(|all|, i requires 0 <= i < |all| => Usable(all[i], now)), UsableSlots(all, now));
    }

    method CountFetching() returns (n: nat)
      ensures n == |FetchingSlots(slots)|
    {
      var all := slots;
      n := CountFlagged(seq(|all|, i requires 0 <= i < |all| => all[i].fetching), FetchingSlots(all));
    }

    method CountAvailable(now: Time) returns (n: nat)
      ensures n == |AvailableSlots(slots, now)|
    {
      var all := slots;
      n := CountFlagged(seq(|all|, i requires 0 <= i < |all| => Available(all[i], now)), AvailableSlots(all, now));
    }

    // ---------- get ----------

    /** The compact-fill scan: own slot, else the lowest-index maximum of the active counts. */
    method PickAcquireSlot(own: nat, now: Time) returns (best: int)
      requires Valid() && own < size
      ensures best == PickAcquire(View(), own, now)
      ensures best >= 0 && best != own ==> Beats(slots, own, now, size, best)
      ensures best < 0 ==> forall j :: 0 <= j < size ==> !Acquirable(slots[j], now)
    {
      if Fresh(slots[own], now) && slots[own].active < CONNS_PER_SLOT && !Future(slots[own].saturatedUntil, now) {
        return own;
      }
      best := -1;
      var bestActive: int := -1;
      for i := 0 to size
        invariant best == BestOther(slots, own, now, i)
        invariant bestActive == if best < 0 then -1 else slots[best].active
      {
        if i == own { continue; }
        if !Fresh(slots[i], now) || slots[i].active >= CONNS_PER_SLOT { continue; }
        if Future(slots[i].saturatedUntil, now) { continue; }
        if slots[i].active > bestActive {
          best, bestActive := i, slots[i].active;
        }
      }
    }

    /** First eligible slot in candidate order: own, then the rest by index. */
    method PickFetchTarget(own: nat, now: Time) returns (target: int)
      requires Valid() && own < size
      ensures target == FetchTarget(View(), own, now)
    {
      if FetchEligible(slots[own], now) { return own; }
      var i := 0;
      while i < size
        invariant 0 <= i <= size
        invariant FirstEligible(slots, now, 0, size) == FirstEligible(slots, now, i, size)
      {
        if FetchEligible(slots[i], now) { return i; }
        i := i + 1;
      }
      target := -1;
    }

    /** `get` up to the point where it returns or drops the lock to fetch. */
    method GetEnter(connIdx: int, now: Time) returns (d: Decision, lease: Option<(string, Cred)>)
      requires Valid()
      modifies this`slots
      ensures Valid()
      ensures d == old(Decide(View(), connIdx, now))
      ensures View() == old(EnterGet(View(), connIdx, now))
      ensures if d.Granted? then lease == Some((old(slots)[d.slot].addr, old(slots)[d.slot].creds.value))
              else lease == None
    {
      lease := None;
      if Future(pauseAcquireUntil, now) { return Paused, None; }
      var own := OwnSlot(size, connIdx);
      var pick := PickAcquireSlot(own, now);
      if pick >= 0 {
        slots := slots[pick := slots[pick].(active := slots[pick].active + 1)];
        return Granted(pick), Some((slots[pick].addr, slots[pick].creds.value));
      }
      var usable := CountWithUsableCreds(now);
      var inFlight := CountFetching();
      var coldStartTarget := (size + 3) / 4;
      if coldStartTarget < 1 { coldStartTarget := 1; }
      if usable + inFlight >= coldStartTarget { return Parked, None; }
      var target := PickFetchTarget(own, now);
      if target == -1 { return NoSlot, None; }
      slots := slots[target := slots[target].(fetching := true)];
      d := FetchInto(target);
    }

    /** `get` after the fetch returned: the acquired slot and what it holds, or -1. */
    method GetExit(target: nat, connIdx: int, result: Option<(string, Cred)>, now: Time)
      returns (slot: int, lease: Option<(string, Cred)>)
      requires Valid() && target < size && !slotAvailableCh.closed
      modifies this`slots, this`slotAvailableCh, slotAvailableCh
      ensures Valid() && !slotAvailableCh.closed
      ensures result.Some? ==>
        && slot == target && lease == result
        && View() == old(ExitGetOk(View(), target, result.value.0, result.value.1))
        && fresh(slotAvailableCh) && old(slotAvailableCh).closed
      ensures result.None? ==>
        && (View(), slot) == old(ExitGetFail(View(), target, OwnSlot(size, connIdx), now))
        && slotAvailableCh == old(slotAvailableCh)
        && (if slot >= 0
            then old(slots)[slot].creds.Some? &&
                 lease == Some((old(slots)[slot].addr, old(slots)[slot].creds.value))
            else lease == None)
    {
      lease := None;
      slots := slots[target := slots[target].(fetching := false)];
      if result.Some? {
        slots := slots[target := Filled(result.value.0, result.value.1, 1)];
        BroadcastSlotAvailable();
        return target, result;
      }
      slots := slots[target := slots[target].(cooldownUntil := Some(now + cooldown))];
      assert View() == old(CoolDown(View(), target, now));
      slot, lease := AcquireOnce(OwnSlot(size, connIdx), now);
    }

    /** The acquire scan, and the lease it ends in. */
    method AcquireOnce(own: nat, now: Time) returns (slot: int, lease: Option<(string, Cred)>)
      requires Valid() && own < size
      modifies this`slots
      ensures slot == old(PickAcquire(View(), own, now)) && |slots| == |old(slots)|
      ensures slot < 0 ==> slots == old(slots) && lease == None
      ensures slot >= 0 ==>
        && slots == old(slots)[slot := Bump(old(slots)[slot])] && slots[slot].creds.Some?
        && lease == Some((slots[slot].addr, slots[slot].creds.value))
    {
      lease := None;
      slot := PickAcquireSlot(own, now);
      if slot >= 0 {
        slots := slots[slot := slots[slot].(active := slots[slot].active + 1)];
        lease := Some((slots[slot].addr, slots[slot].creds.value));
      }
    }

    // ---------- tryFill ----------

    method TryFillEnter(slot: int, abortIfAvailableGTE: int, now: Time) returns (d: FillDecision)
      requires Valid()
      modifies this`slots
      ensures Valid()
      ensures d == old(DecideFill(View(), slot, abortIfAvailableGTE, now))
      ensures View() == old(EnterFill(View(), slot, abortIfAvailableGTE, now))
    {
      if slot < 0 || slot >= size { return Rejected; }
      if Fresh(slots[slot], now) { return AlreadyFilled; }
      if Pending(slots[slot], now) { return AlreadyFilled; }
      if Future(slots[slot].cooldownUntil, now) || slots[slot].fetching { return NotNow; }
      var available := CountAvailable(now);
      if abortIfAvailableGTE > 0 && available >= abortIfAvailableGTE { return Redundant; }
      slots := slots[slot := slots[slot].(fetching := true)];
      d := FillInto;
    }

    method TryFillExit(slot: nat, abortIfAvailableGTE: int, result: Option<(string, Cred)>, now: Time)
      returns (filled: bool)
      requires Valid() && slot < size && !slotAvailableCh.closed
      modifies this`slots, this`slotAvailableCh, slotAvailableCh
      ensures Valid() && !slotAvailableCh.closed
      ensures filled == (result.Some? && old(FillCommits(View(), abortIfAvailableGTE, now)))
      ensures result.Some? ==>
        View() == old(ExitFillOk(View(), slot, abortIfAvailableGTE, result.value.0, result.value.1, now))
      ensures result.None? ==> View() == old(CoolDown(View(), slot, now))
      ensures if filled then fresh(slotAvailableCh) && old(slotAvailableCh).closed
              else slotAvailableCh == old(slotAvailableCh)
    {
      slots := slots[slot := slots[slot].(fetching := false)];
      assert AvailableSlots(slots, now) == AvailableSlots(old(slots), now);
      if result.Some? {
        var available := CountAvailable(now);
        if abortIfAvailableGTE > 0 && available >= abortIfAvailableGTE { return false; }
        slots := slots[slot := Filled(result.value.0, result.value.1, 0)];
        BroadcastSlotAvailable();
        return true;
      }
      slots := slots[slot := slots[slot].(cooldownUntil := Some(now + cooldown))];
      filled := false;
    }

    /** The grower's choice: the lowest eligible slot. */
    method PickSlotToFill(now: Time) returns (slot: int)
      requires Valid()
      ensures -1 <= slot < size
      ensures slot >= 0 ==> FetchEligible(slots[slot], now) &&
                            forall j :: 0 <= j < slot ==> !FetchEligible(slots[j], now)
      ensures slot < 0 ==> forall j :: 0 <= j < size ==> !FetchEligible(slots[j], now)
    {
      for i := 0 to size
        invariant forall j :: 0 <= j < i ==> !FetchEligible(slots[j], now)
      {
        if Fresh(slots[i], now) { continue; }
        if Pending(slots[i], now) { continue; }
        if slots[i].fetching { continue; }
        if Future(slots[i].cooldownUntil, now) { continue; }
        return i;
      }
      slot := -1;
    }

    // ---------- release, saturation, path changes ----------

    method ReleaseSlot(slot: int, now: Time)
      requires Valid() && !slotAvailableCh.closed
      modifies this`slots, this`slotAvailableCh, slotAvailableCh
      ensures Valid() && !slotAvailableCh.closed
      ensures View() == old(Release(View(), slot, now))
      ensures if old(ReleaseSignals(View(), slot, now)) then fresh(slotAvailableCh) && old(slotAvailableCh).closed
              else slotAvailableCh == old(slotAvailableCh)
    {
      if slot < 0 || slot >= size { return; }
      var slotBecomesUsable := slots[slot].active == CONNS_PER_SLOT && Fresh(slots[slot], now) &&
                               !Future(slots[slot].saturatedUntil, now);
      if slots[slot].active > 0 {
        slots := slots[slot := slots[slot].(active := slots[slot].active - 1)];
        if slots[slot].active == 0 {
          slots := slots[slot := slots[slot].(lastUsedAt := Some(now))];
        }
      }
      if slotBecomesUsable { BroadcastSlotAvailable(); }
    }

    method ApplySaturation(slot: nat, cooldownFor: Time, now: Time)
      requires slot < |slots|
      modifies this`slots
      ensures slots == old(slots)[slot := Saturate(old(slots)[slot], now + cooldownFor)]
    {
      slots := slots[slot := slots[slot].(saturatedUntil := Some(now + cooldownFor))];
      slots := slots[slot := slots[slot].(saturationTimer := Some(now + cooldownFor))];
    }

    method MarkSlotSaturated(slot: int, now: Time) returns (chosen: Time)
      requires Valid()
      modifies this`slots
      ensures Valid()
      ensures View() == old(MarkSaturated(View(), slot, now))
      ensures chosen == if 0 <= slot < size then old(QuotaCooldown(slots[slot], now)) else 0
    {
      if slot < 0 || slot >= size { return 0; }
      var entry := slots[slot];
      var recent := entry.lastUsedAt.Some? && now - entry.lastUsedAt.value < ACTIVE_WINDOW;
      chosen := GHOST_COOLDOWN;
      if entry.active > 0 {
        chosen := ACTIVE_COOLDOWN;
      } else if recent {
        chosen := ACTIVE_COOLDOWN;
      }
      ApplySaturation(slot, chosen, now);
    }

    method ArmPauseAcquireBroadcast(now: Time)
      requires pauseAcquireUntil.Some?
      modifies this`pauseAcquireTimer
      ensures pauseAcquireTimer == if pauseAcquireUntil.value <= now then None else pauseAcquireUntil
    {
      pauseAcquireTimer := None;
      var delay := pauseAcquireUntil.value - now;
      if delay <= 0 { return; }
      pauseAcquireTimer := Some(now + delay);
    }

    method ExtendPauseAcquire(d: Time, now: Time)
      modifies this`pauseAcquireUntil, this`pauseAcquireTimer
      ensures View() == old(ExtendPause(View(), d, now))
    {
      var deadline := now + d;
      if pauseAcquireUntil.None? || pauseAcquireUntil.value < deadline {
        pauseAcquireUntil := Some(deadline);
        ArmPauseAcquireBroadcast(now);
      }
    }

    method MarkInUseSlotsForPathChange(now: Time) returns (markedSlots: seq<nat>)
      requires Valid()
      modifies this`slots, this`pauseAcquireUntil, this`pauseAcquireTimer, this`lastPathEventAt
      ensures Valid()
      ensures View() == old(PathChange(View(), now))
      ensures forall i :: 0 <= i < size ==> (i in markedSlots <==> old(PathMarks(slots[i], now)))
    {
      markedSlots := [];
      for i := 0 to size
        modifies this`slots
        invariant |slots| == |old(slots)|
        invariant forall j :: 0 <= j < |slots| ==>
          slots[j] == if j < i then PathMark(old(slots)[j], now) else old(slots)[j]
        invariant forall j :: j in markedSlots <==> 0 <= j < i && PathMarks(old(slots)[j], now)
      {
        var e := slots[i];
        if Future(e.saturatedUntil, now) { continue; }
        if e.creds.None? { continue; }
        if Future(e.availableAt, now) { continue; }
        var anchor := now;
        if e.active > 0 {
        } else if e.lastUsedAt.Some? && now - e.lastUsedAt.value > MIN_REAL_USE_AGE &&
                  now - e.lastUsedAt.value < ACTIVE_WINDOW {
          anchor := e.lastUsedAt.value;
        } else {
          continue;
        }
        var remaining := ALLOC_LIFETIME - (now - anchor) + SAFETY_BUFFER;
        if remaining <= 0 { continue; }
        ApplySaturation(i, remaining, now);
        markedSlots := markedSlots + [i];
      }
      assert slots == old(PathChange(View(), now)).slots;
      var pauseDur := PATH_PAUSE;
      if lastPathEventAt.Some? {
        var gap := now - lastPathEventAt.value;
        if gap >= PATH_PAUSE && gap < CASCADE_WINDOW {
          pauseDur := CASCADE_PAUSE;
        }
      }
      var deadline := now + pauseDur;
      if pauseAcquireUntil.None? || pauseAcquireUntil.value < deadline {
        pauseAcquireUntil := Some(deadline);
        ArmPauseAcquireBroadcast(now);
      }
      lastPathEventAt := Some(now);
    }

    // ---------- dropping and seeding ----------

    method Invalidate()
      requires Valid()
      modifies this`slots
      ensures Valid()
      ensures View() == old(InvalidateAll(View()))
    {
      slots := seq(size, _ => EMPTY);
    }

    method DropEntry(slot: int) returns (dropped: bool)
      requires Valid()
      modifies this`slots
      ensures Valid()
      ensures View() == old(InvalidateEntry(View(), slot))
      ensures dropped == (0 <= slot < |old(slots)| && old(slots)[slot].creds.Some?)
    {
      if slot < 0 { return false; }
      dropped := slot < |slots| && slots[slot].creds.Some?;
      if slot < |slots| {
        slots := slots[slot := EMPTY];
      }
    }

    /** The dedup pass of `seedSlot`. */
    method ClearDuplicates(keep: nat, username: string)
      modifies this`slots
      ensures slots == Dedup(old(slots), keep, username)
    {
      for i := 0 to |slots|
        invariant |slots| == |old(slots)|
        invariant forall j :: 0 <= j < |slots| ==>
          slots[j] == if j < i then Dedup(old(slots), keep, username)[j] else old(slots)[j]
      {
        if i == keep { continue; }
        if slots[i].creds.Some? && slots[i].creds.value.username == username {
          slots := slots[i := EMPTY];
        }
      }
    }

    /** Put a displaced entry into the first slot that holds no cred; false when there is none. */
    method Relocate(e: Entry) returns (moved: bool)
      modifies this`slots
      ensures moved == (FirstVacant(old(slots), 0) >= 0)
      ensures slots == if moved then old(slots)[FirstVacant(old(slots), 0) := e] else old(slots)
    {
      var i := 0;
      while i < |slots|
        invariant 0 <= i <= |slots|
        invariant slots == old(slots)
        invariant FirstVacant(slots, 0) == FirstVacant(slots, i)
      {
        if slots[i].creds.None? {
          slots := slots[i := e];
          return true;
        }
        i := i + 1;
      }
      moved := false;
    }

    method GrowTo(n: nat)
      modifies this`slots
      ensures slots == Grow(old(slots), n)
    {
      while |slots| < n
        invariant |old(slots)| <= |slots| && (|slots| <= n || slots == old(slots))
        invariant slots == Grow(old(slots), |slots|)
        decreases n - |slots|
      {
        slots := slots + [EMPTY];
      }
    }

    /** A nil cred is tolerated on a slot that holds none; on one that does the program dereferences it. */
    method SeedSlot(slot: nat, addr: string, seed: Option<Cred>, now: Time)
      requires Valid() && !slotAvailableCh.closed
      requires seed.None? && slot < |slots| ==> slots[slot].creds.None?
      modifies this`slots, this`slotAvailableCh, slotAvailableCh
      ensures Valid() && !slotAvailableCh.closed
      ensures View() == old(if seed.Some? then Seed(View(), slot, addr, seed.value, now)
                            else SeedNothing(View(), slot, addr))
      ensures if old(SeedIgnored(slots, slot, now)) then slotAvailableCh == old(slotAvailableCh)
              else fresh(slotAvailableCh) && old(slotAvailableCh).closed
    {
      if |slots| > slot && Fresh(slots[slot], now) { return; }
      GrowTo(slot + 1);
      var displaced: Option<Entry> := None;
      if slots[slot].creds.Some? && slots[slot].creds.value.username != seed.value.username {
        displaced := Some(slots[slot]);
      }
      slots := slots[slot := EMPTY.(addr := addr, creds := seed)];
      if seed.Some? {
        ClearDuplicates(slot, seed.value.username);
      }
      if displaced.Some? {
        var _ := Relocate(displaced.value);
      }
      BroadcastSlotAvailable();
    }

    // ---------- persistence ----------

    /** The snapshot `saveToDisk` writes: every slot that holds a cred, in slot order. */
    method SaveToDisk(now: Time) returns (f: CacheFile)
      ensures f == Snapshot(slots, now)
      ensures f.version == 2 && f.savedAt * 1_000_000_000 <= now < f.savedAt * 1_000_000_000 + 1_000_000_000
    {
      var creds := [];
      for i := 0 to |slots|
        invariant creds == SavedBelow(slots, now, i)
      {
        if slots[i].creds.None? { continue; }
        var lastUsed := 0;
        if slots[i].active > 0 {
          lastUsed := Unix(now);
        } else if slots[i].lastUsedAt.Some? {
          lastUsed := Unix(slots[i].lastUsedAt.value);
        }
        var cred := slots[i].creds.value;
        creds := creds + [CacheEntry(i, slots[i].addr, cred.username, cred.password, lastUsed)];
      }
      f := CacheFile(CACHE_VERSION, Unix(now), creds);
    }

    method LoadFromDisk(f: Option<CacheFile>, now: Time)
      requires |slots| == size
      modifies this`slots
      ensures |slots| == size
      ensures slots == Reload(old(slots), f, size, now)
    {
      if f.None? { return; }
      if f.value.version != CACHE_VERSION { return; }
      var creds := f.value.creds;
      for k := 0 to |creds|
        invariant |slots| == size
        invariant slots == LoadAll(old(slots), creds[..k], size, now)
      {
        assert creds[..k + 1][..k] == creds[..k];
        var entry := creds[k];
        if entry.slot < 0 || entry.slot >= size { continue; }
        var exp := ParseCredExpiry(entry.username);
        if exp.None? { continue; }
        if FromUnix(exp.value) - now < EXPIRY_BUFFER { continue; }
        var lastUsed, availableAt := None, None;
        if entry.lastUsedAt > 0 {
          lastUsed := Some(FromUnix(entry.lastUsedAt));
          var ready := lastUsed.value + LOAD_COOLDOWN;
          if now < ready { availableAt := Some(ready); }
        }
        var cred := Cred(entry.username, entry.password, entry.address);
        var loaded := Filled(entry.address, cred, 0).(lastUsedAt := lastUsed, availableAt := availableAt);
        slots := slots[entry.slot := loaded];
      }
      assert creds[..|creds|] == creds;
    }
  }
}
