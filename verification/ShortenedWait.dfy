/**
 A 486 reported by a conn whose cred was replaced long ago can bring the slot's deadline forward. A complete
 run from an empty pool shows it: the two conns report twelve minutes after they acquired.
 */
module ShortenedWait {
  import opened Basics
  import opened CredEntry
  import opened PoolOps
  import opened PoolRuns
  import opened TwoSlotPool
  import opened Cooldowns

  const T719: Time := 719_000_000_000
  const T720: Time := 720_000_000_000
  const T1379: Time := 1_379_000_000_000

  /** Cred B in slot 0, returned at instant 0, with the given mark. */
  function LeftAtZero(mark: Option<Time>): Entry {
    Filled("", CRED_B, 0).(lastUsedAt := Some(0), saturatedUntil := mark, saturationTimer := mark)
  }

  /** Two conns lease cred A, which is dropped; a third leases cred B and returns it at instant 0. */
  lemma TwoStaleLeases(b0: Book, idle: Book) returns (b: Book)
    requires b0.Clean()
    ensures Leads(TwoSlots(0, EMPTY, b0, idle), 0, LeftAtZero(None), b, idle)
    ensures b.stale == 2
  {
    var s := TwoSlots(0, EMPTY, b0, idle);
    Begin(0, EMPTY, b0, idle);
    b := FetchFirst(s, b0, idle, CRED_A);
    CredsUnexpired(0);
    Grant(s, 0, Filled("", CRED_A, 1), b, idle);
    Drop(s, 0, Bump(Filled("", CRED_A, 1)), b.Grant(), idle);
    b := FetchFirst(s, b.Grant().Drop(), idle, CRED_B);
    GiveBack(s, 0, Filled("", CRED_B, 1), b, idle, false);
    b := b.Return(false, 1);
    assert Lower(Filled("", CRED_B, 1), 0) == LeftAtZero(None);
  }

  lemma FirstReport(s: Sys, b: Book, idle: Book) returns (b': Book)
    requires Leads(s, 0, LeftAtZero(None), b, idle) && b.stale == 2
    ensures Leads(s, T720, LeftAtZero(Some(T1379)), b', idle) && b'.stale == 1
  {
    var e, m := LeftAtZero(None), LeftAtZero(Some(T1379));
    Wait(s, 0, e, b, idle, T719);
    Report486(s, T719, e, b, idle);
    assert Saturate(e, T719 + QuotaCooldown(e, T719)) == m;
    GiveBack(s, T719, m, b, idle, true);
    assert Lower(m, T719) == m;
    b' := b.Return(true, 0);
    Wait(s, T719, m, b', idle, T720);
  }

  /** The first report at 719 s promises 660 s; the second, a second later, leaves 180 s. */
  lemma SecondReportShortens(b0: Book, idle: Book) returns (t: Sys)
    requires b0.Clean() && idle.Clean()
    ensures Init(TwoSlots(0, EMPTY, b0, idle)) && Shape(t) && Reaches(TwoSlots(0, EMPTY, b0, idle), t)
    ensures Enabled(t, Mark(0)) && Shortens(t, 0)
    ensures t.pool.slots[0].saturatedUntil == Some(T1379)
    ensures Step(t, Mark(0)).pool.slots[0].saturatedUntil == Some(T720 + GHOST_COOLDOWN)
  {
    StartsQuiet(b0, idle);
    var s := TwoSlots(0, EMPTY, b0, idle);
    var b := TwoStaleLeases(b0, idle);
    b := FirstReport(s, b, idle);
    t := TwoSlots(T720, LeftAtZero(Some(T1379)), b, idle);
  }
}
