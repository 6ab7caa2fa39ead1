/**
 The quota can be exceeded: a lease that outlives the cred it was granted on lowers the count of the
 cred that took its place when it is returned. A complete run from an empty pool shows it.
 */
module OverLease {
  import opened Basics
  import opened CredEntry
  import opened PoolOps
  import opened PoolRuns
  import opened TwoSlotPool

  /** Cred A is leased once and dropped; cred B takes its place. */
  lemma ReplacedWhileLeased(b0: Book, idle: Book) returns (b: Book)
    requires b0.Clean()
    ensures Leads(TwoSlots(0, EMPTY, b0, idle), 0, Filled("", CRED_B, 1), b, idle)
    ensures b.current == 1 && b.stale == 1 && b.lost == 0
  {
    var s := TwoSlots(0, EMPTY, b0, idle);
    Begin(0, EMPTY, b0, idle);
    var one := FetchFirst(s, b0, idle, CRED_A);
    Drop(s, 0, Filled("", CRED_A, 1), one, idle);
    b := FetchFirst(s, one.Drop(), idle, CRED_B);
  }

  lemma {:induction false} GrantMany(s: Sys, b1: Book, idle: Book, n: nat) returns (b: Book)
    requires 1 <= n <= 10 && Leads(s, 0, Filled("", CRED_B, 1), b1, idle) && b1.current == 1
    ensures Leads(s, 0, Filled("", CRED_B, n), b, idle) && b.current == n && b.stale == b1.stale && b.lost == b1.lost
  {
    b := b1;
    if n > 1 {
      b := GrantMany(s, b1, idle, n - 1);
      b := GrantLive(s, n - 1, b, idle);
    }
  }

  lemma GrantLive(s: Sys, n: nat, b: Book, idle: Book) returns (b': Book)
    requires n < 10 && Leads(s, 0, Filled("", CRED_B, n), b, idle)
    ensures b' == b.Grant() && Leads(s, 0, Filled("", CRED_B, n + 1), b', idle)
  {
    CredsUnexpired(0);
    Grant(s, 0, Filled("", CRED_B, n), b, idle);
    b' := b.Grant();
    assert Bump(Filled("", CRED_B, n)) == Filled("", CRED_B, n + 1);
  }

  /** From an empty pool of two slots a run reaches eleven leases on one cred while the pool counts ten. */
  lemma ElevenLeases(b0: Book, idle: Book) returns (b: Book)
    requires b0.Clean() && idle.Clean()
    ensures Init(TwoSlots(0, EMPTY, b0, idle))
    ensures Leads(TwoSlots(0, EMPTY, b0, idle), 0, Filled("", CRED_B, 10), b, idle)
    ensures b.current == 11
  {
    StartsQuiet(b0, idle);
    var s := TwoSlots(0, EMPTY, b0, idle);
    b := ReplacedWhileLeased(b0, idle);
    b := GrantMany(s, b, idle, 10);
    GiveBack(s, 0, Filled("", CRED_B, 10), b, idle, true);
    assert Lower(Filled("", CRED_B, 10), 0) == Filled("", CRED_B, 9);
    b := b.Return(true, 10);
    b := GrantLive(s, 9, b, idle);
  }
}
