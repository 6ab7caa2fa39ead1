/**
 A slot dropped while a fetch for it is in flight forgets the fetch: a second one starts, and the first to
 end is overwritten by the other while it is fresh and leased. A complete run from an empty pool shows it.
 */
module OverlappingFetch {
  import opened Basics
  import opened CredEntry
  import opened PoolOps
  import opened PoolRuns
  import opened TwoSlotPool

  lemma TwoFetchesInFlight(b: Book, idle: Book)
    requires b.Clean() && idle.Clean()
    ensures var s := TwoSlots(0, EMPTY, b, idle); var two := b.StartGet().Drop().StartGet();
            && Init(s)
            && Leads(s, 0, EMPTY.(fetching := true), two, idle)
            && two.InFlight() == 2
  {
    StartsQuiet(b, idle);
    var s := TwoSlots(0, EMPTY, b, idle);
    Begin(0, EMPTY, b, idle);
    StartFetch(s, 0, EMPTY, b, idle);
    Drop(s, 0, EMPTY.(fetching := true), b.StartGet(), idle);
    StartFetch(s, 0, EMPTY, b.StartGet().Drop(), idle);
  }

  /** The fetch that ends second replaces a cred that is fresh and leased. */
  lemma FreshCredOverwritten(b: Book, idle: Book)
    requires b.Clean() && idle.Clean()
    ensures var s := TwoSlots(0, EMPTY, b, idle);
            var first := b.StartGet().Drop().StartGet().EndGet().Replace().Grant();
            && Leads(s, 0, Filled("", CRED_B, 1), first, idle)
            && Fresh(Filled("", CRED_B, 1), 0) && first.current == 1
            && Leads(s, 0, Filled("", CRED_A, 1), first.EndGet().Replace().Grant(), idle)
            && first.EndGet().Replace().Grant().stale == 1
  {
    TwoFetchesInFlight(b, idle);
    CredsUnexpired(0);
    var s := TwoSlots(0, EMPTY, b, idle);
    var two := b.StartGet().Drop().StartGet();
    EndFetch(s, 0, EMPTY.(fetching := true), two, idle, CRED_B);
    EndFetch(s, 0, Filled("", CRED_B, 1), two.EndGet().Replace().Grant(), idle, CRED_A);
  }
}
