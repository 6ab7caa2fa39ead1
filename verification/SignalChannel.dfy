/**
 The broadcast channel under concurrent `broadcastSlotAvailable` calls: the swap runs under the lock,
 the close after it, so several swapped-out channels may await their close at once.
 */
module SignalChannel {

  datatype Chans = Chans(
    made: nat,            // channels 0..made exist
    current: nat,
    swapped: set<nat>,    // taken out by a swap whose close has not run yet
    closes: multiset<nat>)

  datatype Op = Swap | Close(ch: nat)

  predicate Can(c: Chans, op: Op) {
    op.Close? ==> op.ch in c.swapped
  }

  function Next(c: Chans, op: Op): Chans
    requires Can(c, op)
  {
    match op
    case Swap => Chans(c.made + 1, c.made, c.swapped + {c.current}, c.closes)
    case Close(ch) => Chans(c.made, c.current, c.swapped - {ch}, c.closes + multiset{ch})
  }

  predicate Run(c: Chans, ops: seq<Op>)
    decreases ops
  {
    ops == [] || (Can(c, ops[0]) && Run(Next(c, ops[0]), ops[1..]))
  }

  function After(c: Chans, ops: seq<Op>): Chans
    requires Run(c, ops)
    decreases ops
  {
    if ops == [] then c else After(Next(c, ops[0]), ops[1..])
  }

  /** Each channel is the current one, awaits its close, or was closed once. */
  predicate PlacedOnce(c: Chans, ch: nat) {
    (if ch == c.current then 1 else 0) + (if ch in c.swapped then 1 else 0) + c.closes[ch] ==
    if ch < c.made then 1 else 0
  }

  ghost predicate Tidy(c: Chans) {
    forall ch: nat :: PlacedOnce(c, ch)
  }

  lemma NextTidy(c: Chans, op: Op, ch: nat)
    requires Tidy(c) && Can(c, op)
    ensures PlacedOnce(Next(c, op), ch)
  {
    assert PlacedOnce(c, ch) && PlacedOnce(c, c.made) && PlacedOnce(c, c.current);
    if op.Close? { assert PlacedOnce(c, op.ch); }
  }

  lemma {:induction false} AfterTidy(c: Chans, ops: seq<Op>)
    requires Tidy(c) && Run(c, ops)
    ensures Tidy(After(c, ops))
    decreases ops
  {
    if ops != [] {
      forall ch: nat ensures PlacedOnce(Next(c, ops[0]), ch) { NextTidy(c, ops[0], ch); }
      AfterTidy(Next(c, ops[0]), ops[1..]);
    }
  }

  const FIRST: Chans := Chans(1, 0, {}, multiset{})

  /**
   In every interleaving of broadcasts no channel is closed twice, the channel conns would park on
   next is open, and a conn parked on an earlier channel is woken as soon as no close is outstanding.
   */
  lemma ClosedExactlyOnce(ops: seq<Op>, ch: nat)
    requires Run(FIRST, ops)
    ensures var c := After(FIRST, ops);
            && c.closes[ch] <= 1
            && c.closes[c.current] == 0 && c.current !in c.swapped
            && (ch < c.made && ch != c.current && c.swapped == {} ==> c.closes[ch] == 1)
  {
    assert Tidy(FIRST);
    AfterTidy(FIRST, ops);
    var c := After(FIRST, ops);
    assert PlacedOnce(c, ch) && PlacedOnce(c, c.current);
  }
}
