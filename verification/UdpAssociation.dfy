/**
 Lifetime of the tunnel conns of one UDP association (cmd/vk-turn-socks/socks.go:129-261) in every
 interleaving of the relay loop, the read loops, their teardown and `close`.
 */
module UdpAssociation {
  import opened Basics

  /** The map after `removeTarget(key, t)`: only the caller's own target goes. */
  function Removed<T(==)>(targets: map<string, T>, key: string, t: T): map<string, T> {
    if key in targets && targets[key] == t then targets - {key} else targets
  }

  // ---------- all interleavings ----------

  /** Where the single relay goroutine stands in `getOrDial`. */
  datatype Relay = Idle | Dialing(key: string) | Dialed(key: string, id: nat) | Discarding(id: nat)

  datatype Assoc = Assoc(
    closed: bool,
    targets: map<string, nat>,
    dialed: nat,                  // conns 0..dialed were opened
    open: set<nat>,
    readers: map<nat, string>,    // read loops, each with the key it was started under
    leaving: set<nat>,            // removed by their read loop, close still to run
    closing: set<nat>,            // taken over by close(), close still to run
    relay: Relay)

  datatype Event =
    | Lookup(key: string)
    | DialOk
    | DialFail
    | Keep
    | Discard
    | ReaderExit(id: nat)
    | ReaderClose(id: nat)
    | CloseAll
    | CloseOne(id: nat)

  predicate Can(s: Assoc, e: Event) {
    match e
    case Lookup(_) => s.relay.Idle?
    case DialOk => s.relay.Dialing?
    case DialFail => s.relay.Dialing?
    case Keep => s.relay.Dialed?
    case Discard => s.relay.Discarding?
    case ReaderExit(id) => id in s.readers
    case ReaderClose(id) => id in s.leaving
    case CloseAll => true
    case CloseOne(id) => id in s.closing
  }

  function Next(s: Assoc, e: Event): Assoc
    requires Can(s, e)
  {
    match e
    case Lookup(key) =>
      if s.closed || key in s.targets then s else s.(relay := Dialing(key))
    case DialOk =>
      s.(dialed := s.dialed + 1, open := s.open + {s.dialed}, relay := Dialed(s.relay.key, s.dialed))
    case DialFail => s.(relay := Idle)
    case Keep =>
      if s.closed then s.(relay := Discarding(s.relay.id))
      else s.(targets := s.targets[s.relay.key := s.relay.id],
              readers := s.readers[s.relay.id := s.relay.key], relay := Idle)
    case Discard => s.(open := s.open - {s.relay.id}, relay := Idle)
    case ReaderExit(id) =>
      s.(targets := Removed(s.targets, s.readers[id], id),
         readers := s.readers - {id}, leaving := s.leaving + {id})
    case ReaderClose(id) => s.(open := s.open - {id}, leaving := s.leaving - {id})
    case CloseAll =>
      if s.closed then s else s.(closed := true, closing := s.targets.Values, targets := map[])
    case CloseOne(id) => s.(open := s.open - {id}, closing := s.closing - {id})
  }

  const FRESH: Assoc := Assoc(false, map[], 0, {}, map[], {}, {}, Idle)

  predicate Run(s: Assoc, es: seq<Event>)
    decreases es
  {
    es == [] || (Can(s, es[0]) && Run(Next(s, es[0]), es[1..]))
  }

  function After(s: Assoc, es: seq<Event>): Assoc
    requires Run(s, es)
    decreases es
  {
    if es == [] then s else After(Next(s, es[0]), es[1..])
  }

  // ---------- the critical sections as an object ----------

  /** `udpAssoc` with the tunnel conns it uses: a conn is its number in dial order, and `open` holds those
      not closed yet. The remaining fields say where its goroutines stand. */
  class UdpAssoc {
    var targets: map<string, nat>
    var closed: bool
    var dialed: nat
    var open: set<nat>
    ghost var readers: map<nat, string>
    ghost var leaving: set<nat>
    ghost var closing: set<nat>
    ghost var relay: Relay

    ghost function View(): Assoc
      reads this
    {
      Assoc(closed, targets, dialed, open, readers, leaving, closing, relay)
    }

    constructor ()
      ensures View() == FRESH
    {
      targets, closed, dialed, open := map[], false, 0, {};
      readers, leaving, closing, relay := map[], {}, {}, Idle;
    }

    /** First lock section of `getOrDial`: the target to use, or whether to dial. */
    method Find(key: string) returns (t: Option<nat>, dial: bool)
      requires relay.Idle?
      modifies this
      ensures View() == Next(old(View()), Lookup(key))
      ensures t.Some? ==> key in targets && targets[key] == t.value && !closed
      ensures !old(closed) && key in old(targets) ==> t == Some(old(targets)[key])
      ensures dial <==> !old(closed) && key !in old(targets)
      ensures dial == relay.Dialing?
    {
      if closed {
        return None, false;
      }
      if key in targets {
        return Some(targets[key]), false;
      }
      relay := Dialing(key);
      return None, true;
    }

    /** The dial, whose success is up to the network. */
    method Dial(ok: bool) returns (conn: nat)
      requires relay.Dialing?
      modifies this
      ensures View() == Next(old(View()), if ok then DialOk else DialFail)
      ensures conn == old(dialed)
    {
      conn := dialed;
      if ok {
        dialed := dialed + 1;
        open := open + {conn};
        relay := Dialed(relay.key, conn);
      } else {
        relay := Idle;
      }
    }

    /** Second lock section: keep the dialed conn and start its read loop, unless the association closed
        meanwhile. */
    method Insert(key: string, conn: nat) returns (kept: bool)
      requires relay == Dialed(key, conn)
      modifies this
      ensures View() == Next(old(View()), Keep)
      ensures kept <==> relay.Idle?
    {
      if closed {
        relay := Discarding(conn);
        return false;
      }
      targets := targets[key := conn];
      readers := readers[conn := key];
      relay := Idle;
      return true;
    }

    method DiscardConn(conn: nat)
      requires relay == Discarding(conn)
      modifies this
      ensures View() == Next(old(View()), Discard)
    {
      open := open - {conn};
      relay := Idle;
    }

    /** Lock section of `removeTarget`. */
    method Unmap(key: string, conn: nat)
      requires conn in readers && readers[conn] == key
      modifies this
      ensures View() == Next(old(View()), ReaderExit(conn))
    {
      readers, leaving := readers - {conn}, leaving + {conn};
      if key in targets && targets[key] == conn {
        targets := targets - {key};
      }
    }

    /** `removeTarget` with nothing in between. */
    method RemoveTarget(key: string, conn: nat)
      requires conn in readers && readers[conn] == key
      modifies this
      ensures Can(Next(old(View()), ReaderExit(conn)), ReaderClose(conn))
      ensures View() == Next(Next(old(View()), ReaderExit(conn)), ReaderClose(conn))
    {
      Unmap(key, conn);
      open, leaving := open - {conn}, leaving - {conn};
    }

    /** `close` with nothing in between: the map is taken over, then its conns are closed one by one. */
    method Close() returns (ghost es: seq<Event>)
      requires closed || closing == {}
      modifies this
      ensures Run(old(View()), es) && View() == After(old(View()), es)
      ensures closed && dialed == old(dialed)
      ensures !old(closed) ==>
                && targets == map[] && closing == {} && open == old(open) - old(targets).Values
                && readers == old(readers) && relay == old(relay)
    {
      es := ThenOne(View(), [], CloseAll);
      if closed {
        return;
      }
      closed := true;
      var taken := targets;
      targets := map[];
      closing := taken.Values;
      var todo := taken.Values;
      while todo != {}
        invariant closed && targets == map[] && closing == todo <= taken.Values
        invariant open == old(open) - (taken.Values - todo)
        invariant readers == old(readers) && relay == old(relay) && dialed == old(dialed)
        invariant Run(old(View()), es) && View() == After(old(View()), es)
        decreases todo
      {
        var conn :| conn in todo;
        es := ThenOne(old(View()), es, CloseOne(conn));
        open, closing := open - {conn}, closing - {conn};
        todo := todo - {conn};
      }
    }

    /** `getOrDial`, with a `close` during the dial if so wanted: the events it goes through, the target it
        gives, and that a conn dialed for a closed association does not stay open. */
    method GetOrDial(key: string, ok: bool, closesMeanwhile: bool) returns (t: Option<nat>, ghost es: seq<Event>)
      requires relay.Idle? && (closed || closing == {})
      modifies this
      ensures Run(old(View()), es) && View() == After(old(View()), es) && relay.Idle?
      ensures t.Some? ==> !closed && key in targets && targets[key] == t.value
      ensures !old(closed) && key in old(targets) ==> t == Some(old(targets)[key]) && dialed == old(dialed)
      ensures !old(closed) && key !in old(targets) && ok && !closesMeanwhile ==> t == Some(old(dialed))
      ensures closed && dialed > old(dialed) ==> old(dialed) !in open
    {
      var dial;
      t, dial := Find(key);
      es := ThenOne(old(View()), [], Lookup(key));
      if dial {
        var conn := Dial(ok);
        es := ThenOne(old(View()), es, if ok then DialOk else DialFail);
        if closesMeanwhile {
          ghost var closes := Close();
          es := Then(old(View()), es, closes);
        }
        if ok {
          var kept := Insert(key, conn);
          es := ThenOne(old(View()), es, Keep);
          if kept {
            t := Some(conn);
          } else {
            DiscardConn(conn);
            es := ThenOne(old(View()), es, Discard);
          }
        }
      }
    }
  }

  lemma {:induction false} RunConcat(s: Assoc, xs: seq<Event>, ys: seq<Event>)
    requires Run(s, xs) && Run(After(s, xs), ys)
    ensures Run(s, xs + ys) && After(s, xs + ys) == After(After(s, xs), ys)
    decreases xs
  {
    if xs == [] {
      assert xs + ys == ys;
    } else {
      assert (xs + ys)[1..] == xs[1..] + ys;
      RunConcat(Next(s, xs[0]), xs[1..], ys);
    }
  }

  /** The run, continued by one event. */
  ghost function ThenOne(s: Assoc, xs: seq<Event>, e: Event): (zs: seq<Event>)
    requires Run(s, xs) && Can(After(s, xs), e)
    ensures Run(s, zs) && After(s, zs) == Next(After(s, xs), e)
  {
    var t := Next(After(s, xs), e);
    assert [e][1..] == [] && Run(t, []) && After(t, []) == t;
    Then(s, xs, [e])
  }

  /** The run, continued by another. */
  ghost function Then(s: Assoc, xs: seq<Event>, ys: seq<Event>): (zs: seq<Event>)
    requires Run(s, xs) && Run(After(s, xs), ys)
    ensures Run(s, zs) && After(s, zs) == After(After(s, xs), ys)
  {
    RunConcat(s, xs, ys);
    xs + ys
  }

  // ---------- the invariant ----------

  /** A conn some running step will close, or will put into the map. */
  predicate Owned(s: Assoc, id: nat) {
    || (s.relay.Dialed? && s.relay.id == id)
    || (s.relay.Discarding? && s.relay.id == id)
    || id in s.leaving || id in s.closing
  }

  predicate InMap(s: Assoc, id: nat) {
    id in s.readers && s.readers[id] in s.targets && s.targets[s.readers[id]] == id
  }

  predicate Placed(s: Assoc, id: nat) {
    id in s.open ==> id < s.dialed && (InMap(s, id) || Owned(s, id))
  }

  /** While the association is open every read loop's target is in the map under its key. */
  predicate ReaderSound(s: Assoc, id: nat) {
    id in s.readers ==> id < s.dialed && (s.closed || InMap(s, id))
  }

  predicate TargetSound(s: Assoc, key: string) {
    key in s.targets ==> InMap(s, s.targets[key]) && s.readers[s.targets[key]] == key
  }

  predicate RelaySound(s: Assoc) {
    && (s.relay.Dialing? && !s.closed ==> s.relay.key !in s.targets)
    && (s.relay.Dialed? ==> s.relay.id < s.dialed && s.relay.id !in s.readers)
    && (s.relay.Dialed? && !s.closed ==> s.relay.key !in s.targets)
  }

  ghost predicate Sound(s: Assoc) {
    && (if s.closed then s.targets == map[] else s.closing == {})
    && RelaySound(s)
    && (forall id: nat :: Placed(s, id))
    && (forall id: nat :: ReaderSound(s, id))
    && (forall key: string :: TargetSound(s, key))
  }

  lemma NextPlaced(s: Assoc, e: Event, id: nat)
    requires Sound(s) && Can(s, e)
    ensures Placed(Next(s, e), id)
  {
    assert Placed(s, id) && ReaderSound(s, id);
    if e.ReaderExit? { assert ReaderSound(s, e.id); }
    if e.CloseAll? && !s.closed && InMap(s, id) {
      assert s.targets[s.readers[id]] in s.targets.Values;
    }
  }

  lemma NextReaderSound(s: Assoc, e: Event, id: nat)
    requires Sound(s) && Can(s, e)
    ensures ReaderSound(Next(s, e), id)
  {
    assert ReaderSound(s, id);
    if e.ReaderExit? { assert ReaderSound(s, e.id); }
  }

  lemma NextTargetSound(s: Assoc, e: Event, key: string)
    requires Sound(s) && Can(s, e)
    ensures TargetSound(Next(s, e), key)
  {
    assert TargetSound(s, key);
    if e.ReaderExit? { assert ReaderSound(s, e.id); }
  }

  lemma NextRelaySound(s: Assoc, e: Event)
    requires Sound(s) && Can(s, e)
    ensures RelaySound(Next(s, e))
    ensures if Next(s, e).closed then Next(s, e).targets == map[] else Next(s, e).closing == {}
  {
    assert ReaderSound(s, s.dialed);
  }

  lemma NextSound(s: Assoc, e: Event)
    requires Sound(s) && Can(s, e)
    ensures Sound(Next(s, e))
  {
    forall id: nat ensures Placed(Next(s, e), id) { NextPlaced(s, e, id); }
    forall id: nat ensures ReaderSound(Next(s, e), id) { NextReaderSound(s, e, id); }
    forall key: string ensures TargetSound(Next(s, e), key) { NextTargetSound(s, e, key); }
    NextRelaySound(s, e);
  }

  lemma {:induction false} AfterSound(s: Assoc, es: seq<Event>)
    requires Sound(s) && Run(s, es)
    ensures Sound(After(s, es))
    decreases es
  {
    if es != [] {
      NextSound(s, es[0]);
      AfterSound(Next(s, es[0]), es[1..]);
    }
  }

  // ---------- what it means ----------

  /** In every reachable state: each conn ever dialed is in the map, owned by a running step, or closed;
      a closed association has an empty map. */
  lemma EveryConnAccountedFor(es: seq<Event>, id: nat)
    requires Run(FRESH, es)
    ensures var s := After(FRESH, es);
            && (id < s.dialed ==> InMap(s, id) || Owned(s, id) || id !in s.open)
            && (s.closed ==> s.targets == map[])
  {
    AfterSound(FRESH, es);
    assert Placed(After(FRESH, es), id);
  }

  /** A conn in use is open: every mapped target, and the conn the relay loop has just dialed. */
  predicate InUseOpen(s: Assoc) {
    && (forall key :: key in s.targets ==> s.targets[key] in s.open)
    && (s.relay.Dialed? ==> s.relay.id in s.open)
    && (s.relay.Discarding? ==> s.closed)
  }

  lemma NextInUseOpen(s: Assoc, e: Event)
    requires Sound(s) && InUseOpen(s) && Can(s, e)
    requires forall id :: id in s.leaving || id in s.closing ==> Retired(s, id)
    ensures InUseOpen(Next(s, e))
    ensures forall id :: id in Next(s, e).leaving || id in Next(s, e).closing ==> Retired(Next(s, e), id)
  {
    assert forall id :: id in s.readers ==> ReaderSound(s, id);
    assert forall key :: key in s.targets ==> TargetSound(s, key);
    if e.ReaderExit? { assert ReaderSound(s, e.id); }
  }

  /** A conn on its way out is neither mapped nor the one just dialed. */
  predicate Retired(s: Assoc, id: nat) {
    && id < s.dialed
    && (forall key :: key in s.targets ==> s.targets[key] != id)
    && !(s.relay.Dialed? && s.relay.id == id)
  }

  lemma {:induction false} AfterInUseOpen(s: Assoc, es: seq<Event>)
    requires Sound(s) && InUseOpen(s) && Run(s, es)
    requires forall id :: id in s.leaving || id in s.closing ==> Retired(s, id)
    ensures InUseOpen(After(s, es))
    decreases es
  {
    if es != [] {
      NextSound(s, es[0]);
      NextInUseOpen(s, es[0]);
      AfterInUseOpen(Next(s, es[0]), es[1..]);
    }
  }

  /** In every reachable state a target in the map, which is what datagrams are written to, is open. */
  lemma MappedConnsAreOpen(es: seq<Event>, key: string)
    requires Run(FRESH, es) && key in After(FRESH, es).targets
    ensures After(FRESH, es).targets[key] in After(FRESH, es).open
  {
    AfterInUseOpen(FRESH, es);
  }

  /** `removeTarget` deletes the target of the read loop that calls it and no other, and keeping a dialed
      conn never overwrites a target. */
  lemma NoForeignTargetTouched(es: seq<Event>, e: Event)
    requires Run(FRESH, es) && Can(After(FRESH, es), e)
    ensures var s := After(FRESH, es); var t := Next(s, e);
            && (e.ReaderExit? ==> forall k :: k in s.targets && s.targets[k] != e.id ==>
                  k in t.targets && t.targets[k] == s.targets[k])
            && (e.Keep? ==> forall k :: k in s.targets ==> k in t.targets && t.targets[k] == s.targets[k])
            && (e.ReaderExit? ==> forall k :: k in t.targets ==> t.targets[k] != e.id)
  {
    AfterSound(FRESH, es);
    var s := After(FRESH, es);
    if e.ReaderExit? {
      forall k | k in s.targets ensures s.targets[k] == e.id ==> k == s.readers[e.id] {
        assert TargetSound(s, k);
      }
    }
  }

  /** After `close`, once its own closes, the read loops' and the relay loop's have run, no conn is open. */
  lemma AllClosedAtQuiescence(es: seq<Event>)
    requires Run(FRESH, es)
    requires var s := After(FRESH, es); s.closed && s.relay.Idle? && s.leaving == {} && s.closing == {}
    ensures After(FRESH, es).open == {}
  {
    AfterSound(FRESH, es);
    var s := After(FRESH, es);
    forall id: nat ensures id !in s.open { assert Placed(s, id) && !InMap(s, id) && !Owned(s, id); }
  }

  /** The steps a closed association still has to take. */
  function Remaining(s: Assoc): nat {
    2 * |s.readers| + |s.leaving| + |s.closing| +
    match s.relay
    case Idle => 0
    case Dialing(_) => 3
    case Dialed(_, _) => 2
    case Discarding(_) => 1
  }

  lemma ReaderLeaves(readers: map<nat, string>, id: nat)
    requires id in readers
    ensures |readers - {id}| == |readers| - 1
  {
    assert readers.Keys == (readers - {id}).Keys + {id};
  }

  lemma ReaderStepEnds(s: Assoc, e: Event)
    requires s.closed && Can(s, e) && (e.ReaderExit? || e.ReaderClose? || e.CloseOne?)
    ensures Next(s, e).closed && Remaining(Next(s, e)) < Remaining(s)
  {
    if e.ReaderExit? { ReaderLeaves(s.readers, e.id); }
  }

  lemma RelayStepEnds(s: Assoc, e: Event)
    requires s.closed && Can(s, e) && !(e.ReaderExit? || e.ReaderClose? || e.CloseOne?)
    ensures Next(s, e) == s || (Next(s, e).closed && Remaining(Next(s, e)) < Remaining(s))
  {
  }

  /** Once closed, every step that changes anything brings quiescence nearer: the teardown ends. */
  lemma TeardownEnds(s: Assoc, e: Event)
    requires s.closed && Can(s, e) && Next(s, e) != s
    ensures Next(s, e).closed && Remaining(Next(s, e)) < Remaining(s)
  {
    if e.ReaderExit? || e.ReaderClose? || e.CloseOne? {
      ReaderStepEnds(s, e);
    } else {
      RelayStepEnds(s, e);
    }
  }
}
