/**
 Every interleaving of the pool's critical sections with the passing of time.

 Beside the pool stands a book per slot that the program does not keep: how many leases were
 handed out on the cred now in the slot and not yet returned, how many of the outstanding leases
 are on creds the slot held earlier, how many of the present cred's leases the pool no longer counts,
 and which fetches are in flight.
 */
module PoolRuns {
  import opened Basics
  import opened CredEntry
  import opened PoolOps

  datatype Book = Book(
    current: nat,   // leases out on the slot's present cred
    stale: nat,     // leases out on creds the slot held before
    lost: int,      // leases on the present cred that the pool's count has lost
    gets: nat,      // fetches in flight on behalf of `get`
    fills: nat,     // fetches in flight on behalf of `tryFill`
    tainted: bool)  // the slot was dropped while one of these fetches was in flight
  {
    function Leases(): nat { current + stale }
    function InFlight(): nat { gets + fills }
    predicate Clean() { Leases() + InFlight() == 0 && lost == 0 && !tainted }
    function StartGet(): Book { this.(gets := gets + 1) }
    function StartFill(): Book { this.(fills := fills + 1) }
    function Grant(): Book { this.(current := current + 1) }
    /** A lease comes back while the pool counts active ones: the pool counts down if it can, whichever
        cred the lease was on. */
    function Return(ofOld: bool, active: nat): Book
      requires if ofOld then stale > 0 else current > 0
    {
      if ofOld then this.(stale := stale - 1, lost := if active > 0 then lost + 1 else lost)
      else this.(current := current - 1, lost := if active > 0 then lost else lost - 1)
    }
    function Replace(): Book { this.(current := 0, stale := current + stale, lost := 0) }
    function Drop(): Book { Replace().(tainted := tainted || InFlight() > 0) }
    function EndGet(): Book
      requires gets > 0
    {
      this.(gets := gets - 1, tainted := tainted && InFlight() > 1)
    }
    function EndFill(): Book
      requires fills > 0
    {
      this.(fills := fills - 1, tainted := tainted && InFlight() > 1)
    }
  }

  datatype Sys = Sys(now: Time, pool: Pool, books: seq<Book>)

  datatype Action =
    | Advance(t: Time)
    | GetEnter(connIdx: int)
    | GetExit(slot: nat, connIdx: int, result: Option<(string, Cred)>)
    | FillEnter(fillSlot: int, abort: int)
    | FillExit(slot: nat, abort: int, result: Option<(string, Cred)>)
    | Return(slot: nat, ofOld: bool)
    | Mark(markSlot: int)
    | PathEvent
    | Transition(d: Time)
    | DropAll
    | DropOne(dropSlot: int)
    | SeedAt(slot: nat, addr: string, cred: Cred)

  predicate Shape(s: Sys) {
    && 1 <= s.pool.size == |s.pool.slots| == |s.books|
  }

  predicate CleanAt(s: Sys, i: nat)
    requires Shape(s) && i < s.pool.size
  {
    s.books[i].Clean()
  }

  predicate CleanBooks(s: Sys)
    requires Shape(s)
  {
    forall i: nat :: i < s.pool.size ==> CleanAt(s, i)
  }

  /** Callers pair each `release` with a grant and report a 486 before they release
      (pkg/proxy/proxy.go:2110-2171), fetches end once, time does not run back, and the seed is planted
      before any conn or fetch starts (pkg/proxy/proxy.go:492-508). */
  predicate Enabled(s: Sys, a: Action)
    requires Shape(s)
  {
    match a
    case Advance(t) => s.now <= t
    case GetExit(i, _, _) => i < s.pool.size && s.books[i].gets > 0
    case FillExit(i, _, _) => i < s.pool.size && s.books[i].fills > 0
    case Return(i, ofOld) => i < s.pool.size && (if ofOld then s.books[i].stale > 0 else s.books[i].current > 0)
    case Mark(i) => 0 <= i < s.pool.size ==> s.books[i].Leases() > 0
    case SeedAt(i, _, _) => i < s.pool.size && CleanBooks(s)
    case _ => true
  }

  function Granted(books: seq<Book>, i: int): (r: seq<Book>)
    requires i < |books|
    ensures |r| == |books|
  {
    if i < 0 then books else books[i := books[i].Grant()]
  }

  function GetEnterStep(s: Sys, connIdx: int): (t: Sys)
    requires Shape(s)
    ensures Shape(t) && t.pool.size == s.pool.size && t.now == s.now
  {
    var books := match Decide(s.pool, connIdx, s.now)
      case Granted(i) => Granted(s.books, i)
      case FetchInto(i) => s.books[i := s.books[i].StartGet()]
      case _ => s.books;
    Sys(s.now, EnterGet(s.pool, connIdx, s.now), books)
  }

  function GetOkStep(s: Sys, i: nat, addr: string, cred: Cred): (t: Sys)
    requires Shape(s) && i < s.pool.size && s.books[i].gets > 0
    ensures Shape(t) && t.pool.size == s.pool.size && t.now == s.now
  {
    Sys(s.now, ExitGetOk(s.pool, i, addr, cred), s.books[i := s.books[i].EndGet().Replace().Grant()])
  }

  function GetFailStep(s: Sys, i: nat, connIdx: int): (t: Sys)
    requires Shape(s) && i < s.pool.size && s.books[i].gets > 0
    ensures Shape(t) && t.pool.size == s.pool.size && t.now == s.now
  {
    var r := ExitGetFail(s.pool, i, OwnSlot(s.pool.size, connIdx), s.now);
    Sys(s.now, r.0, Granted(s.books[i := s.books[i].EndGet()], r.1))
  }

  function FillEnterStep(s: Sys, i: int, abort: int): (t: Sys)
    requires Shape(s)
    ensures Shape(t) && t.pool.size == s.pool.size && t.now == s.now
  {
    if DecideFill(s.pool, i, abort, s.now).FillInto?
    then Sys(s.now, EnterFill(s.pool, i, abort, s.now), s.books[i := s.books[i].StartFill()])
    else s
  }

  function FillOkStep(s: Sys, i: nat, abort: int, addr: string, cred: Cred): (t: Sys)
    requires Shape(s) && i < s.pool.size && s.books[i].fills > 0
    ensures Shape(t) && t.pool.size == s.pool.size && t.now == s.now
  {
    var b := if FillCommits(s.pool, abort, s.now) then s.books[i].EndFill().Replace() else s.books[i].EndFill();
    Sys(s.now, ExitFillOk(s.pool, i, abort, addr, cred, s.now), s.books[i := b])
  }

  function FillFailStep(s: Sys, i: nat): (t: Sys)
    requires Shape(s) && i < s.pool.size && s.books[i].fills > 0
    ensures Shape(t) && t.pool.size == s.pool.size && t.now == s.now
  {
    Sys(s.now, CoolDown(s.pool, i, s.now), s.books[i := s.books[i].EndFill()])
  }

  function ReturnStep(s: Sys, i: nat, ofOld: bool): (t: Sys)
    requires Shape(s) && i < s.pool.size && (if ofOld then s.books[i].stale > 0 else s.books[i].current > 0)
    ensures Shape(t) && t.pool.size == s.pool.size && t.now == s.now
  {
    Sys(s.now, Release(s.pool, i, s.now), s.books[i := s.books[i].Return(ofOld, s.pool.slots[i].active)])
  }

  function DropAllStep(s: Sys): (t: Sys)
    requires Shape(s)
    ensures Shape(t) && t.pool.size == s.pool.size && t.now == s.now
  {
    Sys(s.now, InvalidateAll(s.pool), seq(|s.books|, i requires 0 <= i < |s.books| => s.books[i].Drop()))
  }

  function DropOneStep(s: Sys, i: int): (t: Sys)
    requires Shape(s)
    ensures Shape(t) && t.pool.size == s.pool.size && t.now == s.now
  {
    if 0 <= i < s.pool.size
    then Sys(s.now, InvalidateEntry(s.pool, i), s.books[i := s.books[i].Drop()]) else s
  }

  function Step(s: Sys, a: Action): (t: Sys)
    requires Shape(s) && Enabled(s, a)
    ensures Shape(t) && t.pool.size == s.pool.size
    ensures t.now == if a.Advance? then a.t else s.now
  {
    match a
    case Advance(t) => Sys(t, s.pool, s.books)
    case GetEnter(connIdx) => GetEnterStep(s, connIdx)
    case GetExit(i, connIdx, result) =>
      if result.Some? then GetOkStep(s, i, result.value.0, result.value.1) else GetFailStep(s, i, connIdx)
    case FillEnter(i, abort) => FillEnterStep(s, i, abort)
    case FillExit(i, abort, result) =>
      if result.Some? then FillOkStep(s, i, abort, result.value.0, result.value.1) else FillFailStep(s, i)
    case Return(i, ofOld) => ReturnStep(s, i, ofOld)
    case Mark(i) => Sys(s.now, MarkSaturated(s.pool, i, s.now), s.books)
    case PathEvent => Sys(s.now, PathChange(s.pool, s.now), s.books)
    case Transition(d) => Sys(s.now, ExtendPause(s.pool, d, s.now), s.books)
    case DropAll => DropAllStep(s)
    case DropOne(i) => DropOneStep(s, i)
    case SeedAt(i, addr, cred) => Sys(s.now, Seed(s.pool, i, addr, cred, s.now), s.books)
  }

  /** A slot as it stands before the first conn starts: empty, or loaded from disk. */
  predicate Quiet(e: Entry) {
    && e.active == 0 && !e.fetching
    && e.saturatedUntil.None? && e.saturationTimer.None?
  }

  predicate QuietAt(s: Sys, i: nat)
    requires Shape(s) && i < s.pool.size
  {
    Quiet(s.pool.slots[i])
  }

  predicate Init(s: Sys) {
    && Shape(s)
    && CleanBooks(s)
    && (forall i: nat :: i < s.pool.size ==> QuietAt(s, i))
    && s.pool.pauseUntil.None? && s.pool.pauseTimer.None? && s.pool.lastPathEvent.None?
  }

  /** The states a sequence of actions goes through, when each action is enabled in its turn. */
  predicate IsRun(s: Sys, acts: seq<Action>)
    requires Shape(s)
    decreases acts
  {
    acts == [] || (Enabled(s, acts[0]) && IsRun(Step(s, acts[0]), acts[1..]))
  }

  function Final(s: Sys, acts: seq<Action>): (t: Sys)
    requires Shape(s) && IsRun(s, acts)
    ensures Shape(t) && t.pool.size == s.pool.size && s.now <= t.now
    decreases acts
  {
    if acts == [] then s else Final(Step(s, acts[0]), acts[1..])
  }

  lemma {:induction false} RunAppend(s: Sys, xs: seq<Action>, ys: seq<Action>)
    requires Shape(s) && IsRun(s, xs) && IsRun(Final(s, xs), ys)
    ensures IsRun(s, xs + ys) && Final(s, xs + ys) == Final(Final(s, xs), ys)
    decreases xs
  {
    if xs == [] {
      assert xs + ys == ys;
    } else {
      assert (xs + ys)[1..] == xs[1..] + ys;
      RunAppend(Step(s, xs[0]), xs[1..], ys);
    }
  }

  /** Some run leads from s to t. */
  ghost predicate Reaches(s: Sys, t: Sys)
    requires Shape(s)
  {
    exists acts: seq<Action> :: IsRun(s, acts) && Final(s, acts) == t
  }

  lemma ReachesStep(s: Sys, t: Sys, a: Action)
    requires Shape(s) && Reaches(s, t) && Shape(t) && Enabled(t, a)
    ensures Reaches(s, Step(t, a))
  {
    var acts :| IsRun(s, acts) && Final(s, acts) == t;
    var u := Step(t, a);
    assert [a][1..] == [] && IsRun(u, []) && Final(u, []) == u;
    assert IsRun(t, [a]) && Final(t, [a]) == u;
    RunAppend(s, acts, [a]);
  }
}
