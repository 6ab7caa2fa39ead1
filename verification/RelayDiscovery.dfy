/**
 Lazy relay discovery of the cookie credential path (pkg/proxy/creds_vkcookie.go): slot s is served by
 the s-th distinct relay address among those the configured call links hand out.

 Minting is a call into VK: call number n for a link answers `world.mint(n, link)`, and the n-th look at
 the clock reads `world.clock(n)`, both arbitrary.
 */
module RelayDiscovery {
  import opened Basics
  import opened CredEntry
  import LinkCodec

  /** A minted multi-relay cred. */
  datatype Call = Call(username: string, password: string, addresses: seq<string>)

  /** A relay address and the link that provides it. */
  datatype Ref = Ref(address: string, link: string)

  datatype World = World(mint: (nat, string) -> Result<Call, string>, clock: nat -> Time)

  datatype Failure =
    | Rejected
    | NoLinks
    | MintFailed(message: string)
    | Unfilled(relays: nat, links: nat)

  /** What discovery got from one link: the addresses, or None where the mint failed. */
  type Outcome = Option<seq<string>>

  datatype Probe = Probe(link: string, got: Outcome)

  // ---------- the simple specification ----------

  function OffersOf(link: string, addresses: seq<string>): (r: seq<Ref>)
    ensures |r| == |addresses|
  {
    seq(|addresses|, i requires 0 <= i < |addresses| => Ref(addresses[i], link))
  }

  function OfferAt(p: Probe): seq<Ref> {
    if p.got.Some? then OffersOf(p.link, p.got.value) else []
  }

  /** Everything handed out so far, in the order of discovery. */
  function Offers(h: seq<Probe>): seq<Ref> {
    if h == [] then [] else
      var n := |h| - 1;
      Offers(h[..n]) + OfferAt(h[n])
  }

  ghost function AddressesOf(offers: seq<Ref>): set<string> {
    set r | r in offers :: r.address
  }

  /** The offers of a non-empty address not offered before, in order. */
  ghost function FirstOffers(offers: seq<Ref>): seq<Ref> {
    if offers == [] then [] else
      var n := |offers| - 1;
      var r := offers[n];
      FirstOffers(offers[..n]) + if r.address == "" || r.address in AddressesOf(offers[..n]) then [] else [r]
  }

  ghost function Relays(h: seq<Probe>): seq<Ref> { FirstOffers(Offers(h)) }

  // ---------- what the specification means ----------

  lemma {:induction false} FirstOffersAddresses(offers: seq<Ref>)
    ensures AddressesOf(FirstOffers(offers)) == AddressesOf(offers) - {""}
  {
    if offers != [] {
      var n := |offers| - 1;
      FirstOffersAddresses(offers[..n]);
      assert offers == offers[..n] + [offers[n]];
      AddressesConcat(offers[..n], [offers[n]]);
      AddressesConcat(FirstOffers(offers[..n]), [offers[n]]);
      assert AddressesOf([offers[n]]) == {offers[n].address} by { assert offers[n] in [offers[n]]; }
      assert FirstOffers(offers[..n]) + [] == FirstOffers(offers[..n]);
    }
  }

  lemma AddressesConcat(a: seq<Ref>, b: seq<Ref>)
    ensures AddressesOf(a + b) == AddressesOf(a) + AddressesOf(b)
  {
  }

  /** No two slots share a relay address. */
  lemma {:induction false} SlotsGetDistinctRelays(offers: seq<Ref>, i: nat, j: nat)
    requires i < j < |FirstOffers(offers)|
    ensures FirstOffers(offers)[i].address != FirstOffers(offers)[j].address
  {
    var n := |offers| - 1;
    var init := FirstOffers(offers[..n]);
    if j < |init| {
      SlotsGetDistinctRelays(offers[..n], i, j);
    } else {
      FirstOffersAddresses(offers[..n]);
      assert init[i] in init;
      assert init[i].address in AddressesOf(init);
    }
  }

  /** p is the position of the first offer of the address. */
  ghost predicate FirstAt(offers: seq<Ref>, p: nat, address: string) {
    p < |offers| && offers[p].address == address && address !in AddressesOf(offers[..p])
  }

  /** Every relay is the first offer of its address, link included. */
  lemma {:induction false} RelayIsFirstOffer(offers: seq<Ref>, i: nat) returns (p: nat)
    requires i < |FirstOffers(offers)|
    ensures p < |offers| && offers[p] == FirstOffers(offers)[i] && offers[p].address != ""
    ensures FirstAt(offers, p, FirstOffers(offers)[i].address)
  {
    var n := |offers| - 1;
    if i < |FirstOffers(offers[..n])| {
      p := RelayIsFirstOffer(offers[..n], i);
      assert offers[..n][..p] == offers[..p];
    } else {
      p := n;
    }
  }

  lemma FirstAtUnique(offers: seq<Ref>, p: nat, q: nat, address: string)
    requires FirstAt(offers, p, address) && FirstAt(offers, q, address)
    ensures p == q
  {
  }

  /** The list and the seen-set that discovery keeps, for these offers. */
  ghost predicate Noted(relays: seq<Ref>, seen: set<string>, offers: seq<Ref>) {
    relays == FirstOffers(offers) && seen == AddressesOf(offers) - {""}
  }

  lemma NoteOne(relays: seq<Ref>, seen: set<string>, offers: seq<Ref>, r: Ref)
    requires Noted(relays, seen, offers)
    ensures if r.address != "" && r.address !in seen
            then Noted(relays + [r], seen + {r.address}, offers + [r])
            else Noted(relays, seen, offers + [r])
  {
  }

  lemma OffersOfStep(offers: seq<Ref>, link: string, addresses: seq<string>, i: nat)
    requires i < |addresses|
    ensures offers + OffersOf(link, addresses[..i + 1]) ==
            offers + OffersOf(link, addresses[..i]) + [Ref(addresses[i], link)]
  {
  }

  /** The relay list keeps the order of the first offers. */
  lemma {:induction false} OrderPreserved(offers: seq<Ref>, i: nat, j: nat, p: nat, q: nat)
    requires i < j < |FirstOffers(offers)|
    requires FirstAt(offers, p, FirstOffers(offers)[i].address)
    requires FirstAt(offers, q, FirstOffers(offers)[j].address)
    ensures p < q
  {
    var n := |offers| - 1;
    var init := FirstOffers(offers[..n]);
    var p' := RelayIsFirstOffer(offers[..n], i);
    assert offers[..n][..p'] == offers[..p'];
    FirstAtUnique(offers, p, p', init[i].address);
    if j < |init| {
      var q' := RelayIsFirstOffer(offers[..n], j);
      assert offers[..n][..q'] == offers[..q'];
      FirstAtUnique(offers, q, q', init[j].address);
      OrderPreserved(offers[..n], i, j, p, q);
    } else {
      FirstAtUnique(offers, q, n, offers[n].address);
    }
  }

  lemma {:induction false} FirstOffersPrefix(a: seq<Ref>, b: seq<Ref>)
    ensures FirstOffers(a) <= FirstOffers(a + b)
  {
    if b == [] {
      assert a + b == a;
    } else {
      var n := |b| - 1;
      FirstOffersPrefix(a, b[..n]);
      assert (a + b)[..|a + b| - 1] == a + b[..n];
    }
  }

  lemma {:induction false} OffersPrefix(a: seq<Probe>, b: seq<Probe>)
    requires a <= b
    ensures Offers(a) <= Offers(b)
  {
    if |a| == |b| {
      assert a == b;
    } else {
      OffersPrefix(a, b[..|b| - 1]);
    }
  }

  /** More discovery only appends relays: a slot keeps its relay. */
  lemma RelaysPrefix(a: seq<Probe>, b: seq<Probe>)
    requires a <= b
    ensures Relays(a) <= Relays(b)
  {
    OffersPrefix(a, b);
    var x, y := Offers(a), Offers(b);
    assert y == x + y[|x|..];
    FirstOffersPrefix(x, y[|x|..]);
  }

  predicate Provides(p: Probe, a: string) { p.got.Some? && a in p.got.value }

  lemma {:induction false} OfferOrigin(h: seq<Probe>, r: Ref) returns (j: nat)
    requires r in Offers(h)
    ensures j < |h| && r.link == h[j].link && Provides(h[j], r.address)
  {
    var n := |h| - 1;
    if r in Offers(h[..n]) {
      j := OfferOrigin(h[..n], r);
    } else {
      j := n;
    }
  }

  lemma {:induction false} OfferPresent(h: seq<Probe>, j: nat, a: string)
    requires j < |h| && Provides(h[j], a)
    ensures Ref(a, h[j].link) in Offers(h)
  {
    var n := |h| - 1;
    if j < n {
      OfferPresent(h[..n], j, a);
    } else {
      var i :| 0 <= i < |h[n].got.value| && h[n].got.value[i] == a;
      assert OffersOf(h[n].link, h[n].got.value)[i] == Ref(a, h[n].link);
    }
  }

  /** The relay addresses are exactly the non-empty ones that some discovered link handed out. */
  lemma RelayAddresses(h: seq<Probe>, a: string)
    ensures a in AddressesOf(Relays(h)) <==> a != "" && exists j :: 0 <= j < |h| && Provides(h[j], a)
  {
    var offers := Offers(h);
    FirstOffersAddresses(offers);
    if a in AddressesOf(offers) {
      var r :| r in offers && r.address == a;
      var j := OfferOrigin(h, r);
    }
    if j: nat :| j < |h| && Provides(h[j], a) {
      OfferPresent(h, j, a);
    }
  }

  // ---------- lazy against eager ----------

  /** What discovery of every link would get if no mint failed: link j hands out full[j]. */
  function Eager(links: seq<string>, full: seq<seq<string>>): (r: seq<Probe>)
    requires |full| == |links|
    ensures |r| == |full|
  {
    seq(|full|, i requires 0 <= i < |full| => Probe(links[i], Some(full[i])))
  }

  /** Discovery went through the links in order; some answered as in full, the others failed. */
  predicate Answers(links: seq<string>, full: seq<seq<string>>, h: seq<Probe>) {
    && |h| <= |full| == |links|
    && forall j :: 0 <= j < |h| ==> h[j] == Probe(links[j], None) || h[j] == Probe(links[j], Some(full[j]))
  }

  /** As long as no mint fails, a served slot has the relay that discovering everything first would give it. */
  lemma LazyIsEager(links: seq<string>, full: seq<seq<string>>, h: seq<Probe>)
    requires Answers(links, full, h) && forall j :: 0 <= j < |h| ==> h[j].got.Some?
    ensures Relays(h) <= Relays(Eager(links, full))
    ensures |h| == |links| ==> Relays(h) == Relays(Eager(links, full))
  {
    assert h <= Eager(links, full);
    RelaysPrefix(h, Eager(links, full));
    if |h| == |links| { assert h == Eager(links, full); }
  }

  /** A failed discovery mint is not tried again. The finished list still has every relay exactly when
      each address of a failed link is also handed out by a link that answered. */
  lemma FailedMintLosesRelaysIff(links: seq<string>, full: seq<seq<string>>, h: seq<Probe>)
    requires Answers(links, full, h) && |h| == |links|
    ensures AddressesOf(Relays(h)) == AddressesOf(Relays(Eager(links, full))) <==>
            forall j, a :: 0 <= j < |h| && h[j].got.None? && a in full[j] && a != "" ==>
              exists k :: 0 <= k < |h| && Provides(h[k], a)
  {
    var eager := Eager(links, full);
    var got, all := AddressesOf(Relays(h)), AddressesOf(Relays(eager));
    forall a ensures a in got ==> a in all {
      RelayAddresses(h, a);
      RelayAddresses(eager, a);
      if k :| 0 <= k < |h| && Provides(h[k], a) { assert Provides(eager[k], a); }
    }
    if got == all {
      forall j, a | 0 <= j < |h| && h[j].got.None? && a in full[j] && a != ""
        ensures exists k :: 0 <= k < |h| && Provides(h[k], a)
      {
        assert Provides(eager[j], a);
        RelayAddresses(eager, a);
        RelayAddresses(h, a);
      }
    } else {
      var a :| a in all && a !in got;
      RelayAddresses(h, a);
      RelayAddresses(eager, a);
      var j :| 0 <= j < |eager| && Provides(eager[j], a);
      assert !Provides(h[j], a);
    }
  }

  /** One link, whose first mint fails: the slot stays unfilled until reconfiguration. */
  lemma LostLink()
    ensures Answers(["L"], [["r"]], [Probe("L", None)])
    ensures Relays([Probe("L", None)]) == [] && Relays(Eager(["L"], [["r"]])) == [Ref("r", "L")]
  {
    OneProbe(Probe("L", None));
    OneProbe(Probe("L", Some(["r"])));
    assert Eager(["L"], [["r"]]) == [Probe("L", Some(["r"]))];
    OneOffer(Ref("r", "L"));
    assert OffersOf("L", ["r"]) == [Ref("r", "L")];
  }

  lemma OneProbe(p: Probe)
    ensures Offers([p]) == OfferAt(p)
  {
    assert [p][..0] == [];
  }

  lemma OneOffer(r: Ref)
    requires r.address != ""
    ensures FirstOffers([r]) == [r]
  {
    assert [r][..0] == [];
  }

  // ---------- where the history comes from ----------

  /** One of the first n mint calls was for the link and gave c. */
  ghost predicate Minted(w: World, n: nat, link: string, c: Call) {
    exists k: nat :: k < n && w.mint(k, link) == Ok(c)
  }

  /** The probe records what one of the first n mint calls, made for its link, gave. */
  ghost predicate Explained(w: World, n: nat, p: Probe) {
    match p.got
    case Some(a) => exists c :: Minted(w, n, p.link, c) && c.addresses == a
    case None => exists k: nat :: k < n && w.mint(k, p.link).Err?
  }

  ghost predicate HistoryOk(w: World, n: nat, h: seq<Probe>) {
    forall j :: 0 <= j < |h| ==> Explained(w, n, h[j])
  }

  ghost predicate CacheOk(w: World, n: nat, cache: map<string, Call>) {
    forall l :: l in cache ==> Minted(w, n, l, cache[l])
  }

  lemma MoreMints(w: World, n: nat, n': nat, h: seq<Probe>)
    requires HistoryOk(w, n, h) && n <= n'
    ensures HistoryOk(w, n', h)
  {
    forall j | 0 <= j < |h| ensures Explained(w, n', h[j]) {
      assert Explained(w, n, h[j]);
      if h[j].got.Some? {
        var c :| Minted(w, n, h[j].link, c) && c.addresses == h[j].got.value;
        assert Minted(w, n', h[j].link, c);
      }
    }
  }

  lemma HistoryAppend(w: World, n: nat, n': nat, h: seq<Probe>, p: Probe)
    requires HistoryOk(w, n, h) && n <= n' && Explained(w, n', p)
    ensures HistoryOk(w, n', h + [p])
    ensures Offers(h + [p]) == Offers(h) + OfferAt(p)
  {
    MoreMints(w, n, n', h);
    assert (h + [p])[..|h|] == h;
  }

  // ---------- link ids ----------

  /** Position of the last occurrence of pat, or -1 (strings.LastIndex). */
  function LastIndex(s: string, pat: string): (r: int)
    ensures r >= 0 ==> r + |pat| <= |s|
  {
    if |s| < |pat| then -1
    else if s[|s| - |pat|..] == pat then |s| - |pat|
    else if s == [] then -1
    else LastIndex(s[..|s| - 1], pat)
  }

  function TrimSlashes(s: string): string {
    if s != [] && s[|s| - 1] == '/' then TrimSlashes(s[..|s| - 1]) else s
  }

  /** Position of the first '?' or '#', or -1 (strings.IndexAny). */
  function IndexQuery(s: string): (r: int)
    ensures -1 <= r < |s|
  {
    if s == [] then -1
    else if s[0] == '?' || s[0] == '#' then 0
    else
      var rest := IndexQuery(s[1..]);
      if rest < 0 then -1 else rest + 1
  }

  /** `cookieLinkID` */
  function LinkId(s: string): string {
    var id := LinkCodec.TrimSpace(s);
    var i := LastIndex(id, "join/");
    var tail := TrimSlashes(if i >= 0 then id[i + 5..] else id);
    var k := IndexQuery(tail);
    if k > 0 then tail[..k] else tail
  }

  lemma {:induction false} LastIndexAfter(base: string, rest: string)
    requires '/' !in rest
    ensures LastIndex(base + "join/" + rest, "join/") == |base|
  {
    var s := base + "join/" + rest;
    var n := |rest| - 1;
    if rest == [] {
      assert s[|base|..] == "join/";
    } else {
      assert s[|s| - 1] == rest[n] && rest[n] in rest;
      assert s[|s| - 5..][4] == rest[n] && "join/"[4] == '/';
      LastIndexAfter(base, rest[..n]);
      assert s[..|s| - 1] == base + "join/" + rest[..n];
    }
  }

  lemma {:induction false} QueryAfter(id: string, query: string)
    requires '?' !in id && '#' !in id && (query == [] || query[0] == '?' || query[0] == '#')
    ensures IndexQuery(id + query) == if query == [] then -1 else |id|
  {
    if id == [] {
      assert id + query == query;
    } else {
      assert id[0] in id;
      QueryAfter(id[1..], query);
      assert (id + query)[1..] == id[1..] + query;
    }
  }

  /** The id of a call is extracted from its URL, with or without a query, for every id without
      separators. */
  lemma LinkIdOfUrl(base: string, id: string, query: string)
    requires id != [] && '/' !in id && '?' !in id && '#' !in id
    requires (query == [] || query[0] == '?' || query[0] == '#') && '/' !in query
    requires LinkCodec.NoSpace(base + "join/" + id + query)
    ensures LinkId(base + "join/" + id + query) == id
  {
    var s := base + "join/" + id + query;
    LinkCodec.TrimNothing(s);
    assert s == base + "join/" + (id + query);
    LastIndexAfter(base, id + query);
    assert s[|base| + 5..] == id + query;
    var last := (id + query)[|id + query| - 1];
    assert last in id + query;
    QueryAfter(id, query);
    assert query == [] ==> id + query == id;
  }

  lemma NotAnotherJoin(base: string, id: string)
    requires '/' !in id && id != [] && !(|id| >= 4 && id[|id| - 4..] == "join")
    ensures var s := base + "join/" + id + "/"; s[|s| - 5..] != "join/"
  {
    var s := base + "join/" + id + "/";
    var end := s[|s| - 5..];
    assert "join/"[..4] == "join" && forall k :: 0 <= k < 4 ==> "join/"[k] != '/';
    if |id| >= 4 {
      assert id[|id| - 4..] == end[..4];
    } else {
      assert end[3 - |id|] == '/';
    }
  }

  lemma SlashIgnored(t: string, pat: string)
    requires 0 < |pat| <= |t| + 1 && (t + "/")[|t| + 1 - |pat|..] != pat
    ensures LastIndex(t + "/", pat) == LastIndex(t, pat)
  {
    assert (t + "/")[..|t|] == t;
  }

  lemma LastIndexBeforeSlash(base: string, id: string)
    requires '/' !in id && id != [] && !(|id| >= 4 && id[|id| - 4..] == "join")
    ensures LastIndex(base + "join/" + id + "/", "join/") == |base|
  {
    NotAnotherJoin(base, id);
    LastIndexAfter(base, id);
    SlashAfter(base + "join/" + id, "join/", |base|);
  }

  lemma SlashAfter(t: string, pat: string, n: int)
    requires 0 < |pat| <= |t| && LastIndex(t, pat) == n
    requires var s := t + "/"; s[|s| - |pat|..] != pat
    ensures LastIndex(t + "/", pat) == n
  {
    SlashIgnored(t, pat);
  }

  lemma TrimsSlash(id: string)
    requires id != [] && '/' !in id
    ensures TrimSlashes(id + "/") == id
  {
    assert (id + "/")[..|id|] == id;
    assert id[|id| - 1] in id;
  }

  /** A trailing slash does not matter, unless it makes the id end in another "join/". */
  lemma LinkIdOfUrlWithSlash(base: string, id: string)
    requires id != [] && '/' !in id && '?' !in id && '#' !in id && !(|id| >= 4 && id[|id| - 4..] == "join")
    requires LinkCodec.NoSpace(base + "join/" + id + "/")
    ensures LinkId(base + "join/" + id + "/") == id
  {
    var s := base + "join/" + id + "/";
    LinkCodec.TrimNothing(s);
    LastIndexBeforeSlash(base, id);
    assert s[|base| + 5..] == id + "/";
    TrimsSlash(id);
    QueryAfter(id, "");
    assert id + "" == id;
  }

  function LinkIds(links: seq<string>): (r: seq<string>)
    ensures "" !in r
  {
    if links == [] then [] else
      var n := |links| - 1;
      LinkIds(links[..n]) + if LinkId(links[n]) != "" then [LinkId(links[n])] else []
  }

  // ---------- the package state ----------

  predicate Stale(c: Call, now: Time) {
    var exp := ParseCredExpiry(c.username);
    exp.Some? && exp.value * 1_000_000_000 - now < EXPIRY_BUFFER
  }

  /** A cred is minted again from thirty minutes before its expiry on. */
  lemma StaleIff(n: int, key: string, password: string, addresses: seq<string>, now: Time)
    requires 0 <= n < 0x8000_0000_0000_0000
    ensures Stale(Call(Decimal(n) + ":" + key, password, addresses), now) <==>
            n * 1_000_000_000 - now < 1_800_000_000_000
  {
    ExpiryRoundTrip(n, key);
  }

  /** At least thirty minutes are left, or the username does not tell. */
  predicate LongEnough(c: Call, now: Time) {
    var exp := ParseCredExpiry(c.username);
    exp.None? || exp.value * 1_000_000_000 - now >= 1_800_000_000_000
  }

  /** The ids of the links that have one. */
  method Normalized(rawLinks: seq<string>) returns (norm: seq<string>)
    ensures norm == LinkIds(rawLinks)
  {
    norm := [];
    for i := 0 to |rawLinks|
      invariant norm == LinkIds(rawLinks[..i])
    {
      assert rawLinks[..i + 1][..i] == rawLinks[..i];
      var id := LinkId(rawLinks[i]);
      if id != "" { norm := norm + [id]; }
    }
    assert rawLinks[..|rawLinks|] == rawLinks;
  }

  class Discovery {
    const world: World
    var enabled: bool
    var cookie: string
    var fatal: string
    var links: seq<string>
    var cache: map<string, Call>
    var relays: seq<Ref>
    var seen: set<string>
    var idx: nat
    var mints: nat  // mint calls made so far
    var looks: nat  // looks at the clock so far
    ghost var history: seq<Probe>

    /** The relay list is the simple deduplication of what the links discovered so far handed out, and
        each of those is what a mint of that link gave. */
    ghost predicate Valid()
      reads this
    {
      && idx == |history|
      && Noted(relays, seen, Offers(history))
      && HistoryOk(world, mints, history)
      && CacheOk(world, mints, cache)
    }

    constructor (world: World)
      ensures Valid() && this.world == world && !enabled && cookie == "" && links == [] && history == []
    {
      this.world := world;
      enabled, cookie, fatal, links := false, "", "", [];
      cache, relays, seen, idx, mints, looks, history := map[], [], {}, 0, 0, 0, [];
    }

    /** `SetVKCookieAuth` up to the lock: the new settings are there for every call to read. */
    method Publish(enable: bool, cookieHeader: string, rawLinks: seq<string>)
      requires Valid()
      modifies this`enabled, this`cookie, this`fatal, this`links
      ensures Valid() && enabled == enable && cookie == LinkCodec.TrimSpace(cookieHeader) && fatal == ""
      ensures history == old(history)
      ensures links == LinkIds(rawLinks)
    {
      enabled, cookie, fatal := enable, LinkCodec.TrimSpace(cookieHeader), "";
      links := Normalized(rawLinks);
    }

    /** The locked half of `SetVKCookieAuth`: everything learnt is forgotten. */
    method Clear()
      requires Valid()
      modifies this`cache, this`relays, this`seen, this`idx, this`history
      ensures Valid() && relays == [] && history == [] && cache == map[]
    {
      cache, relays, seen, idx, history := map[], [], {}, 0, [];
    }

    /** `cookieMintCachedLocked` */
    method MintCached(link: string) returns (r: Result<Call, string>)
      requires CacheOk(world, mints, cache)
      modifies this`cache, this`mints, this`looks
      ensures var cached := link in old(cache) && !Stale(old(cache)[link], world.clock(old(looks)));
              if cached then r == Ok(old(cache)[link]) && cache == old(cache) && mints == old(mints)
              else
                && mints == old(mints) + 1
                && r == world.mint(old(mints), link)
                && cache == if r.Ok? then old(cache)[link := r.value] else old(cache)
      ensures mints == old(mints) ==> r.Ok? && LongEnough(r.value, world.clock(old(looks)))
      ensures mints > old(mints) ==> link !in old(cache) || !LongEnough(old(cache)[link], world.clock(old(looks)))
      ensures r.Err? ==> mints > old(mints) && world.mint(mints - 1, link).Err?
      ensures looks == old(looks) + if link in old(cache) then 1 else 0
      ensures CacheOk(world, mints, cache)
      ensures Explained(world, mints, Probe(link, if r.Ok? then Some(r.value.addresses) else None))
    {
      if link in cache {
        var now := world.clock(looks);
        looks := looks + 1;
        if !Stale(cache[link], now) {
          assert Minted(world, mints, link, cache[link]);
          return Ok(cache[link]);
        }
      }
      r := world.mint(mints, link);
      mints := mints + 1;
      forall l | l in cache ensures Minted(world, mints, l, cache[l]) {
        assert Minted(world, old(mints), l, cache[l]);
      }
      if r.Ok? {
        cache := cache[link := r.value];
        assert Minted(world, mints, link, r.value);
      }
    }

    /** The inner loop of discovery: notes the addresses one link handed out. */
    method Note(link: string, addresses: seq<string>, ghost offers: seq<Ref>)
      requires Noted(relays, seen, offers)
      modifies this`relays, this`seen
      ensures Noted(relays, seen, offers + OffersOf(link, addresses))
    {
      assert offers + OffersOf(link, addresses[..0]) == offers;
      for i := 0 to |addresses|
        invariant Noted(relays, seen, offers + OffersOf(link, addresses[..i]))
      {
        var addr := addresses[i];
        OffersOfStep(offers, link, addresses, i);
        NoteOne(relays, seen, offers + OffersOf(link, addresses[..i]), Ref(addr, link));
        if addr != "" && addr !in seen {
          seen := seen + {addr};
          relays := relays + [Ref(addr, link)];
        }
      }
      assert addresses[..|addresses|] == addresses;
    }

    /** The mint of a discovery round, recorded in the history. */
    method MintNext(link: string) returns (r: Result<Call, string>, ghost p: Probe)
      requires Valid()
      modifies this`cache, this`mints, this`looks, this`idx, this`history
      ensures idx == |history| && history == old(history) + [p]
      ensures p == Probe(link, if r.Ok? then Some(r.value.addresses) else None)
      ensures Offers(history) == Offers(old(history)) + OfferAt(p)
      ensures HistoryOk(world, mints, history) && CacheOk(world, mints, cache) && mints >= old(mints)
      ensures r.Err? ==> mints > old(mints) && world.mint(mints - 1, link).Err?
    {
      idx := idx + 1;
      r := MintCached(link);
      p := Probe(link, if r.Ok? then Some(r.value.addresses) else None);
      HistoryAppend(world, old(mints), mints, history, p);
      history := history + [p];
    }

    /** One round of discovery: the next link is minted, and counted whether or not that works. */
    method DiscoverNext(ls: seq<string>) returns (failure: Option<string>, ghost p: Probe)
      requires Valid() && idx < |ls|
      modifies this`cache, this`mints, this`looks, this`relays, this`seen, this`idx, this`history
      ensures Valid() && mints >= old(mints)
      ensures history == old(history) + [p] && p.link == ls[|old(history)|] && (failure.Some? <==> p.got.None?)
      ensures failure.Some? ==> mints > old(mints) && world.mint(mints - 1, p.link).Err?
    {
      ghost var offers := Offers(history);
      var link := ls[idx];
      var r;
      r, p := MintNext(link);
      if r.Err? {
        assert offers + [] == offers;
        failure := Some(r.error);
      } else {
        Note(link, r.value.addresses, offers);
        failure := None;
      }
    }

    /** The discovery loop: mints links until slot s is covered, none is left, or a mint fails. */
    method Discover(ls: seq<string>, s: nat) returns (failure: Option<string>)
      requires Valid()
      modifies this`cache, this`mints, this`looks, this`relays, this`seen, this`idx, this`history
      ensures Valid() && mints >= old(mints)
      ensures Frugal(ls, old(history), history, s)
      ensures failure.Some? <==> Failed(old(history), history)
      ensures failure.Some? ==> mints > old(mints) && world.mint(mints - 1, history[|history| - 1].link).Err?
      ensures failure.None? ==> s < |relays| || idx >= |ls|
    {
      failure := None;
      while |relays| <= s && idx < |ls|
        invariant Valid() && mints >= old(mints)
        invariant Frugal(ls, old(history), history, s)
        invariant failure.None? && !Failed(old(history), history)
        decreases |ls| - idx
      {
        ghost var was, p := history, Probe("", None);
        failure, p := DiscoverNext(ls);
        FrugalStep(ls, old(history), was, p, s);
        if failure.Some? {
          return;
        }
      }
    }

    /** The cred of a relay, minted again if its link's cred is stale. */
    method Serve(ref: Ref) returns (r: Result<Cred, Failure>)
      requires Valid()
      modifies this`cache, this`mints, this`looks
      ensures Valid() && mints >= old(mints)
      ensures r.Ok? ==> CredOf(r.value, ref, cache)
      ensures r.Err? ==> r.error.MintFailed? && mints > old(mints) && world.mint(mints - 1, ref.link).Err?
      ensures r.Ok? && mints == old(mints) ==> LongEnough(cache[ref.link], world.clock(old(looks)))
    {
      var c := MintCached(ref.link);
      MoreMints(world, old(mints), mints, history);
      if c.Err? {
        return Err(MintFailed(c.error));
      }
      r := Ok(Cred(c.value.username, c.value.password, ref.address));
    }

    /** The locked section of `cookieCredForSlot`: discover, then serve. */
    method DiscoverAndServe(s: nat, ls: seq<string>) returns (r: Result<Cred, Failure>)
      requires Valid()
      modifies this`cache, this`mints, this`looks, this`relays, this`seen, this`idx, this`history
      ensures Valid() && mints >= old(mints)
      ensures Frugal(ls, old(history), history, s)
      ensures Answered(r, s, ls, relays, cache, old(history), history)
      ensures r.Err? && r.error.MintFailed? ==>
                mints > old(mints) && world.mint(mints - 1, Culprit(s, relays, old(history), history)).Err?
      ensures r.Err? && r.error.Unfilled? ==> idx >= |ls|
    {
      var failure := Discover(ls, s);
      if failure.Some? {
        return Err(MintFailed(failure.value));
      }
      if s >= |relays| {
        return Err(Unfilled(|relays|, |ls|));
      }
      r := Serve(relays[s]);
    }

    /** `cookieCredForSlot` after its reads. The cookie ch and the links ls were read before the lock, and may
        have been replaced since. */
    method CredForSlot(slot: int, ch: string, ls: seq<string>) returns (r: Result<Cred, Failure>)
      requires Valid()
      modifies this`cache, this`mints, this`looks, this`relays, this`seen, this`idx, this`history
      ensures Valid() && mints >= old(mints)
      ensures Frugal(ls, old(history), history, Wanted(slot))
      ensures r == Err(Rejected) <==> ch == ""
      ensures r == Err(NoLinks) <==> ch != "" && ls == []
      ensures ch == "" || ls == [] ==> history == old(history) && mints == old(mints)
      ensures ch != "" && ls != [] ==> Answered(r, Wanted(slot), ls, relays, cache, old(history), history)
      // a mint failure is reported only when the last mint made, of the link at fault, failed
      ensures r.Err? && r.error.MintFailed? ==>
                mints > old(mints) && world.mint(mints - 1, Culprit(Wanted(slot), relays, old(history), history)).Err?
      ensures r.Err? && r.error.Unfilled? ==> idx >= |ls|
    {
      if ch == "" {
        return Err(Rejected);
      }
      if ls == [] {
        return Err(NoLinks);
      }
      r := DiscoverAndServe(if slot < 0 then 0 else slot, ls);
    }
  }

  /** What a call for slot s answers once the links are there: the slot's relay with its link's current cred;
      that too few relays were found, exactly when that is so and no mint failed; or a mint failure. */
  ghost predicate Answered(r: Result<Cred, Failure>, s: nat, ls: seq<string>, relays: seq<Ref>,
                           cache: map<string, Call>, was: seq<Probe>, now: seq<Probe>)
  {
    match r
    case Ok(c) =>
      !Failed(was, now) && s < |relays| && CredOf(c, relays[s], cache)
    case Err(Unfilled(n, m)) => !Failed(was, now) && n == |relays| <= s && m == |ls|
    case Err(MintFailed(_)) => Failed(was, now) || s < |relays|
    case Err(_) => false
  }

  /** The cred for one relay: what its link's last mint gave, at that relay's address. */
  predicate CredOf(c: Cred, ref: Ref, cache: map<string, Call>) {
    ref.link in cache && c == Cred(cache[ref.link].username, cache[ref.link].password, ref.address)
  }

  /** The link whose mint is to blame. */
  function Culprit(s: nat, relays: seq<Ref>, was: seq<Probe>, now: seq<Probe>): string {
    if Failed(was, now) then now[|now| - 1].link else if s < |relays| then relays[s].link else ""
  }

  /** Discovery only appended, from the links ls in order, went no further than the first prefix that covers
      the slot, and stopped at a failure. */
  ghost predicate Frugal(ls: seq<string>, was: seq<Probe>, now: seq<Probe>, slot: nat) {
    && was <= now
    && (|was| < |now| ==> |now| <= |ls|)
    && (forall j :: |was| <= j < |now| ==> NeededAt(ls, now, slot, j))
    && (forall j :: |was| <= j < |now| - 1 ==> now[j].got.Some?)
  }

  /** Probe j is of link j, made when the probes before it did not cover the slot. */
  ghost predicate NeededAt(ls: seq<string>, h: seq<Probe>, slot: nat, j: nat)
    requires j < |h|
  {
    j < |ls| && h[j].link == ls[j] && |Relays(h[..j])| <= slot
  }

  /** The last of the new discoveries failed. */
  predicate Failed(was: seq<Probe>, now: seq<Probe>) {
    |was| < |now| && now[|now| - 1].got.None?
  }

  lemma FrugalStep(ls: seq<string>, was: seq<Probe>, now: seq<Probe>, p: Probe, slot: nat)
    requires Frugal(ls, was, now, slot) && |now| < |ls| && |Relays(now)| <= slot
    requires !Failed(was, now) && p.link == ls[|now|]
    ensures Frugal(ls, was, now + [p], slot)
  {
    var next := now + [p];
    assert next[..|now|] == now;
    forall j | |was| <= j < |next| ensures NeededAt(ls, next, slot, j) {
      if j < |now| {
        assert NeededAt(ls, now, slot, j);
        assert next[..j] == now[..j];
      }
    }
  }

  /** Every relay in the list was handed out by a mint of the link it is pinned to. */
  lemma RelayWasProvided(w: World, n: nat, h: seq<Probe>, i: nat) returns (c: Call)
    requires HistoryOk(w, n, h) && i < |Relays(h)|
    ensures var r := Relays(h)[i]; Minted(w, n, r.link, c) && r.address in c.addresses && r.address != ""
  {
    var offers := Offers(h);
    var p := RelayIsFirstOffer(offers, i);
    var j := OfferOrigin(h, offers[p]);
    assert Explained(w, n, h[j]);
    c :| Minted(w, n, h[j].link, c) && c.addresses == h[j].got.value;
  }

  function Wanted(slot: int): nat { if slot < 0 then 0 else slot }

  // ---------- whole runs between two clears ----------

  /** Successive discovery histories: each CredForSlot call only appends. */
  predicate Growing(run: seq<seq<Probe>>) {
    forall i :: 0 < i < |run| ==> run[i - 1] <= run[i]
  }

  lemma PrefixKeeps(a: seq<Ref>, b: seq<Ref>, slot: nat)
    requires a <= b && slot < |a|
    ensures slot < |b| && a[slot] == b[slot]
  {
  }

  /** Once a slot has a relay it keeps it, for every later call of the run. */
  lemma {:induction false} SlotRelayIsStable(run: seq<seq<Probe>>, i: nat, j: nat, slot: nat)
    requires Growing(run) && i <= j < |run| && slot < |Relays(run[i])|
    ensures slot < |Relays(run[j])| && Relays(run[j])[slot] == Relays(run[i])[slot]
    decreases j
  {
    if i < j {
      SlotRelayIsStable(run, i, j - 1, slot);
      var a, b := run[j - 1], run[j];
      RelaysPrefix(a, b);
      PrefixKeeps(Relays(a), Relays(b), slot);
    }
  }
}
