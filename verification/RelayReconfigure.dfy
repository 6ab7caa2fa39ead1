/**
 Relay discovery while the settings change. A call reads the links before it takes the lock
 (pkg/proxy/creds_vkcookie.go:140-152) and a reconfiguration publishes its links before it clears what was
 discovered, so a call may discover with links that are no longer configured.
 */
module RelayReconfigure {
  import opened Basics
  import opened CredEntry
  import opened RelayDiscovery

  /** Calls read the links before they take the lock, and a reconfiguration publishes the new links before
      it clears the history: `clearing` says that the clear is still to come. */
  datatype Site = Site(links: seq<string>, history: seq<Probe>, clearing: bool, reading: map<nat, seq<string>>)

  datatype Act =
    | Publish(ls: seq<string>)
    | Clear
    | Read(call: nat)
    | Discover(call: nat, got: seq<Outcome>)

  predicate CanAct(s: Site, a: Act) {
    match a
    case Publish(_) => !s.clearing
    case Clear => s.clearing
    case Read(c) => c !in s.reading
    case Discover(c, got) => c in s.reading && (got != [] ==> |s.history| + |got| <= |s.reading[c]|)
  }

  function Probes(ls: seq<string>, at: nat, got: seq<Outcome>): (r: seq<Probe>)
    requires got != [] ==> at + |got| <= |ls|
    ensures |r| == |got|
  {
    seq(|got|, i requires 0 <= i < |got| => Probe(ls[at + i], got[i]))
  }

  function Acted(s: Site, a: Act): Site
    requires CanAct(s, a)
  {
    match a
    case Publish(ls) => s.(links := ls, clearing := true)
    case Clear => s.(history := [], clearing := false)
    case Read(c) => s.(reading := s.reading[c := s.links])
    case Discover(c, got) =>
      s.(history := s.history + Probes(s.reading[c], |s.history|, got), reading := s.reading - {c})
  }

  /** The locked section of a call is such a step. */
  lemma CallIsDiscover(s: Site, c: nat, was: seq<Probe>, now: seq<Probe>, slot: nat) returns (got: seq<Outcome>)
    requires c in s.reading && s.history == was && Frugal(s.reading[c], was, now, slot)
    ensures CanAct(s, Discover(c, got)) && Acted(s, Discover(c, got)).history == now
  {
    var n := |was|;
    got := seq(|now| - n, i requires 0 <= i < |now| - n => now[n + i].got);
    assert now == was + now[n..];
    forall i | 0 <= i < |got| ensures now[n..][i] == Probe(s.reading[c][n + i], got[i]) {
      assert NeededAt(s.reading[c], now, slot, n + i);
    }
    assert now[n..] == Probes(s.reading[c], n, got);
  }

  // ---------- the object goes through the same steps ----------

  ghost predicate Mirrors(d: Discovery, s: Site)
    reads d
  {
    d.Valid() && d.links == s.links && d.history == s.history
  }

  /** `SetVKCookieAuth`: a publish, then a clear. */
  method Reconfigure(d: Discovery, enable: bool, cookieHeader: string, rawLinks: seq<string>, ghost s: Site)
    returns (ghost t: Site)
    requires Mirrors(d, s) && !s.clearing
    modifies d
    ensures Mirrors(d, t) && t == Acted(Acted(s, Publish(LinkIds(rawLinks))), Clear)
  {
    d.Publish(enable, cookieHeader, rawLinks);
    t := Acted(s, Publish(LinkIds(rawLinks)));
    assert Mirrors(d, t);
    d.Clear();
    t := Acted(t, Clear);
  }

  /** The first half of `cookieCredForSlot`: cookie and links are read. */
  method ReadSettings(d: Discovery, ghost s: Site, ghost call: nat)
    returns (ch: string, ls: seq<string>, ghost t: Site)
    requires Mirrors(d, s) && call !in s.reading
    ensures Mirrors(d, t) && t == Acted(s, Read(call)) && ls == t.reading[call]
  {
    ch, ls := d.cookie, d.links;
    t := Acted(s, Read(call));
  }

  /** The second half, whatever happened to the settings since. */
  method CredWith(d: Discovery, slot: int, ch: string, ls: seq<string>, ghost s: Site, ghost call: nat)
    returns (r: Result<Cred, Failure>, ghost t: Site, ghost got: seq<Outcome>)
    requires Mirrors(d, s) && call in s.reading && ls == s.reading[call]
    modifies d
    ensures Mirrors(d, t) && CanAct(s, Discover(call, got)) && t == Acted(s, Discover(call, got))
  {
    r := d.CredForSlot(slot, ch, ls);
    got := CallIsDiscover(s, call, s.history, d.history, Wanted(slot));
    t := Acted(s, Discover(call, got));
  }

  // ---------- exactly when the list is about the configured links ----------

  /** The history is about the configured links, in order, unless a clear is still to come. */
  predicate OnConfigured(s: Site) {
    !s.clearing ==>
      |s.history| <= |s.links| && forall k :: 0 <= k < |s.history| ==> s.history[k].link == s.links[k]
  }

  /** Position k of the links read is no longer configured. */
  predicate Replaced(links: seq<string>, ls: seq<string>, k: nat)
    requires k < |ls|
  {
    k >= |links| || links[k] != ls[k]
  }

  /** A locked section that discovers with links other than the configured ones. */
  predicate Late(s: Site, a: Act)
    requires CanAct(s, a)
  {
    && a.Discover? && !s.clearing
    && exists k :: |s.history| <= k < |s.history| + |a.got| && Replaced(s.links, s.reading[a.call], k)
  }

  predicate ActRun(s: Site, acts: seq<Act>)
    decreases acts
  {
    acts == [] || (CanAct(s, acts[0]) && ActRun(Acted(s, acts[0]), acts[1..]))
  }

  predicate AlwaysOnConfigured(s: Site, acts: seq<Act>)
    requires ActRun(s, acts)
    decreases acts
  {
    OnConfigured(s) && (acts == [] || AlwaysOnConfigured(Acted(s, acts[0]), acts[1..]))
  }

  predicate NeverLate(s: Site, acts: seq<Act>)
    requires ActRun(s, acts)
    decreases acts
  {
    acts == [] || (!Late(s, acts[0]) && NeverLate(Acted(s, acts[0]), acts[1..]))
  }

  lemma LateBreaks(s: Site, a: Act)
    requires OnConfigured(s) && CanAct(s, a)
    ensures OnConfigured(Acted(s, a)) <==> !Late(s, a)
  {
    if a.Discover? && !s.clearing {
      var ls, at, h := s.reading[a.call], |s.history|, Acted(s, a).history;
      forall k | at <= k < |h| ensures k < |ls| && h[k].link == ls[k] {
        assert h[k] == Probes(ls, at, a.got)[k - at];
      }
      if k :| at <= k < |h| && Replaced(s.links, ls, k) {
        assert h[k].link == ls[k];
      } else {
        forall k | 0 <= k < |h| ensures k < |s.links| && h[k].link == s.links[k] {
          if k >= at { assert !Replaced(s.links, ls, k); }
        }
        assert |h| > 0 ==> h[|h| - 1].link == s.links[|h| - 1];
      }
    }
  }

  /** In every run the list holds configured links only, in order, if and only if no locked section
      discovers with links that were replaced since it read them. */
  lemma {:induction false} OnConfiguredIff(s: Site, acts: seq<Act>)
    requires ActRun(s, acts) && OnConfigured(s)
    ensures AlwaysOnConfigured(s, acts) <==> NeverLate(s, acts)
    decreases acts
  {
    if acts != [] {
      LateBreaks(s, acts[0]);
      if OnConfigured(Acted(s, acts[0])) { OnConfiguredIff(Acted(s, acts[0]), acts[1..]); }
    }
  }

  /** A call that read link A before the reconfiguration to B: A's relay is in the new list, and B, whose
      place is taken, is never discovered. */
  lemma LateCall()
    ensures var s0 := Site(["A"], [], false, map[]);
            var s1 := Acted(s0, Read(0));
            var s2 := Acted(Acted(s1, Publish(["B"])), Clear);
            var late := Discover(0, [Some(["r"])]);
            && OnConfigured(s0) && CanAct(s2, late) && Late(s2, late)
            && var t := Acted(s2, late);
            && t.links == ["B"] && t.history == [Probe("A", Some(["r"]))] && Relays(t.history) == [Ref("r", "A")]
            && forall c, got :: c !in t.reading && CanAct(Acted(t, Read(c)), Discover(c, got)) ==> got == []
  {
    OneProbe(Probe("A", Some(["r"])));
    OneOffer(Ref("r", "A"));
    assert OffersOf("A", ["r"]) == [Ref("r", "A")];
    assert Replaced(["B"], ["A"], 0) by { assert "A"[0] != "B"[0]; }
  }
}
