/**
 Two-stage ranking of slider-captcha candidates (pkg/proxy/captcha_slider.go): all candidates are ranked by
 luma, the best twelve also by colour and by text, and the ranks add up to the order they are tried in.

 The pixel scores are arbitrary functions of a candidate's tile mapping. Candidate i of the model is the
 source's candidate with index i + 1.
 */
module SliderRanking {
  import opened Basics
  import opened SliderTiles

  type Less = (nat, nat) -> bool

  // ---------- sorting ----------

  ghost predicate StrictOrder(less: Less, s: set<nat>) {
    && (forall a :: a in s ==> !less(a, a))
    && (forall a, b :: a in s && b in s && a != b ==> less(a, b) || less(b, a))
    && (forall a, b, c :: a in s && b in s && c in s && less(a, b) && less(b, c) ==> less(a, c))
  }

  ghost function Elements(r: seq<nat>): set<nat> { set x | x in r }

  /** r lists s without repetition, from least to greatest. */
  ghost predicate SortedListOf(r: seq<nat>, s: set<nat>, less: Less) {
    && Elements(r) == s
    && (forall i, j :: 0 <= i < j < |r| ==> r[i] != r[j] && less(r[i], r[j]))
  }

  /** How many elements of s come before x. */
  ghost function Rank(s: set<nat>, less: Less, x: nat): nat {
    |set y | y in s && less(y, x)|
  }

  function Insert(x: nat, r: seq<nat>, less: Less): (t: seq<nat>)
    ensures |t| == |r| + 1
  {
    if r == [] || less(x, r[0]) then [x] + r else [r[0]] + Insert(x, r[1..], less)
  }

  /** sort.SliceStable */
  function StableSort(s: seq<nat>, less: Less): (r: seq<nat>)
    ensures |r| == |s|
  {
    if s == [] then [] else Insert(s[|s| - 1], StableSort(s[..|s| - 1], less), less)
  }

  /** Putting a least element in front. */
  lemma ConsSorted(x: nat, r: seq<nat>, s: set<nat>, less: Less)
    requires SortedListOf(r, s, less) && x !in s && forall y :: y in s ==> less(x, y)
    ensures SortedListOf([x] + r, s + {x}, less)
  {
  }

  lemma TailSorted(r: seq<nat>, s: set<nat>, less: Less)
    requires SortedListOf(r, s, less) && r != []
    ensures SortedListOf(r[1..], s - {r[0]}, less) && r[0] in s
    ensures forall y :: y in s - {r[0]} ==> less(r[0], y)
  {
  }

  lemma {:induction false} InsertSorted(x: nat, r: seq<nat>, s: set<nat>, less: Less)
    requires SortedListOf(r, s, less) && x !in s && StrictOrder(less, s + {x})
    ensures SortedListOf(Insert(x, r, less), s + {x}, less)
  {
    if r == [] {
      assert s == {};
      ConsSorted(x, r, s, less);
    } else {
      TailSorted(r, s, less);
      if less(x, r[0]) {
        ConsSorted(x, r, s, less);
      } else {
        var s' := s - {r[0]};
        InsertSorted(x, r[1..], s', less);
        ConsSorted(r[0], Insert(x, r[1..], less), s' + {x}, less);
        assert s' + {x} + {r[0]} == s + {x};
      }
    }
  }

  lemma {:induction false} SortSorts(s: seq<nat>, less: Less)
    requires forall i, j :: 0 <= i < j < |s| ==> s[i] != s[j]
    requires StrictOrder(less, Elements(s))
    ensures SortedListOf(StableSort(s, less), Elements(s), less)
  {
    if s != [] {
      var n := |s| - 1;
      var init := s[..n];
      assert Elements(init) + {s[n]} == Elements(s);
      SortSorts(init, less);
      InsertSorted(s[n], StableSort(init, less), Elements(init), less);
    }
  }

  lemma NotAfter(r: seq<nat>, s: set<nat>, less: Less, p: nat, k: nat)
    requires SortedListOf(r, s, less) && StrictOrder(less, s) && p < |r| && k < |r| && less(r[k], r[p])
    ensures k < p
  {
  }

  /** In a sorted list the position of an element is its rank. */
  lemma PositionIsRank(r: seq<nat>, s: set<nat>, less: Less, p: nat)
    requires SortedListOf(r, s, less) && StrictOrder(less, s) && p < |r|
    ensures Rank(s, less, r[p]) == p
  {
    var before := set y | y in s && less(y, r[p]);
    assert r[p] in Elements(r);
    forall y ensures y in before <==> y in r[..p] {
      if y in before {
        assert y in Elements(r);
        var k :| 0 <= k < |r| && r[k] == y;
        NotAfter(r, s, less, p, k);
        assert r[..p][k] == y;
      }
      if y in r[..p] { assert y in Elements(r); }
    }
    assert before == Elements(r[..p]);
    DistinctCount(r[..p]);
  }

  lemma {:induction false} DistinctCount(r: seq<nat>)
    requires forall i, j :: 0 <= i < j < |r| ==> r[i] != r[j]
    ensures |Elements(r)| == |r|
  {
    if r != [] {
      var n := |r| - 1;
      DistinctCount(r[..n]);
      assert Elements(r) == Elements(r[..n]) + {r[n]};
    }
  }

  /** There is only one sorted list, so the order does not depend on the sorting algorithm. */
  lemma SortedListUnique(r: seq<nat>, t: seq<nat>, s: set<nat>, less: Less)
    requires SortedListOf(r, s, less) && SortedListOf(t, s, less) && StrictOrder(less, s)
    ensures r == t
  {
    DistinctCount(r);
    DistinctCount(t);
    forall p | 0 <= p < |r| ensures r[p] == t[p] {
      assert r[p] in Elements(r);
      assert r[p] in Elements(t);
      var q :| 0 <= q < |t| && t[q] == r[p];
      PositionIsRank(r, s, less, p);
      PositionIsRank(t, s, less, q);
    }
  }

  lemma RankBelow(s: set<nat>, less: Less, x: nat)
    requires x in s && !less(x, x)
    ensures Rank(s, less, x) < |s|
  {
    var before := set y | y in s && less(y, x);
    SubsetSize(before, s);
  }

  // ---------- the specification ----------

  datatype Puzzle = Puzzle(
    grid: int,
    swaps: seq<int>,
    luma: seq<int> -> int,
    rgb: seq<int> -> int,
    text: seq<int> -> real)

  function Count(p: Puzzle): nat { |p.swaps| / 2 }

  /** `buildSliderActiveSteps` */
  function ActiveSteps(swaps: seq<int>, candidateIndex: int): seq<int> {
    if candidateIndex <= 0 then [] else
      var end := candidateIndex * 2;
      swaps[..if end > |swaps| then |swaps| else end]
  }

  predicate GoodCandidate(p: Puzzle, i: nat) { GoodSteps(p.grid, ActiveSteps(p.swaps, i + 1)) }

  /** The tile mapping of candidate i. */
  function MappingOf(p: Puzzle, i: nat): seq<int> {
    if GoodCandidate(p, i) then Swapped(Identity(Tiles(p.grid)), ActiveSteps(p.swaps, i + 1)) else []
  }

  function Luma(p: Puzzle, i: nat): int { p.luma(MappingOf(p, i)) }
  function Rgb(p: Puzzle, i: nat): int { p.rgb(MappingOf(p, i)) }
  function Text(p: Puzzle, i: nat): real { p.text(MappingOf(p, i)) }

  predicate LumaLess(p: Puzzle, a: nat, b: nat) { Luma(p, a) < Luma(p, b) || (Luma(p, a) == Luma(p, b) && a < b) }
  predicate RgbLess(p: Puzzle, a: nat, b: nat) { Rgb(p, a) < Rgb(p, b) || (Rgb(p, a) == Rgb(p, b) && a < b) }
  predicate TextLess(p: Puzzle, a: nat, b: nat) { Text(p, a) < Text(p, b) || (Text(p, a) == Text(p, b) && a < b) }

  function ByLuma(p: Puzzle): Less { (a: nat, b: nat) => LumaLess(p, a, b) }
  function ByRgb(p: Puzzle): Less { (a: nat, b: nat) => RgbLess(p, a, b) }
  function ByText(p: Puzzle): Less { (a: nat, b: nat) => TextLess(p, a, b) }

  ghost function LumaRank(p: Puzzle, i: nat): nat {
    Rank(Below(Count(p)), ByLuma(p), i)
  }

  /** The candidates scored on all three metrics: those that fewer than twelve others beat on luma. */
  ghost function Stage2(p: Puzzle): set<nat> {
    set i | i in Below(Count(p)) && LumaRank(p, i) < 12
  }

  ghost function Consensus(p: Puzzle, i: nat): nat {
    LumaRank(p, i) +
    if i in Stage2(p)
    then Rank(Stage2(p), ByRgb(p), i) + Rank(Stage2(p), ByText(p), i)
    else Count(p)
  }

  /** The final order: consensus, then luma, then index. */
  ghost predicate FinalLess(p: Puzzle, a: nat, b: nat) {
    ByScore(p, Consensus(p, a), Consensus(p, b), a, b)
  }

  predicate ByScore(p: Puzzle, x: nat, y: nat, a: nat, b: nat) {
    x < y || (x == y && LumaLess(p, a, b))
  }

  /** Some candidate is beaten by none on luma. */
  lemma LumaWinner(p: Puzzle) returns (w: nat)
    requires Count(p) > 0
    ensures w < Count(p) && LumaRank(p, w) == 0
  {
    var r := LumaOrder(p);
    PositionIsRank(r, Below(Count(p)), ByLuma(p), 0);
    assert r[0] in Elements(r);
    w := r[0];
  }

  function Iota(n: nat): (r: seq<nat>)
    ensures |r| == n
  {
    seq(n, i => i)
  }

  lemma IotaElements(n: nat)
    ensures Elements(Iota(n)) == Below(n)
  {
    forall i | 0 <= i < n ensures i in Elements(Iota(n)) { assert Iota(n)[i] == i; }
  }

  ghost function LumaOrder(p: Puzzle): (r: seq<nat>)
    ensures |r| == Count(p)
    ensures SortedListOf(r, Below(Count(p)), ByLuma(p))
  {
    IotaElements(Count(p));
    SortSorts(Iota(Count(p)), ByLuma(p));
    StableSort(Iota(Count(p)), ByLuma(p))
  }

  /** Stage 2 is the first twelve of the luma order, or all. */
  lemma Stage2IsPrefix(p: Puzzle, r: seq<nat>)
    requires SortedListOf(r, Below(Count(p)), ByLuma(p))
    ensures |r| == Count(p)
    ensures Stage2(p) == Elements(r[..if Count(p) > 12 then 12 else Count(p)])
  {
    DistinctCount(r);
    var k := if Count(p) > 12 then 12 else Count(p);
    forall i ensures i in Stage2(p) <==> i in r[..k] {
      if i in Elements(r) {
        var q :| 0 <= q < |r| && r[q] == i;
        PositionIsRank(r, Below(Count(p)), ByLuma(p), q);
        if q < k { assert r[..k][q] == i; }
        if i in r[..k] {
          var q' :| 0 <= q' < k && r[..k][q'] == i;
          assert q == q';
        }
      }
    }
  }

  lemma Stage2Size(p: Puzzle)
    ensures |Stage2(p)| == if Count(p) > 12 then 12 else Count(p)
  {
    var r := LumaOrder(p);
    Stage2IsPrefix(p, r);
    DistinctCount(r[..if Count(p) > 12 then 12 else Count(p)]);
  }

  lemma LumaWinnerConsensus(p: Puzzle, w: nat)
    requires w < Count(p) && LumaRank(p, w) == 0
    ensures w in Stage2(p) && Consensus(p, w) <= 22
  {
    Stage2Size(p);
    RankBelow(Stage2(p), ByRgb(p), w);
    RankBelow(Stage2(p), ByText(p), w);
  }

  lemma OutsiderConsensus(p: Puzzle, x: nat)
    requires x < Count(p) && x !in Stage2(p)
    ensures Consensus(p, x) >= 25
  {
    RankBelow(Below(Count(p)), ByLuma(p), x);
  }

  /** A candidate that does at least as well as the luma winner was scored on all three metrics. */
  lemma WinnerInStage2(p: Puzzle, x: nat, w: nat)
    requires x < Count(p) && w < Count(p) && LumaRank(p, w) == 0
    requires Consensus(p, x) <= Consensus(p, w)
    ensures x in Stage2(p)
  {
    LumaWinnerConsensus(p, w);
    if x !in Stage2(p) {
      OutsiderConsensus(p, x);
      assert false;
    }
  }

  // ---------- the ranking itself ----------

  datatype Candidate = Candidate(index: nat, activeSteps: seq<int>, score: nat)

  ghost predicate Agree(s: set<nat>, less: Less, spec: Less) {
    forall a, b :: a in s && b in s ==> (less(a, b) <==> spec(a, b))
  }

  /** Sorting by stored scores sorts by the order they stand for, and gives ranks. */
  lemma SortFor(list: seq<nat>, s: set<nat>, less: Less, spec: Less)
    requires forall i, j :: 0 <= i < j < |list| ==> list[i] != list[j]
    requires Elements(list) == s && StrictOrder(spec, s) && Agree(s, less, spec)
    ensures var r := StableSort(list, less);
            SortedListOf(r, s, spec) && forall k :: 0 <= k < |r| ==> Rank(s, spec, r[k]) == k
  {
    var r := StableSort(list, less);
    SortSorts(list, less);
    forall i, j | 0 <= i < j < |r| ensures r[i] != r[j] && spec(r[i], r[j]) {
      assert r[i] in Elements(r) && r[j] in Elements(r);
    }
    forall k | 0 <= k < |r| ensures Rank(s, spec, r[k]) == k { PositionIsRank(r, s, spec, k); }
  }

  /** The loops that turn an order into a rank table. */
  method RankTable(order: seq<nat>, ghost s: set<nat>, ghost spec: Less) returns (m: map<nat, nat>)
    requires Elements(order) == s && forall k :: 0 <= k < |order| ==> Rank(s, spec, order[k]) == k
    ensures m.Keys == s && forall x :: x in s ==> m[x] == Rank(s, spec, x)
  {
    m := map[];
    for rank := 0 to |order|
      invariant m.Keys == Elements(order[..rank])
      invariant forall x :: x in m ==> m[x] == Rank(s, spec, x)
    {
      assert Elements(order[..rank + 1]) == Elements(order[..rank]) + {order[rank]};
      m := m[order[rank] := rank];
    }
    assert order[..|order|] == order;
  }

  lemma StepsOf(p: Puzzle, i: nat)
    requires i < Count(p)
    ensures ActiveSteps(p.swaps, i + 1) == p.swaps[..2 * (i + 1)]
  {
  }

  /** One candidate's mapping, scored on luma. */
  method ScoreLuma(p: Puzzle, i: nat) returns (r: Result<int, SliderError>)
    ensures r.Ok? <==> GoodCandidate(p, i)
    ensures r.Ok? ==> r.value == Luma(p, i)
    ensures r.Err? ==> r.error != NoCandidates
  {
    var active := ActiveSteps(p.swaps, i + 1);
    var mapping := TileMapping(p.grid, active);
    if mapping.Err? {
      return Err(mapping.error);
    }
    r := Ok(p.luma(mapping.value));
  }

  /** The first loop: every candidate's mapping is built and scored on luma. */
  method LumaScores(p: Puzzle) returns (r: Result<seq<int>, SliderError>)
    ensures r.Ok? <==> forall i :: 0 <= i < Count(p) ==> GoodCandidate(p, i)
    ensures r.Ok? ==> |r.value| == Count(p) && forall i :: 0 <= i < Count(p) ==> r.value[i] == Luma(p, i)
    ensures r.Err? ==> r.error != NoCandidates
  {
    var lumas := [];
    for idx := 1 to Count(p) + 1
      invariant |lumas| == idx - 1
      invariant forall i :: 0 <= i < idx - 1 ==> lumas[i] == Luma(p, i) && GoodCandidate(p, i)
    {
      var luma := ScoreLuma(p, idx - 1);
      if luma.Err? {
        return Err(luma.error);
      }
      lumas := lumas + [luma.value];
    }
    r := Ok(lumas);
  }

  /** The second loop: the finalists are scored on colour and text. */
  method FinalistScores(p: Puzzle, finalists: seq<nat>) returns (rgbs: map<nat, int>, texts: map<nat, real>)
    requires forall k :: 0 <= k < |finalists| ==> GoodCandidate(p, finalists[k])
    ensures rgbs.Keys == texts.Keys == Elements(finalists)
    ensures forall x :: x in rgbs ==> rgbs[x] == Rgb(p, x) && texts[x] == Text(p, x)
  {
    rgbs, texts := map[], map[];
    for i := 0 to |finalists|
      invariant rgbs.Keys == texts.Keys == Elements(finalists[..i])
      invariant forall x :: x in rgbs ==> rgbs[x] == Rgb(p, x) && texts[x] == Text(p, x)
    {
      var pos := finalists[i];
      var mapping := TileMapping(p.grid, ActiveSteps(p.swaps, pos + 1));
      assert mapping.value == MappingOf(p, pos);
      assert Elements(finalists[..i + 1]) == Elements(finalists[..i]) + {pos};
      rgbs, texts := rgbs[pos := p.rgb(mapping.value)], texts[pos := p.text(mapping.value)];
    }
    assert finalists[..|finalists|] == finalists;
  }

  ghost function ByFinal(p: Puzzle): Less { (a: nat, b: nat) => FinalLess(p, a, b) }

  lemma FinalStrict(p: Puzzle, s: set<nat>)
    ensures StrictOrder(ByFinal(p), s)
  {
  }

  lemma StageStrict(p: Puzzle, s: set<nat>)
    ensures StrictOrder(ByLuma(p), s) && StrictOrder(ByRgb(p), s) && StrictOrder(ByText(p), s)
  {
  }

  /** The finalists are distinct candidates, and are stage 2. */
  lemma FinalistFacts(p: Puzzle, order: seq<nat>)
    requires SortedListOf(order, Below(Count(p)), ByLuma(p))
    requires forall i :: 0 <= i < Count(p) ==> GoodCandidate(p, i)
    ensures |order| == Count(p)
    ensures var finalists := order[..if Count(p) > 12 then 12 else Count(p)];
            && Elements(finalists) == Stage2(p)
            && (forall i, j :: 0 <= i < j < |finalists| ==> finalists[i] != finalists[j])
            && (forall k :: 0 <= k < |finalists| ==> GoodCandidate(p, finalists[k]))
  {
    Stage2IsPrefix(p, order);
    forall k | 0 <= k < |order| ensures order[k] < Count(p) { assert order[k] in Elements(order); }
  }

  /** Stage 1: the luma order and its ranks. */
  method LumaStage(p: Puzzle, lumas: seq<int>) returns (order: seq<nat>, rank: map<nat, nat>)
    requires |lumas| == Count(p) && forall i :: 0 <= i < Count(p) ==> lumas[i] == Luma(p, i)
    ensures SortedListOf(order, Below(Count(p)), ByLuma(p))
    ensures rank.Keys == Below(Count(p)) && forall i :: i in rank ==> rank[i] == LumaRank(p, i)
  {
    var n := |lumas|;
    var less := (a: nat, b: nat) => a < n && b < n && (lumas[a] < lumas[b] || (lumas[a] == lumas[b] && a < b));
    IotaElements(n);
    StageStrict(p, Below(n));
    assert Agree(Below(n), less, ByLuma(p));
    SortFor(Iota(n), Below(n), less, ByLuma(p));
    order := StableSort(Iota(n), less);
    rank := RankTable(order, Below(n), ByLuma(p));
  }

  /** Stage 2: the sum of the colour and text ranks of each finalist. */
  method FinalistRanks(p: Puzzle, finalists: seq<nat>) returns (rgbRank: map<nat, nat>, textRank: map<nat, nat>)
    requires forall k :: 0 <= k < |finalists| ==> GoodCandidate(p, finalists[k])
    requires forall i, j :: 0 <= i < j < |finalists| ==> finalists[i] != finalists[j]
    ensures var s := Elements(finalists);
            && rgbRank.Keys == textRank.Keys == s
            && forall x :: x in s ==> rgbRank[x] == Rank(s, ByRgb(p), x) && textRank[x] == Rank(s, ByText(p), x)
  {
    ghost var s := Elements(finalists);
    var rgbs, texts := FinalistScores(p, finalists);
    StageStrict(p, s);
    var rgbLess := (a: nat, b: nat) => a in rgbs && b in rgbs && (rgbs[a] < rgbs[b] || (rgbs[a] == rgbs[b] && a < b));
    assert Agree(s, rgbLess, ByRgb(p));
    SortFor(finalists, s, rgbLess, ByRgb(p));
    rgbRank := RankTable(StableSort(finalists, rgbLess), s, ByRgb(p));
    var textLess := (a: nat, b: nat) =>
      a in texts && b in texts && (texts[a] < texts[b] || (texts[a] == texts[b] && a < b));
    assert Agree(s, textLess, ByText(p));
    SortFor(finalists, s, textLess, ByText(p));
    textRank := RankTable(StableSort(finalists, textLess), s, ByText(p));
  }

  /** The consensus of every candidate. */
  method ConsensusScores(p: Puzzle, lumas: seq<int>) returns (scores: seq<nat>)
    requires |lumas| == Count(p) && forall i :: 0 <= i < Count(p) ==> lumas[i] == Luma(p, i)
    requires forall i :: 0 <= i < Count(p) ==> GoodCandidate(p, i)
    ensures |scores| == Count(p) && forall i :: 0 <= i < Count(p) ==> scores[i] == Consensus(p, i)
  {
    var n := Count(p);
    var order, lumaRank := LumaStage(p, lumas);
    FinalistFacts(p, order);
    var stage2Count := n;
    if stage2Count > 12 { stage2Count := 12; }
    var finalists := order[..stage2Count];
    var rgbRank, textRank := FinalistRanks(p, finalists);
    scores := SumRanks(n, lumaRank, rgbRank, textRank);
    forall i | 0 <= i < n ensures scores[i] == Consensus(p, i) {
      assert i in Below(n);
      ConsensusIs(p, i, lumaRank, rgbRank, textRank);
    }
  }

  /** The loop that adds the ranks up. */
  method SumRanks(n: nat, lumaRank: map<nat, nat>, rgbRank: map<nat, nat>, textRank: map<nat, nat>)
    returns (scores: seq<nat>)
    requires lumaRank.Keys == Below(n) && rgbRank.Keys == textRank.Keys
    ensures |scores| == n && forall i :: 0 <= i < n ==> scores[i] == RankSum(n, lumaRank, rgbRank, textRank, i)
  {
    scores := [];
    for i := 0 to n
      invariant |scores| == i
      invariant forall k :: 0 <= k < i ==> scores[k] == RankSum(n, lumaRank, rgbRank, textRank, k)
    {
      var c := lumaRank[i];
      if i in rgbRank {
        c := c + rgbRank[i] + textRank[i];
      } else {
        c := c + n;
      }
      scores := scores + [c];
    }
  }

  function RankSum(n: nat, lumaRank: map<nat, nat>, rgbRank: map<nat, nat>, textRank: map<nat, nat>, i: nat): nat
    requires i in lumaRank && rgbRank.Keys == textRank.Keys
  {
    lumaRank[i] + if i in rgbRank then rgbRank[i] + textRank[i] else n
  }

  lemma ConsensusIs(p: Puzzle, i: nat, lumaRank: map<nat, nat>, rgbRank: map<nat, nat>, textRank: map<nat, nat>)
    requires i in lumaRank && lumaRank[i] == LumaRank(p, i)
    requires rgbRank.Keys == textRank.Keys == Stage2(p)
    requires i in rgbRank ==> rgbRank[i] == Rank(Stage2(p), ByRgb(p), i)
    requires i in rgbRank ==> textRank[i] == Rank(Stage2(p), ByText(p), i)
    ensures RankSum(Count(p), lumaRank, rgbRank, textRank, i) == Consensus(p, i)
  {
  }

  /** The candidates in the given order, each with its steps and its score. */
  function Listed(swaps: seq<int>, order: seq<nat>, scores: seq<nat>): seq<Candidate>
    requires forall k :: 0 <= k < |order| ==> order[k] < |scores|
  {
    seq(|order|, k requires 0 <= k < |order| =>
      Candidate(order[k] + 1, ActiveSteps(swaps, order[k] + 1), scores[order[k]]))
  }

  /** `rankSliderCandidates` */
  method RankCandidates(p: Puzzle)
    returns (r: Result<seq<Candidate>, SliderError>, ghost order: seq<nat>, ghost scores: seq<nat>)
    ensures r == Err(NoCandidates) <==> Count(p) == 0
    ensures r.Ok? <==> Count(p) > 0 && forall i :: 0 <= i < Count(p) ==> GoodCandidate(p, i)
    ensures r.Ok? ==>
              && SortedListOf(order, Below(Count(p)), ByFinal(p))
              && |order| == |scores| == Count(p)
              && (forall i :: 0 <= i < Count(p) ==> order[i] < Count(p) && scores[i] == Consensus(p, i))
              && r.value == Listed(p.swaps, order, scores)
              && order[0] in Stage2(p)
  {
    order, scores := [], [];
    if Count(p) == 0 {
      return Err(NoCandidates), [], [];
    }
    var scored := LumaScores(p);
    if scored.Err? {
      return Err(scored.error), [], [];
    }
    var consensus := ConsensusScores(p, scored.value);
    var all := FinalOrder(p, scored.value, consensus);
    FirstInStage2(p, all);
    forall k | 0 <= k < |all| ensures all[k] < Count(p) { assert all[k] in Elements(all); }
    var candidates := List(p.swaps, all, consensus);
    return Ok(candidates), all, consensus;
  }

  /** The last sort. */
  method FinalOrder(p: Puzzle, lumas: seq<int>, scores: seq<nat>) returns (all: seq<nat>)
    requires |lumas| == Count(p) && forall i :: 0 <= i < Count(p) ==> lumas[i] == Luma(p, i)
    requires |scores| == Count(p) && forall i :: 0 <= i < Count(p) ==> scores[i] == Consensus(p, i)
    ensures SortedListOf(all, Below(Count(p)), ByFinal(p)) && |all| == Count(p)
  {
    var n := Count(p);
    var less := (a: nat, b: nat) =>
      a < |scores| && b < |scores| && |lumas| == |scores| &&
      (if scores[a] != scores[b] then scores[a] < scores[b]
       else if lumas[a] != lumas[b] then lumas[a] < lumas[b]
       else a < b);
    IotaElements(n);
    FinalStrict(p, Below(n));
    forall a, b | a in Below(n) && b in Below(n) ensures less(a, b) <==> ByFinal(p)(a, b) {
    }
    SortFor(Iota(n), Below(n), less, ByFinal(p));
    all := StableSort(Iota(n), less);
  }

  /** The last loop: the candidates in their final order. */
  method List(swaps: seq<int>, all: seq<nat>, scores: seq<nat>) returns (candidates: seq<Candidate>)
    requires forall k :: 0 <= k < |all| ==> all[k] < |scores|
    ensures candidates == Listed(swaps, all, scores)
  {
    candidates := [];
    for i := 0 to |all|
      invariant candidates == Listed(swaps, all, scores)[..i]
    {
      candidates := candidates + [Candidate(all[i] + 1, ActiveSteps(swaps, all[i] + 1), scores[all[i]])];
    }
  }

  /** The candidate tried first was scored on all three metrics. */
  lemma FirstInStage2(p: Puzzle, order: seq<nat>)
    requires SortedListOf(order, Below(Count(p)), ByFinal(p)) && order != []
    ensures order[0] in Stage2(p)
  {
    assert order[0] in Elements(order);
    var w := LumaWinner(p);
    assert w in Elements(order);
    var k :| 0 <= k < |order| && order[k] == w;
    assert k > 0 ==> ByFinal(p)(order[0], order[k]);
    WinnerInStage2(p, order[0], w);
  }

  /** All candidates are acceptable exactly when the grid is not empty and every paired step names a tile. */
  lemma AllStepsGoodIff(p: Puzzle)
    requires Count(p) > 0
    ensures (forall i :: 0 <= i < Count(p) ==> GoodCandidate(p, i)) <==>
            p.grid != 0 && StepsInRange(Tiles(p.grid), p.swaps[..2 * Count(p)])
  {
    var n := Count(p);
    var all := p.swaps[..2 * n];
    StepsOf(p, n - 1);
    if p.grid != 0 && StepsInRange(Tiles(p.grid), all) {
      forall i | 0 <= i < n ensures GoodCandidate(p, i) {
        StepsOf(p, i);
        var steps := p.swaps[..2 * (i + 1)];
        assert forall k :: 0 <= k < |steps| ==> steps[k] == all[k];
      }
    } else {
      assert !GoodCandidate(p, n - 1);
    }
  }

  // ---------- the ranking in numbers ----------

  /** Candidate i is the image after the first i + 1 pairs of swaps. */
  lemma CandidateMapping(p: Puzzle, i: nat)
    requires i < Count(p) && GoodCandidate(p, i)
    ensures var steps := p.swaps[..2 * i + 2];
            && |steps| % 2 == 0 && StepsInRange(Tiles(p.grid), steps)
            && MappingOf(p, i) == Swapped(Identity(Tiles(p.grid)), steps)
  {
    StepsOf(p, i);
  }

  /** The candidates in s with a better score than i on one metric, or an equal one and a lower index. */
  ghost function BeatersOnLuma(p: Puzzle, s: set<nat>, i: nat): set<nat> {
    set j | j in s && (p.luma(MappingOf(p, j)) < p.luma(MappingOf(p, i)) ||
                       (p.luma(MappingOf(p, j)) == p.luma(MappingOf(p, i)) && j < i))
  }

  ghost function BeatersOnRgb(p: Puzzle, s: set<nat>, i: nat): set<nat> {
    set j | j in s && (p.rgb(MappingOf(p, j)) < p.rgb(MappingOf(p, i)) ||
                       (p.rgb(MappingOf(p, j)) == p.rgb(MappingOf(p, i)) && j < i))
  }

  ghost function BeatersOnText(p: Puzzle, s: set<nat>, i: nat): set<nat> {
    set j | j in s && (p.text(MappingOf(p, j)) < p.text(MappingOf(p, i)) ||
                       (p.text(MappingOf(p, j)) == p.text(MappingOf(p, i)) && j < i))
  }

  lemma RanksCountBeaters(p: Puzzle, s: set<nat>, i: nat)
    ensures Rank(s, ByLuma(p), i) == |BeatersOnLuma(p, s, i)|
    ensures Rank(s, ByRgb(p), i) == |BeatersOnRgb(p, s, i)|
    ensures Rank(s, ByText(p), i) == |BeatersOnText(p, s, i)|
  {
    assert (set y | y in s && ByLuma(p)(y, i)) == BeatersOnLuma(p, s, i);
    assert (set y | y in s && ByRgb(p)(y, i)) == BeatersOnRgb(p, s, i);
    assert (set y | y in s && ByText(p)(y, i)) == BeatersOnText(p, s, i);
  }

  /** The twelve best on luma, or all. */
  ghost function Best(p: Puzzle): set<nat> {
    set j | j in Below(|p.swaps| / 2) && |BeatersOnLuma(p, Below(|p.swaps| / 2), j)| < 12
  }

  lemma BestIsStage2(p: Puzzle)
    ensures Best(p) == Stage2(p)
  {
    forall j ensures j in Best(p) <==> j in Stage2(p) { RanksCountBeaters(p, Below(Count(p)), j); }
  }

  /** The score of a candidate: how many beat it on luma, and for one of the best twelve on luma how many of
      those beat it on colour and on text as well, for any other the number of candidates. */
  lemma ScoreMeaning(p: Puzzle, i: nat)
    requires i < Count(p)
    ensures var n := |p.swaps| / 2; var onLuma := |BeatersOnLuma(p, Below(n), i)|;
            Consensus(p, i) ==
            onLuma + if onLuma < 12 then |BeatersOnRgb(p, Best(p), i)| + |BeatersOnText(p, Best(p), i)| else n
  {
    BestIsStage2(p);
    RanksCountBeaters(p, Below(Count(p)), i);
    RanksCountBeaters(p, Best(p), i);
  }

  lemma RankingEntries(p: Puzzle, order: seq<nat>, scores: seq<nat>)
    requires |scores| == Count(p) && forall k :: 0 <= k < |order| ==> order[k] < |scores|
    ensures var list := Listed(p.swaps, order, scores);
            forall k :: 0 <= k < |list| ==> EntryMeans(p, scores, list[k]) && list[k].index == order[k] + 1
  {
    var list := Listed(p.swaps, order, scores);
    forall k | 0 <= k < |list| ensures EntryMeans(p, scores, list[k]) && list[k].index == order[k] + 1 {
      StepsOf(p, order[k]);
    }
  }

  predicate Ranked(p: Puzzle, order: seq<nat>, scores: seq<nat>)
    requires forall k :: 0 <= k < |order| ==> order[k] < |scores|
  {
    forall a, b :: 0 <= a < b < |order| ==> ByScore(p, scores[order[a]], scores[order[b]], order[a], order[b])
  }

  lemma SortedIsRanked(p: Puzzle, order: seq<nat>, scores: seq<nat>)
    requires SortedListOf(order, Below(Count(p)), ByFinal(p)) && |scores| == Count(p)
    requires forall i :: 0 <= i < Count(p) ==> scores[i] == Consensus(p, i)
    requires forall k :: 0 <= k < |order| ==> order[k] < |scores|
    ensures Ranked(p, order, scores)
  {
    forall a, b | 0 <= a < b < |order|
      ensures ByScore(p, scores[order[a]], scores[order[b]], order[a], order[b])
    {
      FinalIsByScore(p, order[a], order[b]);
    }
  }

  lemma RankedOrder(p: Puzzle, order: seq<nat>, scores: seq<nat>)
    requires forall k :: 0 <= k < |order| ==> order[k] < |scores|
    requires Ranked(p, order, scores)
    ensures var list := Listed(p.swaps, order, scores);
            forall a, b :: 0 <= a < b < |list| ==> Before(p, list[a], list[b])
  {
    var list := Listed(p.swaps, order, scores);
    forall a, b | 0 <= a < b < |list| ensures Before(p, list[a], list[b]) {
      ScoreOrder(p, list[a], list[b]);
    }
  }

  /** What the list holds: each index from 1 to n once, with its pairs of swaps and its score, from the least
      score up, equal scores by luma and equal lumas by index. */
  lemma RankingMeaning(p: Puzzle, order: seq<nat>, scores: seq<nat>)
    requires SortedListOf(order, Below(Count(p)), ByFinal(p)) && |scores| == Count(p)
    requires forall i :: 0 <= i < Count(p) ==> scores[i] == Consensus(p, i)
    requires forall k :: 0 <= k < |order| ==> order[k] < |scores|
    ensures var list := Listed(p.swaps, order, scores);
            && |list| == |p.swaps| / 2
            && (forall k :: 0 <= k < |list| ==> EntryMeans(p, scores, list[k]))
            && (forall a, b :: 0 <= a < b < |list| ==> Before(p, list[a], list[b]))
  {
    DistinctCount(order);
    RankingEntries(p, order, scores);
    SortedIsRanked(p, order, scores);
    RankedOrder(p, order, scores);
  }

  lemma FinalIsByScore(p: Puzzle, a: nat, b: nat)
    requires ByFinal(p)(a, b)
    ensures ByScore(p, Consensus(p, a), Consensus(p, b), a, b)
  {
  }

  lemma ScoreOrder(p: Puzzle, a: Candidate, b: Candidate)
    requires a.index >= 1 && b.index >= 1 && ByScore(p, a.score, b.score, a.index - 1, b.index - 1)
    ensures Before(p, a, b)
  {
  }

  predicate EntryMeans(p: Puzzle, scores: seq<nat>, c: Candidate) {
    && 1 <= c.index <= |scores| == |p.swaps| / 2
    && c.activeSteps == p.swaps[..2 * c.index]
    && c.score == scores[c.index - 1]
  }

  predicate Before(p: Puzzle, a: Candidate, b: Candidate) {
    a.index >= 1 && b.index >= 1 &&
    var x, y := Luma(p, a.index - 1), Luma(p, b.index - 1);
    a.score < b.score || (a.score == b.score && (x < y || (x == y && a.index < b.index)))
  }
}
