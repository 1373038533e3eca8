/**
 From index traversals to the ranked list: a bounded traversal in rounds, a total order,
 stable promotion of metadata matches, greedy diversification of the head, and the page of
 the list of results. Nearness of two assets' vectors is an abstract relation.
 */
module SemanticRanking {
  import opened Wrappers
  import opened GalleryRows
  import opened GalleryPaging
  import opened SemanticResults

  const EF_SEARCH := 256
  const VISIT_BUDGET := 4096
  const DIVERSITY_HEAD := 80

  // -------------------------------------------------------------------------- the order

  /** Similarity and capture time descending, then source key and asset id ascending. */
  predicate Better(a: Candidate, b: Candidate) {
    if a.similarity != b.similarity then a.similarity > b.similarity
    else if a.capturedAt != b.capturedAt then a.capturedAt > b.capturedAt
    else if a.source != b.source then a.source < b.source
    else a.id < b.id
  }

  predicate AtLeast(a: Candidate, b: Candidate) {
    a == b || Better(a, b)
  }

  ghost predicate Ranked(cs: seq<Candidate>) {
    forall i, j | 0 <= i < j < |cs| :: AtLeast(cs[i], cs[j])
  }

  function Insert(c: Candidate, cs: seq<Candidate>): (r: seq<Candidate>)
    ensures multiset(r) == multiset{c} + multiset(cs)
  {
    if cs == [] || AtLeast(c, cs[0]) then [c] + cs
    else
      assert cs == [cs[0]] + cs[1..];
      [cs[0]] + Insert(c, cs[1..])
  }

  function Sort(cs: seq<Candidate>): (r: seq<Candidate>)
    ensures multiset(r) == multiset(cs)
  {
    if cs == [] then []
    else
      assert cs == [cs[0]] + cs[1..];
      Insert(cs[0], Sort(cs[1..]))
  }

  lemma {:induction false} InsertKeepsRanked(c: Candidate, cs: seq<Candidate>)
    requires Ranked(cs)
    ensures Ranked(Insert(c, cs))
  {
    if cs != [] && !AtLeast(c, cs[0]) {
      InsertKeepsRanked(c, cs[1..]);
      var rest := Insert(c, cs[1..]);
      forall x | x in rest ensures AtLeast(cs[0], x) {
        assert x in multiset(rest);
        assert x == c || x in cs[1..];
      }
    }
  }

  lemma {:induction false} SortRanks(cs: seq<Candidate>)
    ensures Ranked(Sort(cs))
  {
    if cs != [] {
      SortRanks(cs[1..]);
      InsertKeepsRanked(cs[0], Sort(cs[1..]));
    }
  }

  /** More similar, or as similar and captured later, or equal in both and earlier by key. */
  predicate NoWorse(a: Candidate, b: Candidate) {
    && a.similarity >= b.similarity
    && (a.similarity == b.similarity ==> a.capturedAt >= b.capturedAt)
    && (a.similarity == b.similarity && a.capturedAt == b.capturedAt ==>
          a.source < b.source || (a.source == b.source && a.id <= b.id))
  }

  ghost predicate BestFirst(cs: seq<Candidate>) {
    forall i, j | 0 <= i < j < |cs| :: NoWorse(cs[i], cs[j])
  }

  lemma SortIsBestFirst(cs: seq<Candidate>)
    ensures BestFirst(Sort(cs))
  {
    SortRanks(cs);
    forall i, j | 0 <= i < j < |Sort(cs)| ensures NoWorse(Sort(cs)[i], Sort(cs)[j]) {
      assert AtLeast(Sort(cs)[i], Sort(cs)[j]);
    }
  }

  /** The ranking of a snapshot is determined by its candidates, not by the order they were found in. */
  lemma {:induction false} RankingUnique(a: seq<Candidate>, b: seq<Candidate>)
    requires Ranked(a) && Ranked(b) && multiset(a) == multiset(b)
    ensures a == b
  {
    assert |a| == |multiset(a)| && |b| == |multiset(b)|;
    if a != [] {
      SameBest(a, b);
      WithoutFirst(a);
      WithoutFirst(b);
      RankingUnique(a[1..], b[1..]);
    }
  }

  lemma SameBest(a: seq<Candidate>, b: seq<Candidate>)
    requires Ranked(a) && Ranked(b) && multiset(a) == multiset(b) && a != [] && b != []
    ensures a[0] == b[0]
  {
    assert a[0] in multiset(b) && b[0] in multiset(a);
    assert AtLeast(a[0], b[0]) && AtLeast(b[0], a[0]);
  }

  lemma WithoutFirst(a: seq<Candidate>)
    requires a != []
    ensures multiset(a[1..]) == multiset(a) - multiset{a[0]} && a == [a[0]] + a[1..]
  {
    assert a == [a[0]] + a[1..];
  }

  lemma SortDependsOnCandidates(a: seq<Candidate>, b: seq<Candidate>)
    requires multiset(a) == multiset(b)
    ensures Sort(a) == Sort(b)
  {
    SortRanks(a);
    SortRanks(b);
    RankingUnique(Sort(a), Sort(b));
  }

  // ------------------------------------------------------------------ bounded traversal

  predicate Within(streams: seq<seq<Candidate>>, visits: seq<nat>, budget: nat) {
    |visits| == |streams| && forall i | 0 <= i < |streams| :: visits[i] <= budget && visits[i] <= |streams[i]|
  }

  function Visited(streams: seq<seq<Candidate>>, visits: seq<nat>): (all: seq<Candidate>)
    requires |visits| == |streams| && forall i | 0 <= i < |streams| :: visits[i] <= |streams[i]|
  {
    if streams == [] then [] else streams[0][..visits[0]] + Visited(streams[1..], visits[1..])
  }

  function Budget(stream: seq<Candidate>): (n: nat)
    ensures n <= |stream| && n <= VISIT_BUDGET && n == if |stream| < 4096 then |stream| else 4096
  {
    Min(VISIT_BUDGET, |stream|)
  }

  /** The first candidates of every traversal, up to the budget. */
  function Snapshot(streams: seq<seq<Candidate>>): seq<Candidate> {
    if streams == [] then [] else streams[0][..Budget(streams[0])] + Snapshot(streams[1..])
  }

  lemma {:induction false} VisitMore(streams: seq<seq<Candidate>>, visits: seq<nat>, i: nat, to: nat)
    requires |visits| == |streams| && forall k | 0 <= k < |streams| :: visits[k] <= |streams[k]|
    requires i < |streams| && visits[i] <= to <= |streams[i]|
    ensures multiset(Visited(streams, visits[i := to]))
         == multiset(Visited(streams, visits)) + multiset(streams[i][visits[i]..to])
  {
    if i == 0 {
      assert streams[0][..to] == streams[0][..visits[0]] + streams[0][visits[0]..to];
      assert visits[0 := to][1..] == visits[1..];
    } else {
      VisitMore(streams[1..], visits[1..], i - 1, to);
      assert visits[i := to][1..] == visits[1..][i - 1 := to];
    }
  }

  lemma {:induction false} VisitedUpToBudget(streams: seq<seq<Candidate>>, visits: seq<nat>)
    requires Within(streams, visits, VISIT_BUDGET)
    ensures |Visited(streams, visits)| <= |Snapshot(streams)|
    ensures (forall i | 0 <= i < |streams| :: visits[i] == Budget(streams[i])) ==>
        Visited(streams, visits) == Snapshot(streams)
  {
    if streams != [] {
      VisitedUpToBudget(streams[1..], visits[1..]);
    }
  }

  lemma {:induction false} NothingVisited(streams: seq<seq<Candidate>>, visits: seq<nat>)
    requires |visits| == |streams| && forall i | 0 <= i < |streams| :: visits[i] == 0
    ensures Visited(streams, visits) == []
  {
    if streams != [] {
      NothingVisited(streams[1..], visits[1..]);
    }
  }

  /** Advance all traversals in rounds; together the rounds see exactly the snapshot. */
  method Traverse(streams: seq<seq<Candidate>>) returns (ranked: seq<Candidate>)
    ensures multiset(ranked) == multiset(Snapshot(streams))
  {
    var visits: seq<nat> := seq(|streams|, i => 0);
    ranked := [];
    NothingVisited(streams, visits);
    while true
      invariant Within(streams, visits, VISIT_BUDGET)
      invariant multiset(ranked) == multiset(Visited(streams, visits)) && |ranked| <= |Snapshot(streams)|
      decreases |Snapshot(streams)| - |ranked|
    {
      var chunk;
      chunk, visits := Round(streams, visits);
      ranked := ranked + chunk;
      VisitedUpToBudget(streams, visits);
      assert |multiset(ranked)| == |multiset(Visited(streams, visits))|;
      if chunk == [] {
        break;
      }
    }
  }

  method Round(streams: seq<seq<Candidate>>, visits: seq<nat>) returns (chunk: seq<Candidate>, after: seq<nat>)
    requires Within(streams, visits, VISIT_BUDGET)
    ensures Within(streams, after, VISIT_BUDGET)
    ensures multiset(Visited(streams, after)) == multiset(Visited(streams, visits)) + multiset(chunk)
    ensures chunk == [] ==> forall i | 0 <= i < |streams| :: after[i] == Budget(streams[i])
  {
    chunk, after := [], visits;
    for i := 0 to |streams|
      invariant Within(streams, after, VISIT_BUDGET)
      invariant multiset(Visited(streams, after)) == multiset(Visited(streams, visits)) + multiset(chunk)
      invariant chunk == [] ==> forall k | 0 <= k < i :: after[k] == Budget(streams[k])
    {
      var done := after[i] >= |streams[i]|;
      if !done && after[i] < VISIT_BUDGET {
        var batch, to := Advance(streams[i], after[i]);
        Collected(streams, visits, after, chunk, i, to);
        chunk := chunk + batch;
        after := after[i := to];
      }
    }
  }

  /** One more batch keeps what was visited equal to what was collected. */
  lemma Collected(
      streams: seq<seq<Candidate>>, visits: seq<nat>, after: seq<nat>, chunk: seq<Candidate>, i: nat, to: nat)
    requires Within(streams, visits, VISIT_BUDGET) && Within(streams, after, VISIT_BUDGET)
    requires multiset(Visited(streams, after)) == multiset(Visited(streams, visits)) + multiset(chunk)
    requires i < |streams| && after[i] <= to <= |streams[i]| && to <= VISIT_BUDGET
    ensures Within(streams, after[i := to], VISIT_BUDGET)
    ensures multiset(Visited(streams, after[i := to]))
         == multiset(Visited(streams, visits)) + multiset(chunk + streams[i][after[i]..to])
  {
    VisitMore(streams, after, i, to);
  }

  /** The next candidates of one traversal: at most a round's share and what the budget leaves. */
  method Advance(stream: seq<Candidate>, from: nat) returns (batch: seq<Candidate>, to: nat)
    requires from < |stream| && from < VISIT_BUDGET
    ensures from < to <= |stream| && to <= VISIT_BUDGET && to - from <= EF_SEARCH
    ensures batch == stream[from..to] && batch != []
  {
    var count := if EF_SEARCH < VISIT_BUDGET - from then EF_SEARCH else VISIT_BUDGET - from;
    to := if from + count < |stream| then from + count else |stream|;
    batch := stream[from..to];
  }

  // -------------------------------------------------------------------------- promotion

  predicate Keyed(c: Candidate, keys: set<(int, int)>) {
    (c.source, c.id) in keys
  }

  /** The candidates on one side of the promotion, in their order. */
  function Keep(cs: seq<Candidate>, keys: set<(int, int)>, side: bool): (kept: seq<Candidate>) {
    if cs == [] then []
    else if Keyed(cs[0], keys) == side then [cs[0]] + Keep(cs[1..], keys, side)
    else Keep(cs[1..], keys, side)
  }

  function Promoted(cs: seq<Candidate>, keys: set<(int, int)>): seq<Candidate> {
    Keep(cs, keys, true) + Keep(cs, keys, false)
  }

  lemma {:induction false} KeepAppend(a: seq<Candidate>, b: seq<Candidate>, keys: set<(int, int)>, side: bool)
    ensures Keep(a + b, keys, side) == Keep(a, keys, side) + Keep(b, keys, side)
  {
    if a == [] {
      assert a + b == b;
    } else {
      assert (a + b)[1..] == a[1..] + b;
      KeepAppend(a[1..], b, keys, side);
    }
  }

  lemma {:induction false} KeptAreOnSide(cs: seq<Candidate>, keys: set<(int, int)>, side: bool)
    ensures forall c | c in Keep(cs, keys, side) :: Keyed(c, keys) == side
  {
    if cs != [] {
      KeptAreOnSide(cs[1..], keys, side);
    }
  }

  lemma {:induction false} KeepOfOneSide(cs: seq<Candidate>, keys: set<(int, int)>, side: bool)
    requires forall c | c in cs :: Keyed(c, keys) == side
    ensures Keep(cs, keys, side) == cs && Keep(cs, keys, !side) == []
  {
    if cs != [] {
      assert cs[0] in cs;
      KeepOfOneSide(cs[1..], keys, side);
      assert cs == [cs[0]] + cs[1..];
    }
  }

  lemma {:induction false} KeepPartitions(cs: seq<Candidate>, keys: set<(int, int)>)
    ensures multiset(Keep(cs, keys, true)) + multiset(Keep(cs, keys, false)) == multiset(cs)
  {
    if cs != [] {
      KeepPartitions(cs[1..], keys);
      assert cs == [cs[0]] + cs[1..];
    }
  }

  lemma {:induction false} NoneKeyed(cs: seq<Candidate>, keys: set<(int, int)>)
    requires Keep(cs, keys, true) == []
    ensures Keep(cs, keys, false) == cs
  {
    if cs != [] {
      NoneKeyed(cs[1..], keys);
      assert cs == [cs[0]] + cs[1..];
    }
  }

  /** Promotion is the stable partition: a permutation, matches first, both sides in their old order. */
  lemma PromotionIsStablePartition(cs: seq<Candidate>, keys: set<(int, int)>)
    ensures multiset(Promoted(cs, keys)) == multiset(cs)
    ensures forall i, j | 0 <= i < j < |Promoted(cs, keys)| ::
              var a, b := Promoted(cs, keys)[i], Promoted(cs, keys)[j];
              Keyed(b, keys) ==> Keyed(a, keys)
    ensures forall side :: Keep(Promoted(cs, keys), keys, side) == Keep(cs, keys, side)
  {
    var matched, rest := Keep(cs, keys, true), Keep(cs, keys, false);
    KeepPartitions(cs, keys);
    KeptAreOnSide(cs, keys, true);
    KeptAreOnSide(cs, keys, false);
    KeepOfOneSide(matched, keys, true);
    KeepOfOneSide(rest, keys, false);
    KeepAppend(matched, rest, keys, true);
    KeepAppend(matched, rest, keys, false);
    forall side ensures Keep(Promoted(cs, keys), keys, side) == Keep(cs, keys, side) {
      assert side == true || side == false;
    }
  }

  /** Matches first, and on each side the best first. */
  ghost predicate MatchesThenBest(cs: seq<Candidate>, keys: set<(int, int)>) {
    forall i, j | 0 <= i < j < |cs| :: RightlyBefore(cs[i], cs[j], keys)
  }

  predicate RightlyBefore(a: Candidate, b: Candidate, keys: set<(int, int)>) {
    && ((b.source, b.id) in keys ==> (a.source, a.id) in keys)
    && (((a.source, a.id) in keys <==> (b.source, b.id) in keys) ==> NoWorse(a, b))
  }

  lemma {:induction false} KeepIsBestFirst(cs: seq<Candidate>, keys: set<(int, int)>, side: bool)
    requires BestFirst(cs)
    ensures BestFirst(Keep(cs, keys, side)) && forall c | c in Keep(cs, keys, side) :: c in cs
  {
    if cs != [] {
      KeepIsBestFirst(cs[1..], keys, side);
      forall c | c in cs[1..] ensures NoWorse(cs[0], c) {
        var i :| 0 <= i < |cs[1..]| && cs[1..][i] == c;
      }
    }
  }

  lemma PromotionPutsMatchesFirst(cs: seq<Candidate>, keys: set<(int, int)>)
    requires BestFirst(cs)
    ensures MatchesThenBest(Promoted(cs, keys), keys)
  {
    var matched, rest := Keep(cs, keys, true), Keep(cs, keys, false);
    KeepIsBestFirst(cs, keys, true);
    KeepIsBestFirst(cs, keys, false);
    KeptAreOnSide(cs, keys, true);
    KeptAreOnSide(cs, keys, false);
    forall i, j | 0 <= i < j < |matched + rest| ensures RightlyBefore((matched + rest)[i], (matched + rest)[j], keys) {
      assert (matched + rest)[i] in if i < |matched| then matched else rest;
      assert (matched + rest)[j] in if j < |matched| then matched else rest;
    }
  }

  method Promote(scored: seq<Candidate>, keys: set<(int, int)>) returns (result: seq<Candidate>)
    ensures result == Promoted(scored, keys)
  {
    if |scored| == 0 || keys == {} {
      NoneKept(scored, keys);
      NoneKeyed(scored, keys);
      return scored;
    }
    var promoted, rest := Divide(scored, keys);
    if |promoted| == 0 {
      NoneKeyed(scored, keys);
      return scored;
    }
    result := promoted + rest;
  }

  method Divide(scored: seq<Candidate>, keys: set<(int, int)>) returns (promoted: seq<Candidate>, rest: seq<Candidate>)
    ensures promoted == Keep(scored, keys, true) && rest == Keep(scored, keys, false)
  {
    promoted, rest := [], [];
    for n := 0 to |scored|
      invariant promoted == Keep(scored[..n], keys, true)
      invariant rest == Keep(scored[..n], keys, false)
    {
      KeepNext(scored, n, keys, true);
      KeepNext(scored, n, keys, false);
      if Keyed(scored[n], keys) {
        promoted := promoted + [scored[n]];
      } else {
        rest := rest + [scored[n]];
      }
    }
    assert scored[..|scored|] == scored;
  }

  lemma KeepNext(cs: seq<Candidate>, n: nat, keys: set<(int, int)>, side: bool)
    requires n < |cs|
    ensures Keep(cs[..n + 1], keys, side)
         == if Keyed(cs[n], keys) == side then Keep(cs[..n], keys, side) + [cs[n]] else Keep(cs[..n], keys, side)
  {
    assert cs[..n + 1] == cs[..n] + [cs[n]];
    KeepAppend(cs[..n], [cs[n]], keys, side);
  }

  lemma {:induction false} NoneKept(cs: seq<Candidate>, keys: set<(int, int)>)
    requires cs == [] || keys == {}
    ensures Keep(cs, keys, true) == []
  {
    if cs != [] {
      NoneKept(cs[1..], keys);
    }
  }

  // -------------------------------------------------------------------- diversification

  /** The vectors of the two assets are at least as similar as near duplicates are. */
  type Near = (Candidate, Candidate) -> bool

  predicate NearAny(c: Candidate, selected: seq<Candidate>, near: Near) {
    exists s | s in selected :: near(c, s)
  }

  function Diverse(cs: seq<Candidate>, near: Near): (kept: seq<Candidate>)
    ensures |kept| <= |cs|
  {
    if cs == [] then []
    else
      var n := |cs| - 1;
      var before := Diverse(cs[..n], near);
      if NearAny(cs[n], before, near) then before else before + [cs[n]]
  }

  function Delayed(cs: seq<Candidate>, near: Near): (delayed: seq<Candidate>)
    ensures |delayed| + |Diverse(cs, near)| == |cs|
  {
    if cs == [] then []
    else
      var n := |cs| - 1;
      var before := Delayed(cs[..n], near);
      if NearAny(cs[n], Diverse(cs[..n], near), near) then before + [cs[n]] else before
  }

  function Head(scored: seq<Candidate>, count: nat): (n: nat)
    ensures n <= |scored|
  {
    if |scored| < 2 then 0 else Min(count, |scored|)
  }

  function Diversified(scored: seq<Candidate>, count: nat, near: Near): seq<Candidate> {
    var n := Head(scored, count);
    Diverse(scored[..n], near) + Delayed(scored[..n], near) + scored[n..]
  }

  lemma AddLast(a: seq<Candidate>, b: seq<Candidate>, c: Candidate)
    ensures multiset(a + [c]) + multiset(b) == multiset(a) + multiset(b) + multiset{c}
    ensures multiset(a) + multiset(b + [c]) == multiset(a) + multiset(b) + multiset{c}
  {
  }

  lemma {:induction false} DiversePartitions(cs: seq<Candidate>, near: Near)
    ensures multiset(Diverse(cs, near)) + multiset(Delayed(cs, near)) == multiset(cs)
  {
    if cs != [] {
      var n := |cs| - 1;
      assert cs[..n + 1] == cs && cs == cs[..n] + [cs[n]];
      DiversePartitions(cs[..n], near);
      DiverseNext(cs, n, near);
      AddLast(Diverse(cs[..n], near), Delayed(cs[..n], near), cs[n]);
    }
  }

  lemma {:induction false} NoneDelayed(cs: seq<Candidate>, near: Near)
    requires Delayed(cs, near) == []
    ensures Diverse(cs, near) == cs
  {
    if cs != [] {
      var n := |cs| - 1;
      assert cs == cs[..n] + [cs[n]];
      NoneDelayed(cs[..n], near);
    }
  }

  lemma DiverseNext(cs: seq<Candidate>, n: nat, near: Near)
    requires n < |cs|
    ensures NearAny(cs[n], Diverse(cs[..n], near), near) ==>
              && Diverse(cs[..n + 1], near) == Diverse(cs[..n], near)
              && Delayed(cs[..n + 1], near) == Delayed(cs[..n], near) + [cs[n]]
    ensures !NearAny(cs[n], Diverse(cs[..n], near), near) ==>
              && Diverse(cs[..n + 1], near) == Diverse(cs[..n], near) + [cs[n]]
              && Delayed(cs[..n + 1], near) == Delayed(cs[..n], near)
  {
    assert cs[..n + 1][..n] == cs[..n] && cs[..n + 1][n] == cs[n];
  }

  lemma {:induction false} DiverseIsDiverse(cs: seq<Candidate>, near: Near)
    ensures forall i, j | 0 <= i < j < |Diverse(cs, near)| :: !near(Diverse(cs, near)[j], Diverse(cs, near)[i])
    ensures forall c | c in Delayed(cs, near) :: NearAny(c, Diverse(cs, near), near)
    ensures cs != [] ==> Diverse(cs, near) != [] && Diverse(cs, near)[0] == cs[0]
  {
    if cs != [] {
      var n := |cs| - 1;
      DiverseIsDiverse(cs[..n], near);
      var before, kept := Diverse(cs[..n], near), Diverse(cs, near);
      forall i, j | 0 <= i < j < |kept| ensures !near(kept[j], kept[i]) {
        if j == |before| { assert before[i] in before; }
      }
      forall c | c in Delayed(cs, near) ensures NearAny(c, kept, near) {
        if c in Delayed(cs[..n], near) {
          var s :| s in before && near(c, s);
          assert s in kept;
        }
      }
    }
  }

  /**
   Diversification is a permutation that touches only the head: `k` first assets no two of
   which are near, then the delayed ones, each near one of those, then the rest as it was.
   */
  lemma DiversificationMeaning(scored: seq<Candidate>, count: nat, near: Near)
    ensures var r, n := Diversified(scored, count, near), Head(scored, count);
            var k := |Diverse(scored[..n], near)|;
            && |r| == |scored| && multiset(r) == multiset(scored) && k <= n && r[n..] == scored[n..]
            && (forall i, j | 0 <= i < j < k :: !near(r[j], r[i]))
            && (forall i | k <= i < n :: NearAny(r[i], r[..k], near))
            && (scored != [] ==> r[0] == scored[0])
  {
    var n := Head(scored, count);
    DiversePartitions(scored[..n], near);
    DiverseIsDiverse(scored[..n], near);
    assert scored == scored[..n] + scored[n..];
    Joined(Diverse(scored[..n], near), Delayed(scored[..n], near), scored[n..], near);
    if n == 0 { assert Diversified(scored, count, near) == scored; }
  }

  lemma Joined(kept: seq<Candidate>, delayed: seq<Candidate>, rest: seq<Candidate>, near: Near)
    requires forall i, j | 0 <= i < j < |kept| :: !near(kept[j], kept[i])
    requires forall c | c in delayed :: NearAny(c, kept, near)
    ensures var r, k, n := kept + delayed + rest, |kept|, |kept| + |delayed|;
            && multiset(r) == multiset(kept) + multiset(delayed) + multiset(rest)
            && r[n..] == rest
            && (forall i, j | 0 <= i < j < k :: !near(r[j], r[i]))
            && (forall i | k <= i < n :: NearAny(r[i], r[..k], near))
            && (kept != [] ==> r[0] == kept[0])
  {
    var r := kept + delayed + rest;
    assert r[..|kept|] == kept;
    forall i | |kept| <= i < |kept| + |delayed| ensures NearAny(r[i], r[..|kept|], near) {
      assert r[i] == delayed[i - |kept|];
    }
  }

  lemma {:induction false} DiverseStaysOrdered(cs: seq<Candidate>, near: Near, keys: set<(int, int)>)
    requires MatchesThenBest(cs, keys)
    ensures MatchesThenBest(Diverse(cs, near), keys) && MatchesThenBest(Delayed(cs, near), keys)
    ensures forall c | c in Diverse(cs, near) || c in Delayed(cs, near) :: c in cs
  {
    if cs != [] {
      var n := |cs| - 1;
      DiverseStaysOrdered(cs[..n], near, keys);
      forall c | c in cs[..n] ensures RightlyBefore(c, cs[n], keys) {
        var i :| 0 <= i < n && cs[i] == c;
      }
    }
  }

  /** Diversification keeps the order of the kept, of the delayed, and of the head before the rest. */
  lemma DiversificationKeepsOrder(scored: seq<Candidate>, count: nat, near: Near, keys: set<(int, int)>)
    requires MatchesThenBest(scored, keys)
    ensures var r, n := Diversified(scored, count, near), Head(scored, count);
            var k := |Diverse(scored[..n], near)|;
            && |r| == |scored|
            && (forall i, j | 0 <= i < j < |r| && (j < k || k <= i || j >= n) :: RightlyBefore(r[i], r[j], keys))
            && (scored != [] ==> forall j | 0 < j < |r| :: RightlyBefore(r[0], r[j], keys))
  {
    var r, n := Diversified(scored, count, near), Head(scored, count);
    var kept, delayed := Diverse(scored[..n], near), Delayed(scored[..n], near);
    DiverseIsDiverse(scored[..n], near);
    forall i, j | 0 <= i < j < |r| && (j < |kept| || |kept| <= i || j >= n || i == 0)
      ensures RightlyBefore(r[i], r[j], keys)
    {
      if j >= n {
        RestComesLater(scored, n, near, keys, i, j);
      } else {
        HeadStaysOrdered(scored, n, near, keys, i, j);
      }
    }
  }

  lemma RestComesLater(scored: seq<Candidate>, n: nat, near: Near, keys: set<(int, int)>, i: nat, j: nat)
    requires MatchesThenBest(scored, keys) && n <= j < |scored| && i < j
    ensures var r := Diverse(scored[..n], near) + Delayed(scored[..n], near) + scored[n..];
            |r| == |scored| && RightlyBefore(r[i], r[j], keys)
  {
    var r := Diverse(scored[..n], near) + Delayed(scored[..n], near) + scored[n..];
    assert r[j] == scored[j];
    if i < n {
      HeadIsFromHead(scored, n, near, i);
      assert r[i] in scored[..n];
      var k :| 0 <= k < n && scored[k] == r[i];
    } else {
      assert r[i] == scored[i];
    }
  }

  lemma HeadStaysOrdered(scored: seq<Candidate>, n: nat, near: Near, keys: set<(int, int)>, i: nat, j: nat)
    requires MatchesThenBest(scored, keys) && i < j < n <= |scored|
    requires var k := |Diverse(scored[..n], near)|; j < k || k <= i || i == 0
    ensures var r := Diverse(scored[..n], near) + Delayed(scored[..n], near) + scored[n..];
            |r| == |scored| && RightlyBefore(r[i], r[j], keys)
  {
    var kept, delayed := Diverse(scored[..n], near), Delayed(scored[..n], near);
    var r := kept + delayed + scored[n..];
    DiverseStaysOrdered(scored[..n], near, keys);
    if j < |kept| {
      assert r[i] == kept[i] && r[j] == kept[j];
    } else if |kept| <= i {
      assert r[i] == delayed[i - |kept|] && r[j] == delayed[j - |kept|];
    } else {
      DiverseIsDiverse(scored[..n], near);
      HeadIsFromHead(scored, n, near, j);
      assert r[0] == kept[0] == scored[0] && r[j] == (kept + delayed)[j];
      RightlyBeforeAll(scored, n, keys, r[j]);
    }
  }

  lemma RightlyBeforeAll(scored: seq<Candidate>, n: nat, keys: set<(int, int)>, c: Candidate)
    requires MatchesThenBest(scored, keys) && 0 < n <= |scored| && c in scored[..n]
    ensures RightlyBefore(scored[0], c, keys)
  {
    var i :| 0 <= i < n && scored[i] == c;
  }

  lemma HeadIsFromHead(scored: seq<Candidate>, n: nat, near: Near, i: nat)
    requires i < n <= |scored|
    ensures |Diverse(scored[..n], near)| + |Delayed(scored[..n], near)| == n
    ensures (Diverse(scored[..n], near) + Delayed(scored[..n], near))[i] in scored[..n]
  {
    var head := Diverse(scored[..n], near) + Delayed(scored[..n], near);
    DiversePartitions(scored[..n], near);
    assert head[i] in multiset(head) && multiset(head) == multiset(scored[..n]);
  }

  method Diversify(scored: seq<Candidate>, count: nat, near: Near) returns (result: seq<Candidate>)
    ensures result == Diversified(scored, count, near)
  {
    if |scored| < 2 || count == 0 {
      assert scored[0..] == scored;
      return scored;
    }
    var head := if count < |scored| then count else |scored|;
    var diverse, delayed := Choose(scored[..head], near);
    if |delayed| == 0 {
      NoneDelayed(scored[..head], near);
      assert scored[..head] + [] + scored[head..] == scored;
      return scored;
    }
    result := diverse + delayed + scored[head..];
  }

  method Choose(cs: seq<Candidate>, near: Near) returns (diverse: seq<Candidate>, delayed: seq<Candidate>)
    ensures diverse == Diverse(cs, near) && delayed == Delayed(cs, near)
  {
    diverse, delayed := [], [];
    for n := 0 to |cs|
      invariant diverse == Diverse(cs[..n], near) && delayed == Delayed(cs[..n], near)
    {
      DiverseNext(cs, n, near);
      var duplicate := NearDuplicate(cs[n], diverse, near);
      if duplicate {
        delayed := delayed + [cs[n]];
      } else {
        diverse := diverse + [cs[n]];
      }
    }
    assert cs[..|cs|] == cs;
  }

  method NearDuplicate(candidate: Candidate, selected: seq<Candidate>, near: Near) returns (found: bool)
    ensures found == NearAny(candidate, selected, near)
  {
    for n := 0 to |selected|
      invariant forall k | 0 <= k < n :: !near(candidate, selected[k])
    {
      if near(candidate, selected[n]) {
        return true;
      }
    }
    found := false;
  }

  // --------------------------------------------------------------------------- the page

  /** The search's input apart from the page: what the indexes and the metadata queries returned. */
  datatype Search = Search(
    lookup: Lookup,
    gallery: bool,
    filters: Filters,
    scores: bool,
    metadata: seq<Candidate>,
    streams: seq<seq<Candidate>>,
    promoted: Option<set<(int, int)>>
  )

  function MetadataRanking(s: Search, near: Near): seq<Candidate> {
    Diversified(Sort(s.metadata), DIVERSITY_HEAD, near)
  }

  function SemanticOrder(s: Search, near: Near): seq<Candidate> {
    var ranked := Sort(Snapshot(s.streams));
    Diversified(if s.promoted.Some? then Promoted(ranked, s.promoted.value) else ranked, DIVERSITY_HEAD, near)
  }

  function PromotedKeys(s: Search): set<(int, int)> {
    if s.promoted.Some? then s.promoted.value else {}
  }

  /**
   What a search lists first: before any candidate beyond the first 80 there are only
   candidates that match its metadata, or that match no more than it does and are no worse;
   and the first of all goes before every other one in the same way.
   */
  lemma SemanticOrderMeaning(s: Search, near: Near)
    ensures var order, keys := SemanticOrder(s, near), PromotedKeys(s);
            && (forall i, j | 0 <= i < j < |order| && j >= 80 :: RightlyBefore(order[i], order[j], keys))
            && (forall j | 0 < j < |order| :: RightlyBefore(order[0], order[j], keys))
    ensures var order := MetadataRanking(s, near);
            && (forall i, j | 0 <= i < j < |order| && j >= 80 :: NoWorse(order[i], order[j]))
            && (forall j | 0 < j < |order| :: NoWorse(order[0], order[j]))
  {
    var ranked := Sort(Snapshot(s.streams));
    SortIsBestFirst(Snapshot(s.streams));
    if s.promoted.Some? {
      PromotionPutsMatchesFirst(ranked, s.promoted.value);
    }
    var promoted := if s.promoted.Some? then Promoted(ranked, s.promoted.value) else ranked;
    DiversificationKeepsOrder(promoted, DIVERSITY_HEAD, near, PromotedKeys(s));
    MetadataIsBestFirst(s, near);
  }

  lemma MetadataIsBestFirst(s: Search, near: Near)
    ensures var order := MetadataRanking(s, near);
            && (forall i, j | 0 <= i < j < |order| && j >= 80 :: NoWorse(order[i], order[j]))
            && (forall j | 0 < j < |order| :: NoWorse(order[0], order[j]))
  {
    SortIsBestFirst(s.metadata);
    DiversificationKeepsOrder(Sort(s.metadata), DIVERSITY_HEAD, near, {});
    var order := MetadataRanking(s, near);
    forall i, j | 0 <= i < j < |order| && (j >= 80 || i == 0) ensures NoWorse(order[i], order[j]) {
      assert RightlyBefore(order[i], order[j], {});
    }
  }

  function ListHits(s: Search, cs: seq<Candidate>): seq<Hit> {
    ChunkedHits(s.lookup, cs, if s.gallery then GALLERY_CHUNK else CANONICAL_CHUNK, s.scores)
  }

  /** The one list all pages of a search are cut from. */
  function SearchResults(s: Search, near: Near): seq<Hit> {
    Results(ListHits(s, MetadataRanking(s, near)) + ListHits(s, SemanticOrder(s, near)), s.filters)
  }

  predicate Serves(a: Accumulator, s: Search) {
    a.resolver.lookup == s.lookup && a.resolver.gallery == s.gallery && a.filters == s.filters && a.scores == s.scores
  }

  /** The page, with traversal, ranking and promotion skipped when the metadata matches already fill it. */
  method ResolveTraversalPage(s: Search, near: Near, index: nat, size: nat) returns (page: ResultPage)
    ensures page == PageOf(SearchResults(s, near), index, size)
  {
    var accumulator := new Accumulator(s.lookup, s.gallery, s.filters, s.scores, index, size);
    AddMetadata(s, near, accumulator);
    if |s.metadata| > 0 && !accumulator.NeedsMore() {
      page := accumulator.Page();
      FilledPage(ListHits(s, MetadataRanking(s, near)), ListHits(s, SemanticOrder(s, near)), s.filters, index, size);
      return;
    }
    var ranked := RankSnapshot(s, near);
    accumulator.Add(ranked);
    page := accumulator.Page();
  }

  method AddMetadata(s: Search, near: Near, accumulator: Accumulator)
    requires accumulator.Valid() && accumulator.given == [] && Serves(accumulator, s)
    modifies accumulator, accumulator.resolver
    ensures accumulator.Valid() && accumulator.given == ListHits(s, MetadataRanking(s, near))
  {
    if |s.metadata| > 0 {
      var metadata := Diversify(Sort(s.metadata), DIVERSITY_HEAD, near);
      accumulator.Add(metadata);
    } else {
      assert MetadataRanking(s, near) == [];
    }
  }

  /** When the first list fills the page, the page of both lists is the same. */
  lemma FilledPage(first: seq<Hit>, second: seq<Hit>, f: Filters, index: nat, size: nat)
    requires |Results(first, f)| >= index * size + size + 1
    ensures PageOf(Results(first, f), index, size) == PageOf(Results(first + second, f), index, size)
  {
    StoppingEarly(first, second, f, index * size + size + 1);
    PageNeedsPrefix(Results(first, f), Results(first + second, f), index, size);
  }

  method RankSnapshot(s: Search, near: Near) returns (ranked: seq<Candidate>)
    ensures ranked == SemanticOrder(s, near)
  {
    var found := Traverse(s.streams);
    SortDependsOnCandidates(found, Snapshot(s.streams));
    ranked := Sort(found);
    if s.promoted.Some? {
      ranked := Promote(ranked, s.promoted.value);
    }
    ranked := Diversify(ranked, DIVERSITY_HEAD, near);
  }

  /** A page depends only on the rows up to its end and whether one more follows. */
  lemma PageNeedsPrefix(a: seq<Hit>, b: seq<Hit>, index: nat, size: nat)
    requires Take(a, index * size + size + 1) == Take(b, index * size + size + 1)
    requires |a| >= index * size + size + 1
    ensures PageOf(a, index, size) == PageOf(b, index, size)
  {
    var offset := index * size;
    var end := offset + size;
    assert |Take(b, end + 1)| == end + 1;
    assert a[offset..end] == Take(a, end + 1)[offset..end];
    assert b[offset..end] == Take(b, end + 1)[offset..end];
  }

  // ------------------------------------------------------- all corpora of one kind

  predicate OneKind(s: Search) {
    Homogeneous(s.metadata) && Homogeneous(Snapshot(s.streams))
  }

  /** The corpora a search opens: the canonical one if it exists, otherwise those of the data sources. */
  function CorpusSources(canonicalExists: bool, datasources: seq<int>): seq<int> {
    if canonicalExists then [CANONICAL_CORPUS] else datasources
  }

  /** Traversals and metadata matches yield assets of the opened corpora. */
  predicate ReadFrom(s: Search, sources: seq<int>) {
    && (forall i | 0 <= i < |s.streams| :: forall c | c in s.streams[i] :: c.source in sources)
    && (forall c | c in s.metadata :: c.source in sources)
  }

  /** So every search is of one kind: no data source is configured under the canonical corpus's key. */
  lemma SearchesAreOfOneKind(s: Search, canonicalExists: bool, datasources: seq<int>)
    requires CANONICAL_CORPUS !in datasources
    requires ReadFrom(s, CorpusSources(canonicalExists, datasources))
    ensures OneKind(s)
  {
    var sources := CorpusSources(canonicalExists, datasources);
    forall i | 0 <= i < |s.streams| ensures forall c | c in s.streams[i] :: OfCorpus(c) == canonicalExists {
      assert forall c | c in s.streams[i] :: c.source in sources;
    }
    SnapshotIsOfOneKind(s.streams, canonicalExists);
  }

  lemma {:induction false} SnapshotIsOfOneKind(streams: seq<seq<Candidate>>, canonical: bool)
    requires forall i | 0 <= i < |streams| :: forall c | c in streams[i] :: OfCorpus(c) == canonical
    ensures forall c | c in Snapshot(streams) :: OfCorpus(c) == canonical
  {
    if streams != [] {
      SnapshotIsOfOneKind(streams[1..], canonical);
    }
  }

  lemma HomogeneousPermutation(a: seq<Candidate>, b: seq<Candidate>)
    requires multiset(a) == multiset(b) && Homogeneous(a)
    ensures Homogeneous(b)
  {
    forall c | c in b ensures OfCorpus(c) == OfCorpus(b[0]) {
      assert c in multiset(a) && b[0] in b && b[0] in multiset(a);
      assert c in a && b[0] in a;
    }
  }

  /**
   When each list holds candidates of one kind, as the corpora that are searched together
   do, the results are those of every candidate read on its own, whichever chunk size the
   projection uses.
   */
  lemma ResultsAreChunkFree(s: Search, near: Near)
    requires OneKind(s)
    ensures SearchResults(s, near)
         == Results(
              Hits(s.lookup, MetadataRanking(s, near), s.scores) + Hits(s.lookup, SemanticOrder(s, near), s.scores),
              s.filters)
    ensures multiset(MetadataRanking(s, near)) == multiset(s.metadata)
    ensures multiset(SemanticOrder(s, near)) == multiset(Snapshot(s.streams))
  {
    var ranked := Sort(Snapshot(s.streams));
    var promoted := if s.promoted.Some? then Promoted(ranked, s.promoted.value) else ranked;
    if s.promoted.Some? {
      PromotionIsStablePartition(ranked, s.promoted.value);
    }
    DiversificationMeaning(Sort(s.metadata), DIVERSITY_HEAD, near);
    DiversificationMeaning(promoted, DIVERSITY_HEAD, near);
    HomogeneousPermutation(s.metadata, MetadataRanking(s, near));
    HomogeneousPermutation(Snapshot(s.streams), SemanticOrder(s, near));
    var size := if s.gallery then GALLERY_CHUNK else CANONICAL_CHUNK;
    ChunkingIsInvisible(s.lookup, MetadataRanking(s, near), size, s.scores);
    ChunkingIsInvisible(s.lookup, SemanticOrder(s, near), size, s.scores);
  }
}
