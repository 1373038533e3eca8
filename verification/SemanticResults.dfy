/**
 Scored candidates to result pages: candidates are resolved in chunks to gallery assets,
 assets already seen are dropped across chunks, filters apply afterwards, and the work
 stops once the page and one more match are known.

 The reference is a list that does not depend on the page:
 filter(first occurrences(resolve(candidates))).
 */
module SemanticResults {
  import opened Wrappers
  import opened GalleryRows
  import opened GalleryPaging

  /** A scored asset of a semantic index; its similarity is a totally ordered value. */
  datatype Candidate = Candidate(source: int, id: int, similarity: int, capturedAt: int)

  /** The internal source key whose asset ids are canonical asset ids. */
  const CANONICAL_CORPUS: int := -1

  const CANONICAL_CHUNK := 200
  const GALLERY_CHUNK := 64

  /** What the result queries join with: the served gallery rows and the canonical link of each source row. */
  datatype Lookup = Lookup(rows: map<int, Row>, links: map<(int, int), int>)

  /** A resolved gallery row with its score. */
  datatype Hit = Hit(canonicalId: int, row: Row, score: Option<int>)

  predicate OfCorpus(c: Candidate) {
    c.source == CANONICAL_CORPUS
  }

  // ------------------------------------------------------------------------- resolution

  /** One candidate, read as a canonical asset or as a source row. */
  function ResolveAs(t: Lookup, corpus: bool, c: Candidate, scores: bool): Option<Hit> {
    var id := if corpus then Some(c.id)
              else if (c.source, c.id) in t.links then Some(t.links[(c.source, c.id)])
              else None;
    if id.Some? && id.value in t.rows
    then Some(Hit(id.value, t.rows[id.value], if scores then Some(c.similarity) else None))
    else None
  }

  function HitsAs(t: Lookup, corpus: bool, cs: seq<Candidate>, scores: bool): (hits: seq<Hit>)
    ensures |hits| <= |cs|
  {
    if cs == [] then []
    else
      var first := ResolveAs(t, corpus, cs[0], scores);
      (if first.Some? then [first.value] else []) + HitsAs(t, corpus, cs[1..], scores)
  }

  /** A chunk is read the way its first candidate is. */
  function ChunkHits(t: Lookup, chunk: seq<Candidate>, scores: bool): seq<Hit> {
    if chunk == [] then [] else HitsAs(t, OfCorpus(chunk[0]), chunk, scores)
  }

  function ChunkedHits(t: Lookup, cs: seq<Candidate>, size: nat, scores: bool): seq<Hit>
    requires size > 0
    decreases |cs|
  {
    if cs == [] then []
    else
      var n := Min(size, |cs|);
      ChunkHits(t, cs[..n], scores) + ChunkedHits(t, cs[n..], size, scores)
  }

  /** Every candidate read by its own kind. */
  function Hits(t: Lookup, cs: seq<Candidate>, scores: bool): (hits: seq<Hit>)
    ensures |hits| <= |cs|
  {
    if cs == [] then []
    else
      var first := ResolveAs(t, OfCorpus(cs[0]), cs[0], scores);
      (if first.Some? then [first.value] else []) + Hits(t, cs[1..], scores)
  }

  predicate Homogeneous(cs: seq<Candidate>) {
    forall c | c in cs :: OfCorpus(c) == OfCorpus(cs[0])
  }

  lemma {:induction false} HitsOfOneKind(t: Lookup, corpus: bool, cs: seq<Candidate>, scores: bool)
    requires forall c | c in cs :: OfCorpus(c) == corpus
    ensures HitsAs(t, corpus, cs, scores) == Hits(t, cs, scores)
  {
    if cs != [] {
      assert cs[0] in cs;
      HitsOfOneKind(t, corpus, cs[1..], scores);
    }
  }

  lemma {:induction false} HitsAppend(t: Lookup, a: seq<Candidate>, b: seq<Candidate>, scores: bool)
    ensures Hits(t, a + b, scores) == Hits(t, a, scores) + Hits(t, b, scores)
  {
    if a == [] {
      assert a + b == b;
    } else {
      assert (a + b)[1..] == a[1..] + b;
      HitsAppend(t, a[1..], b, scores);
    }
  }

  /** For a list of one kind the chunk size does not matter. */
  lemma {:induction false} ChunkingIsInvisible(t: Lookup, cs: seq<Candidate>, size: nat, scores: bool)
    requires size > 0 && Homogeneous(cs)
    ensures ChunkedHits(t, cs, size, scores) == Hits(t, cs, scores)
    decreases |cs|
  {
    if cs != [] {
      var n := Min(size, |cs|);
      var head, tail := cs[..n], cs[n..];
      assert cs == head + tail && head[0] == cs[0] && cs[0] in cs;
      HitsOfOneKind(t, OfCorpus(head[0]), head, scores);
      HitsAppend(t, head, tail, scores);
      ChunkingIsInvisible(t, tail, size, scores);
    }
  }

  /** The result of a list is the same for all chunk sizes, whatever the tables hold, exactly when it is of one kind. */
  ghost predicate ChunkSizeIrrelevant(cs: seq<Candidate>) {
    forall t, a: nat, b: nat, scores | a > 0 && b > 0 :: ChunkedHits(t, cs, a, scores) == ChunkedHits(t, cs, b, scores)
  }

  lemma ChunkSizeIrrelevantIff(cs: seq<Candidate>)
    ensures ChunkSizeIrrelevant(cs) <==> Homogeneous(cs)
  {
    if Homogeneous(cs) {
      forall t, a: nat, b: nat, scores | a > 0 && b > 0
        ensures ChunkedHits(t, cs, a, scores) == ChunkedHits(t, cs, b, scores)
      {
        ChunkingIsInvisible(t, cs, a, scores);
        ChunkingIsInvisible(t, cs, b, scores);
      }
    } else {
      var i :| 0 <= i < |cs| && OfCorpus(cs[i]) != OfCorpus(cs[0]);
      var x := if OfCorpus(cs[i]) then cs[i].id else AbsentId(cs);
      var row := Row(x, 0, 0, Image, "", 0, None);
      var t := Lookup(map[x := row], if OfCorpus(cs[i]) then map[] else map[(cs[i].source, cs[i].id) := x]);
      SinglesFind(t, cs, i);
      NothingFound(t, OfCorpus(cs[0]), cs);
      OneChunk(t, cs);
      assert ChunkedHits(t, cs, 1, false) != ChunkedHits(t, cs, |cs|, false);
    }
  }

  function MaxId(cs: seq<Candidate>): (m: int)
    ensures forall c | c in cs :: c.id <= m
  {
    if cs == [] then 0
    else
      var m := MaxId(cs[1..]);
      assert forall c | c in cs :: c == cs[0] || c in cs[1..];
      if cs[0].id > m then cs[0].id else m
  }

  function AbsentId(cs: seq<Candidate>): (x: int)
    ensures forall c | c in cs :: c.id != x
  {
    MaxId(cs) + 1
  }

  lemma {:induction false} SinglesFind(t: Lookup, cs: seq<Candidate>, i: nat)
    requires i < |cs| && ResolveAs(t, OfCorpus(cs[i]), cs[i], false).Some?
    ensures ChunkedHits(t, cs, 1, false) != []
  {
    assert cs[..1] == [cs[0]];
    if i > 0 {
      SinglesFind(t, cs[1..], i - 1);
    } else {
      assert HitsAs(t, OfCorpus(cs[0]), [cs[0]], false) != [];
    }
  }

  lemma {:induction false} NothingFound(t: Lookup, corpus: bool, cs: seq<Candidate>)
    requires forall c | c in cs :: ResolveAs(t, corpus, c, false).None?
    ensures HitsAs(t, corpus, cs, false) == []
  {
    if cs != [] {
      assert cs[0] in cs;
      NothingFound(t, corpus, cs[1..]);
    }
  }

  lemma OneChunk(t: Lookup, cs: seq<Candidate>)
    requires cs != []
    ensures ChunkedHits(t, cs, |cs|, false) == HitsAs(t, OfCorpus(cs[0]), cs, false)
  {
    assert cs[..|cs|] == cs;
  }

  /** The candidate names the asset itself or one of its source rows, and the asset is served. */
  predicate ShownBy(t: Lookup, c: Candidate, h: Hit, scores: bool) {
    && (if c.source == CANONICAL_CORPUS then h.canonicalId == c.id
        else (c.source, c.id) in t.links && t.links[(c.source, c.id)] == h.canonicalId)
    && h.canonicalId in t.rows && h.row == t.rows[h.canonicalId]
    && (if scores then h.score == Some(c.similarity) else h.score.None?)
  }

  /** The hits of a list are what its candidates show, candidate by candidate. */
  lemma {:induction false} HitsMeaning(t: Lookup, cs: seq<Candidate>, scores: bool)
    ensures forall h :: h in Hits(t, cs, scores) <==> exists c :: c in cs && ShownBy(t, c, h, scores)
  {
    if cs != [] {
      HitsMeaning(t, cs[1..], scores);
      assert cs == [cs[0]] + cs[1..];
      var first := ResolveAs(t, OfCorpus(cs[0]), cs[0], scores);
      forall h ensures ShownBy(t, cs[0], h, scores) <==> first == Some(h) {
      }
      forall h ensures h in Hits(t, cs, scores) <==> exists c :: c in cs && ShownBy(t, c, h, scores) {
        assert h in Hits(t, cs, scores) <==> first == Some(h) || h in Hits(t, cs[1..], scores);
        if first == Some(h) { assert cs[0] in cs && ShownBy(t, cs[0], h, scores); }
        if c :| c in cs && ShownBy(t, c, h, scores) { assert c == cs[0] || c in cs[1..]; }
      }
    }
  }

  // ------------------------------------------------------- first occurrences and filters

  function Ids(hits: seq<Hit>): (ids: set<int>) {
    set h | h in hits :: h.canonicalId
  }

  /** The hits whose canonical asset occurs for the first time. */
  function Firsts(hits: seq<Hit>, seen: set<int>): (firsts: seq<Hit>)
    ensures |firsts| <= |hits|
  {
    if hits == [] then []
    else if hits[0].canonicalId in seen then Firsts(hits[1..], seen)
    else [hits[0]] + Firsts(hits[1..], seen + {hits[0].canonicalId})
  }

  lemma {:induction false} FirstsAppend(a: seq<Hit>, b: seq<Hit>, seen: set<int>)
    ensures Firsts(a + b, seen) == Firsts(a, seen) + Firsts(b, seen + Ids(a))
  {
    if a == [] {
      assert a + b == b && seen + Ids(a) == seen;
    } else {
      assert (a + b)[1..] == a[1..] + b;
      var now := if a[0].canonicalId in seen then seen else seen + {a[0].canonicalId};
      FirstsAppend(a[1..], b, now);
      assert forall h :: h in a <==> h == a[0] || h in a[1..];
      assert now + Ids(a[1..]) == seen + Ids(a);
    }
  }

  lemma IdsPrepend(h: Hit, hits: seq<Hit>)
    ensures Ids([h] + hits) == {h.canonicalId} + Ids(hits)
  {
    assert forall k :: k in [h] + hits <==> k == h || k in hits;
  }

  /** The list has every canonical asset that was hit once, and no other. */
  lemma {:induction false} FirstsMeaning(hits: seq<Hit>, seen: set<int>)
    ensures Ids(Firsts(hits, seen)) == Ids(hits) - seen
    ensures forall i, j | 0 <= i < j < |Firsts(hits, seen)| ::
        Firsts(hits, seen)[i].canonicalId != Firsts(hits, seen)[j].canonicalId
  {
    if hits != [] {
      var h := hits[0];
      if h.canonicalId in seen {
        FirstsMeaning(hits[1..], seen);
        IdsPrepend(h, hits[1..]);
        assert [h] + hits[1..] == hits;
      } else {
        var rest := Firsts(hits[1..], seen + {h.canonicalId});
        FirstsMeaning(hits[1..], seen + {h.canonicalId});
        assert Firsts(hits, seen) == [h] + rest;
        IdsPrepend(h, rest);
        IdsPrepend(h, hits[1..]);
        assert [h] + hits[1..] == hits;
        assert forall k | k in rest :: k.canonicalId in Ids(rest);
      }
    }
  }

  /** The hit at this index is the first one of its canonical asset. */
  predicate FirstOccurrence(hits: seq<Hit>, n: nat) {
    n < |hits| && forall m | 0 <= m < n :: hits[m].canonicalId != hits[n].canonicalId
  }

  /** What is kept are first occurrences, all of them but those seen before. */
  lemma {:induction false} FirstsAreFirst(hits: seq<Hit>, seen: set<int>)
    ensures forall h :: h in Firsts(hits, seen)
                        <==> exists n: nat :: FirstOccurrence(hits, n) && hits[n] == h && h.canonicalId !in seen
  {
    if hits != [] {
      var rest, now := hits[1..], seen + {hits[0].canonicalId};
      assert hits[0].canonicalId in seen ==> now == seen;
      FirstsAreFirst(rest, now);
      forall h ensures h in Firsts(hits, seen)
                       <==> exists n: nat :: FirstOccurrence(hits, n) && hits[n] == h && h.canonicalId !in seen
      {
        FirstsAreFirstAt(hits, seen, h);
      }
    }
  }

  lemma FirstsAreFirstAt(hits: seq<Hit>, seen: set<int>, h: Hit)
    requires hits != []
    requires var rest, now := hits[1..], seen + {hits[0].canonicalId};
             h in Firsts(rest, now)
             <==> exists n: nat :: FirstOccurrence(rest, n) && rest[n] == h && h.canonicalId !in now
    ensures h in Firsts(hits, seen)
            <==> exists n: nat :: FirstOccurrence(hits, n) && hits[n] == h && h.canonicalId !in seen
  {
    var rest, now := hits[1..], seen + {hits[0].canonicalId};
    assert hits[0].canonicalId in seen ==> now == seen;
    assert FirstOccurrence(hits, 0);
    if n: nat :| FirstOccurrence(rest, n) && rest[n] == h && h.canonicalId !in now {
      assert forall m | 0 < m <= n :: hits[m] == rest[m - 1];
      assert FirstOccurrence(hits, n + 1) && hits[n + 1] == h;
    }
    if n: nat :| FirstOccurrence(hits, n) && hits[n] == h && h.canonicalId !in seen && n > 0 {
      assert forall m | 0 <= m < n :: rest[m] == hits[m + 1];
      assert FirstOccurrence(rest, n - 1) && rest[n - 1] == h;
    }
  }

  function Passing(hits: seq<Hit>, f: Filters): (passing: seq<Hit>)
    ensures |passing| <= |hits|
  {
    if hits == [] then []
    else (if Matches(f, hits[0].row) then [hits[0]] else []) + Passing(hits[1..], f)
  }

  lemma {:induction false} PassingAppend(a: seq<Hit>, b: seq<Hit>, f: Filters)
    ensures Passing(a + b, f) == Passing(a, f) + Passing(b, f)
  {
    if a == [] {
      assert a + b == b;
    } else {
      assert (a + b)[1..] == a[1..] + b;
      PassingAppend(a[1..], b, f);
    }
  }

  /** The list pages are cut from. */
  function Results(hits: seq<Hit>, f: Filters): seq<Hit> {
    Passing(Firsts(hits, {}), f)
  }

  lemma {:induction false} PassingIsAskedFor(hits: seq<Hit>, f: Filters)
    ensures forall h :: h in Passing(hits, f) <==> h in hits && AskedFor(f, h.row)
  {
    if hits != [] {
      PassingIsAskedFor(hits[1..], f);
      MatchesIsAskedFor(f, hits[0].row);
      assert hits == [hits[0]] + hits[1..];
    }
  }

  /** The results are the first occurrences whose rows were asked for. */
  lemma ResultsMeaning(hits: seq<Hit>, f: Filters)
    ensures forall h :: h in Results(hits, f)
                        <==> AskedFor(f, h.row) && exists n: nat :: FirstOccurrence(hits, n) && hits[n] == h
  {
    FirstsAreFirst(hits, {});
    PassingIsAskedFor(Firsts(hits, {}), f);
  }

  lemma ResultsAppend(a: seq<Hit>, b: seq<Hit>, f: Filters)
    ensures Results(a + b, f) == Results(a, f) + Passing(Firsts(b, Ids(a)), f)
  {
    FirstsAppend(a, b, {});
    assert {} + Ids(a) == Ids(a);
    PassingAppend(Firsts(a, {}), Firsts(b, Ids(a)), f);
  }

  function Take(s: seq<Hit>, n: nat): seq<Hit> {
    s[..Min(n, |s|)]
  }

  lemma NextChunk(given: seq<Hit>, t: Lookup, cs: seq<Candidate>, start: nat, end: nat, size: nat, scores: bool)
    requires start < |cs| && size > 0 && end == Min(start + size, |cs|)
    ensures given + ChunkedHits(t, cs[start..], size, scores)
         == (given + ChunkHits(t, cs[start..end], scores)) + ChunkedHits(t, cs[end..], size, scores)
  {
    var rest := cs[start..];
    assert Min(size, |rest|) == end - start && rest[..end - start] == cs[start..end]
        && rest[end - start..] == cs[end..];
    Associate(given, ChunkHits(t, cs[start..end], scores), ChunkedHits(t, cs[end..], size, scores));
  }

  lemma Associate(a: seq<Hit>, b: seq<Hit>, c: seq<Hit>)
    ensures a + (b + c) == (a + b) + c
  {
  }

  /** Once enough is matched, what follows cannot change what is needed. */
  lemma StoppingEarly(given: seq<Hit>, rest: seq<Hit>, f: Filters, needed: nat)
    requires |Results(given, f)| >= needed
    ensures Take(Results(given + rest, f), needed) == Take(Results(given, f), needed)
  {
    ResultsAppend(given, rest, f);
  }

  lemma IdsAppend(a: seq<Hit>, b: seq<Hit>)
    ensures Ids(a + b) == Ids(a) + Ids(b)
  {
    assert forall h :: h in a + b <==> h in a || h in b;
  }

  lemma {:induction false} ScorelessAs(t: Lookup, corpus: bool, cs: seq<Candidate>)
    ensures forall h | h in HitsAs(t, corpus, cs, false) :: h.score.None?
  {
    if cs != [] {
      ScorelessAs(t, corpus, cs[1..]);
    }
  }

  lemma {:induction false} ScorelessFirsts(hits: seq<Hit>, seen: set<int>)
    requires forall h | h in hits :: h.score.None?
    ensures forall h | h in Firsts(hits, seen) :: h.score.None?
  {
    if hits != [] {
      assert hits[0] in hits;
      ScorelessFirsts(hits[1..], if hits[0].canonicalId in seen then seen else seen + {hits[0].canonicalId});
    }
  }

  lemma Scoreless(t: Lookup, chunk: seq<Candidate>, seen: set<int>)
    ensures forall h | h in Firsts(ChunkHits(t, chunk, false), seen) :: h.score.None?
  {
    if chunk != [] {
      ScorelessAs(t, OfCorpus(chunk[0]), chunk);
      ScorelessFirsts(ChunkHits(t, chunk, false), seen);
    }
  }

  /** Taking what is needed may start from what was taken while more was needed. */
  lemma TakenAlready(taken: seq<Hit>, more: seq<Hit>, list: seq<Hit>, needed: nat)
    requires taken == Take(list, needed) && |taken| < needed
    ensures Take(taken + more, needed) == Take(list + more, needed)
  {
    assert taken == list;
  }

  // ------------------------------------------------------------------------ the resolver

  /** Iterate over the rows of a query, keeping the assets not seen yet. */
  method KeepFirsts(found: seq<Hit>, before: set<int>) returns (items: seq<Hit>, seen: set<int>)
    ensures items == Firsts(found, before)
    ensures seen == before + Ids(found)
  {
    items, seen := [], before;
    ghost var done: seq<Hit> := [];
    for n := 0 to |found|
      invariant done == found[..n]
      invariant items == Firsts(done, before) && seen == before + Ids(done)
    {
      var hit := found[n];
      FirstsNext(done, hit, before);
      if hit.canonicalId !in seen {
        seen := seen + {hit.canonicalId};
        items := items + [hit];
      }
      done := done + [hit];
    }
    assert done == found;
  }

  lemma FirstsNext(hits: seq<Hit>, hit: Hit, before: set<int>)
    ensures Ids(hits + [hit]) == Ids(hits) + {hit.canonicalId}
    ensures hit.canonicalId in before + Ids(hits) ==> Firsts(hits + [hit], before) == Firsts(hits, before)
    ensures hit.canonicalId !in before + Ids(hits) ==> Firsts(hits + [hit], before) == Firsts(hits, before) + [hit]
  {
    FirstsAppend(hits, [hit], before);
    IdsAppend(hits, [hit]);
  }

  class Resolver {
    const lookup: Lookup
    const gallery: bool
    var seen: set<int>

    constructor (lookup: Lookup, gallery: bool)
      ensures this.lookup == lookup && this.gallery == gallery && seen == {}
    {
      this.lookup, this.gallery := lookup, gallery;
      seen := {};
    }

    function ChunkSize(): (size: nat)
      ensures size > 0
    {
      if gallery then GALLERY_CHUNK else CANONICAL_CHUNK
    }

    /** Resolve one chunk; assets seen in an earlier chunk, or earlier in this one, are dropped. */
    method Resolve(chunk: seq<Candidate>, scores: bool) returns (items: seq<Hit>)
      modifies this
      ensures items == Firsts(ChunkHits(lookup, chunk, scores), old(seen))
      ensures seen == old(seen) + Ids(ChunkHits(lookup, chunk, scores))
    {
      var found := ChunkHits(lookup, chunk, scores);
      items, seen := KeepFirsts(found, seen);
    }
  }

  datatype ResultPage = ResultPage(items: seq<Hit>, total: nat, hasMore: bool)

  /** The page a complete list has at an index. */
  function PageOf(list: seq<Hit>, index: nat, size: nat): ResultPage {
    var offset := index * size;
    var end := offset + size;
    ResultPage(
      list[Min(offset, |list|)..Min(end, |list|)],
      if |list| > end then end + 1 else |list|,
      |list| > end)
  }

  class Accumulator {
    const resolver: Resolver
    const filters: Filters
    const scores: bool
    const index: nat
    const size: nat
    var matched: seq<Hit>
    /** Everything the lists added so far resolve to, read to the end. */
    ghost var given: seq<Hit>

    function Offset(): nat { index * size }

    function PageEnd(): nat { index * size + size }

    function Needed(): nat { PageEnd() + 1 }

    predicate NeedsMore()
      reads this
    {
      |matched| < Needed()
    }

    ghost predicate Valid()
      reads this, resolver
    {
      && matched == Take(Results(given, filters), Needed())
      && (NeedsMore() ==> resolver.seen == Ids(given))
    }

    constructor (lookup: Lookup, gallery: bool, filters: Filters, scores: bool, index: nat, size: nat)
      ensures Valid() && given == [] && fresh(resolver)
      ensures resolver.lookup == lookup && resolver.gallery == gallery
      ensures this.filters == filters && this.scores == scores && this.index == index && this.size == size
    {
      var r := new Resolver(lookup, gallery);
      this.resolver, this.filters, this.scores, this.index, this.size := r, filters, scores, index, size;
      matched, given := [], [];
    }

    /** Add a list, chunk by chunk, until enough is matched; the result is as if all of it had been read. */
    method Add(cs: seq<Candidate>)
      requires Valid()
      modifies this, resolver
      ensures Valid()
      ensures given == old(given) + ChunkedHits(resolver.lookup, cs, resolver.ChunkSize(), scores)
    {
      var start := 0;
      assert cs[0..] == cs;
      while start < |cs| && NeedsMore()
        invariant 0 <= start <= |cs|
        invariant Valid()
        invariant old(given) + Resolved(cs) == given + Resolved(cs[start..])
      {
        start := AddFrom(cs, start);
      }
      if start == |cs| {
        assert given + Resolved(cs[start..]) == given;
      } else {
        StoppingEarly(given, Resolved(cs[start..]), filters, Needed());
      }
      given := given + Resolved(cs[start..]);
    }

    ghost function Resolved(cs: seq<Candidate>): seq<Hit> {
      ChunkedHits(resolver.lookup, cs, resolver.ChunkSize(), scores)
    }

    method AddFrom(cs: seq<Candidate>, start: nat) returns (end: nat)
      requires Valid() && NeedsMore() && start < |cs|
      modifies this, resolver
      ensures Valid() && start < end <= |cs|
      ensures given + Resolved(cs[end..]) == old(given) + Resolved(cs[start..])
    {
      var chunk := resolver.ChunkSize();
      end := if start + chunk < |cs| then start + chunk else |cs|;
      NextChunk(given, resolver.lookup, cs, start, end, chunk, scores);
      AddChunk(cs[start..end]);
    }

    /** One chunk: resolve all of it, then append matches until enough is known. */
    method AddChunk(chunk: seq<Candidate>)
      requires Valid() && NeedsMore()
      modifies this, resolver
      ensures Valid()
      ensures given == old(given) + ChunkHits(resolver.lookup, chunk, scores)
    {
      ghost var hits := ChunkHits(resolver.lookup, chunk, scores);
      var items := resolver.Resolve(chunk, scores);
      Scoreless(resolver.lookup, chunk, Ids(given));
      ResultsAppend(given, hits, filters);
      IdsAppend(given, hits);
      ghost var before := matched;
      AddMatches(items);
      TakenAlready(before, Passing(items, filters), Results(given, filters), Needed());
      given := given + hits;
    }

    method AddMatches(items: seq<Hit>)
      requires NeedsMore() && (!scores ==> forall h | h in items :: h.score.None?)
      modifies `matched
      ensures matched == Take(old(matched) + Passing(items, filters), Needed())
    {
      var n := 0;
      while n < |items| && NeedsMore()
        invariant 0 <= n <= |items| && |matched| <= Needed()
        invariant matched + Passing(items[n..], filters) == old(matched) + Passing(items, filters)
      {
        var item := items[n];
        assert item in items && items[n..][1..] == items[n + 1..];
        if Matches(filters, item.row) {
          matched := matched + [if scores then item else item.(score := None)];
        }
        n := n + 1;
      }
    }

    method Page() returns (page: ResultPage)
      requires Valid()
      ensures page == PageOf(Results(given, filters), index, size)
    {
      var hasMore := |matched| > PageEnd();
      var end := if PageEnd() < |matched| then PageEnd() else |matched|;
      var items := [];
      if Offset() < |matched| {
        items := matched[Offset()..end];
      }
      var total := |matched|;
      if hasMore {
        total := Offset() + |items| + 1;
      }
      page := ResultPage(items, total, hasMore);
    }
  }

  // ----------------------------------------------------------------- what the pages tile

  function FirstPages(list: seq<Hit>, size: nat, pages: nat): seq<Hit> {
    if pages == 0 then [] else FirstPages(list, size, pages - 1) + PageOf(list, pages - 1, size).items
  }

  /** Pages tile the list, `hasMore` says whether any row is left, and the total is exact on the last page. */
  lemma {:induction false} ResultPagesTile(list: seq<Hit>, size: nat, pages: nat)
    requires size > 0
    ensures FirstPages(list, size, pages) == list[..Min(pages * size, |list|)]
    ensures pages > 0 ==>
              var last := PageOf(list, pages - 1, size);
              && (last.hasMore <==> FirstPages(list, size, pages) != list)
              && (!last.hasMore ==> last.total == |list|)
              && last.total <= |list|
              && (last.hasMore ==> last.total == |FirstPages(list, size, pages)| + 1)
  {
    if pages > 0 {
      ResultPagesTile(list, size, pages - 1);
      assert (pages - 1) * size + size == pages * size;
    }
  }
}
