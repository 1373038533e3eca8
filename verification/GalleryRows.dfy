/**
 Rows of the materialized gallery and the one order all gallery queries use:
 capture time descending, then canonical asset ID ascending.

 TEXT identifiers are integer codes that keep their order, and capture times are
 integers (nanoseconds), because the stored text form keeps the order of the instants.
 */
module GalleryRows {
  import opened Wrappers

  datatype Media = Image | Video

  datatype Row = Row(
    id: int,
    sourceKey: int,
    upstreamId: int,
    media: Media,
    filename: string,
    capturedAt: int,
    duration: Option<string>
  )

  predicate Before(a: Row, b: Row) {
    a.capturedAt > b.capturedAt || (a.capturedAt == b.capturedAt && a.id < b.id)
  }

  ghost predicate Sorted(s: seq<Row>) {
    forall i, j | 0 <= i < j < |s| :: Before(s[i], s[j])
  }

  ghost predicate UniqueIds(rows: set<Row>) {
    forall a, b | a in rows && b in rows && a.id == b.id :: a == b
  }

  predicate IsFirst(rows: set<Row>, m: Row) {
    m in rows && forall r | r in rows && r != m :: Before(m, r)
  }

  lemma FirstExists(rows: set<Row>)
    requires rows != {} && UniqueIds(rows)
    ensures exists m :: IsFirst(rows, m)
  {
    var x :| x in rows;
    var rest := rows - {x};
    if rest == {} {
      assert forall r | r in rows && r != x :: r in rest;
      assert IsFirst(rows, x);
    } else {
      FirstExists(rest);
      var m :| IsFirst(rest, m);
      if Before(m, x) {
        assert IsFirst(rows, m);
      } else {
        assert m.id != x.id;
        forall r | r in rows && r != x ensures Before(x, r) {
          if r != m { assert Before(m, r); }
        }
        assert IsFirst(rows, x);
      }
    }
  }

  /** `s` lists every row of the set once, in gallery order. */
  ghost predicate Lists(s: seq<Row>, rows: set<Row>) {
    Sorted(s) && (forall r :: r in s <==> r in rows) && |s| == |rows|
  }

  lemma {:induction false} ListingExists(rows: set<Row>)
    requires UniqueIds(rows)
    ensures exists s :: Lists(s, rows)
  {
    if rows == {} {
      assert Lists([], rows);
    } else {
      FirstExists(rows);
      var m :| IsFirst(rows, m);
      ListingExists(rows - {m});
      var s :| Lists(s, rows - {m});
      PrependSorted(m, s);
      assert forall r :: r in [m] + s <==> r == m || r in s;
      assert Lists([m] + s, rows);
    }
  }

  /** `SELECT ... ORDER BY captured_at DESC, canonical_asset_id ASC` over a set of rows. */
  ghost function Ordered(rows: set<Row>): (s: seq<Row>)
    requires UniqueIds(rows)
    ensures Lists(s, rows)
  {
    ListingExists(rows);
    var s :| Lists(s, rows);
    s
  }

  lemma PrependSorted(m: Row, s: seq<Row>)
    requires Sorted(s) && forall r | r in s :: Before(m, r)
    ensures Sorted([m] + s)
  {
  }

  lemma HeadIsElement(s: seq<Row>)
    ensures s != [] ==> s[0] in s
  {
  }

  /** A sorted sequence is determined by its rows. */
  lemma {:induction false} SortedUnique(s: seq<Row>, t: seq<Row>)
    requires Sorted(s) && Sorted(t)
    requires forall r :: r in s <==> r in t
    ensures s == t
  {
    HeadIsElement(s);
    HeadIsElement(t);
    if s != [] && t != [] {
      assert s[0] == t[0];
      forall r ensures r in s[1..] <==> r in t[1..] {
        if r in s[1..] { assert r in t && r != s[0]; }
        if r in t[1..] { assert r in s && r != t[0]; }
      }
      SortedUnique(s[1..], t[1..]);
      assert s == [s[0]] + s[1..] && t == [t[0]] + t[1..];
    }
  }

  lemma OrderedOfSorted(s: seq<Row>, rows: set<Row>)
    requires Sorted(s) && UniqueIds(rows)
    requires forall r :: r in s <==> r in rows
    ensures Ordered(rows) == s
  {
    SortedUnique(Ordered(rows), s);
  }

  function Filter(s: seq<Row>, p: Row -> bool): (f: seq<Row>)
    ensures |f| <= |s|
  {
    if s == [] then []
    else if p(s[0]) then [s[0]] + Filter(s[1..], p)
    else Filter(s[1..], p)
  }

  lemma {:induction false} FilterElements(s: seq<Row>, p: Row -> bool)
    ensures forall r :: r in Filter(s, p) <==> r in s && p(r)
  {
    if s != [] {
      FilterElements(s[1..], p);
      assert s == [s[0]] + s[1..];
    }
  }

  lemma {:induction false} FilterSorted(s: seq<Row>, p: Row -> bool)
    requires Sorted(s)
    ensures Sorted(Filter(s, p))
  {
    if s != [] {
      FilterSorted(s[1..], p);
      FilterElements(s[1..], p);
      forall r | r in Filter(s[1..], p) ensures Before(s[0], r) {
        assert r in s[1..];
      }
      if p(s[0]) { PrependSorted(s[0], Filter(s[1..], p)); }
    }
  }

  function Satisfying(table: set<Row>, p: Row -> bool): (rows: set<Row>)
    ensures rows <= table
  {
    set r | r in table && p(r)
  }

  /** `SELECT ... WHERE p ORDER BY ...`: selection first, then the gallery order. */
  ghost function Select(table: set<Row>, p: Row -> bool): seq<Row>
    requires UniqueIds(table)
  {
    Ordered(Satisfying(table, p))
  }

  /** Selecting and then sorting is the same as sorting and then filtering. */
  lemma SelectIsFilter(table: set<Row>, p: Row -> bool)
    requires UniqueIds(table)
    ensures Select(table, p) == Filter(Ordered(table), p)
    ensures |Filter(Ordered(table), p)| == |Satisfying(table, p)|
  {
    FilterSorted(Ordered(table), p);
    FilterElements(Ordered(table), p);
    OrderedOfSorted(Filter(Ordered(table), p), Satisfying(table, p));
  }

  function Min(a: nat, b: nat): nat { if a < b then a else b }

  /** `LIMIT limit OFFSET offset`. */
  function Slice(s: seq<Row>, offset: nat, limit: nat): (page: seq<Row>)
    ensures |page| == Min(limit, |s| - Min(offset, |s|))
  {
    s[Min(offset, |s|)..Min(offset + limit, |s|)]
  }

  /** Sorting a set of rows by repeatedly taking the first one. */
  method Sort(rows: set<Row>) returns (s: seq<Row>)
    requires UniqueIds(rows)
    ensures s == Ordered(rows)
  {
    s := [];
    var todo := rows;
    while todo != {}
      invariant todo <= rows
      invariant Sorted(s)
      invariant forall r :: r in s <==> r in rows && r !in todo
      invariant forall a, b | a in s && b in todo :: Before(a, b)
      decreases todo
    {
      FirstExists(todo);
      var m :| IsFirst(todo, m);
      s := s + [m];
      todo := todo - {m};
    }
    OrderedOfSorted(s, rows);
  }

  lemma {:induction false} FilterAll(s: seq<Row>, p: Row -> bool)
    requires forall i | 0 <= i < |s| :: p(s[i])
    ensures Filter(s, p) == s
  {
    if s != [] {
      FilterAll(s[1..], p);
      assert s == [s[0]] + s[1..];
    }
  }

  /** A filter that holds exactly on one contiguous range of a sequence selects that range. */
  lemma {:induction false} FilterRange(s: seq<Row>, lo: nat, hi: nat, p: Row -> bool)
    requires lo <= hi <= |s|
    requires forall i | 0 <= i < |s| :: p(s[i]) <==> lo <= i < hi
    ensures Filter(s, p) == s[lo..hi]
  {
    if s == [] {
    } else {
      var t := s[1..];
      var lo', hi' := if lo == 0 then 0 else lo - 1, if hi == 0 then 0 else hi - 1;
      forall i | 0 <= i < |t| ensures p(t[i]) <==> lo' <= i < hi' { assert t[i] == s[i + 1]; }
      FilterRange(t, lo', hi', p);
      RangeOfTail(s, lo, hi);
    }
  }

  lemma RangeOfTail(s: seq<Row>, lo: nat, hi: nat)
    requires lo <= hi <= |s| && s != []
    ensures lo > 0 ==> s[lo..hi] == s[1..][lo - 1..hi - 1]
    ensures lo == 0 < hi ==> s[lo..hi] == [s[0]] + s[1..][0..hi - 1]
    ensures hi == 0 ==> s[lo..hi] == [] == s[1..][0..0]
  {
  }
}
