/**
 Slash-separated path cleaning (`path.Clean` of the Go standard library), by segments:
 split at slashes, drop empty and "." segments, let ".." remove the segment before it.
 */
module CleanPaths {

  predicate Segment(s: string) {
    '/' !in s
  }

  function Split(s: string): (segs: seq<string>)
    ensures segs != [] && forall i | 0 <= i < |segs| :: Segment(segs[i])
  {
    if s == "" then [""]
    else if s[0] == '/' then [""] + Split(s[1..])
    else
      var rest := Split(s[1..]);
      [[s[0]] + rest[0]] + rest[1..]
  }

  function Join(segs: seq<string>): string {
    if segs == [] then ""
    else if |segs| == 1 then segs[0]
    else segs[0] + "/" + Join(segs[1..])
  }

  /** Let the segments, one by one, extend or shorten the output. */
  function Reduce(rooted: bool, segs: seq<string>, out: seq<string>): seq<string>
    decreases |segs|
  {
    if segs == [] then out
    else if segs[0] == "" || segs[0] == "." then Reduce(rooted, segs[1..], out)
    else if segs[0] == ".." then
      if out != [] && out[|out| - 1] != ".." then Reduce(rooted, segs[1..], out[..|out| - 1])
      else if rooted then Reduce(rooted, segs[1..], out)
      else Reduce(rooted, segs[1..], out + [".."])
    else Reduce(rooted, segs[1..], out + [segs[0]])
  }

  function Render(rooted: bool, out: seq<string>): string {
    if rooted then "/" + Join(out)
    else if out == [] then "."
    else Join(out)
  }

  function Rooted(s: string): bool {
    s != "" && s[0] == '/'
  }

  function Clean(s: string): string {
    if s == "" then "." else Render(Rooted(s), Reduce(Rooted(s), Split(s), []))
  }

  /** A segment list cleaning leaves alone: ".." only in front, and never under a root. */
  predicate Reduced(rooted: bool, out: seq<string>) {
    && (forall i | 0 <= i < |out| :: Segment(out[i]) && out[i] != "" && out[i] != ".")
    && (forall i | 0 <= i < |out| && out[i] == ".." :: !rooted && forall j | 0 <= j < i :: out[j] == "..")
  }

  lemma {:induction false} ReduceIsReduced(rooted: bool, segs: seq<string>, out: seq<string>)
    requires Reduced(rooted, out) && forall i | 0 <= i < |segs| :: Segment(segs[i])
    ensures Reduced(rooted, Reduce(rooted, segs, out))
    decreases |segs|
  {
    if segs == [] {
    } else if segs[0] == "" || segs[0] == "." {
      ReduceIsReduced(rooted, segs[1..], out);
    } else if segs[0] == ".." {
      if out != [] && out[|out| - 1] != ".." {
        ReduceIsReduced(rooted, segs[1..], out[..|out| - 1]);
      } else if rooted {
        ReduceIsReduced(rooted, segs[1..], out);
      } else {
        ReduceIsReduced(rooted, segs[1..], out + [".."]);
      }
    } else {
      ReduceIsReduced(rooted, segs[1..], out + [segs[0]]);
    }
  }

  lemma {:induction false} ReduceKeepsReduced(rooted: bool, segs: seq<string>, out: seq<string>)
    requires Reduced(rooted, out + segs)
    ensures Reduce(rooted, segs, out) == out + segs
    decreases |segs|
  {
    if segs == [] {
      assert out + segs == out;
    } else {
      var all := out + segs;
      assert all[|out|] == segs[0];
      assert out + [segs[0]] + segs[1..] == all;
      if segs[0] == ".." && out != [] {
        assert all[|out| - 1] == "..";
      }
      ReduceKeepsReduced(rooted, segs[1..], out + [segs[0]]);
    }
  }

  lemma {:induction false} SplitSegment(s: string)
    requires Segment(s)
    ensures Split(s) == [s]
  {
    if s != "" {
      assert forall c | c in s[1..] :: c in s;
      SplitSegment(s[1..]);
      assert [s[0]] + s[1..] == s;
    }
  }

  lemma {:induction false} SplitAfterSegment(s: string, t: string)
    requires Segment(s)
    ensures Split(s + "/" + t) == [s] + Split(t)
  {
    if s == "" {
      assert s + "/" + t == "/" + t && ("/" + t)[1..] == t;
    } else {
      assert forall c | c in s[1..] :: c in s;
      SplitAfterSegment(s[1..], t);
      assert (s + "/" + t)[1..] == s[1..] + "/" + t;
      assert [s[0]] + s[1..] == s;
    }
  }

  lemma {:induction false} SplitJoin(segs: seq<string>)
    requires segs != [] && forall i | 0 <= i < |segs| :: Segment(segs[i])
    ensures Split(Join(segs)) == segs
  {
    if |segs| == 1 {
      SplitSegment(segs[0]);
    } else {
      SplitJoin(segs[1..]);
      SplitAfterSegment(segs[0], Join(segs[1..]));
    }
  }

  lemma {:induction false} JoinAppend(a: seq<string>, b: seq<string>)
    requires a != [] && b != []
    ensures Join(a + b) == Join(a) + "/" + Join(b)
  {
    if |a| == 1 {
      assert (a + b)[1..] == b;
    } else {
      assert (a + b)[1..] == a[1..] + b;
      JoinAppend(a[1..], b);
      assert a[0] + "/" + (Join(a[1..]) + "/" + Join(b)) == (a[0] + "/" + Join(a[1..])) + "/" + Join(b);
    }
  }

  lemma JoinStart(segs: seq<string>)
    requires segs != [] && segs[0] != ""
    ensures Join(segs) != "" && Join(segs)[0] == segs[0][0]
  {
  }

  /** Rendered reduced segments are a fixed point of cleaning. */
  lemma CleanRendered(rooted: bool, out: seq<string>)
    requires Reduced(rooted, out)
    ensures Clean(Render(rooted, out)) == Render(rooted, out)
  {
    var s := Render(rooted, out);
    if rooted {
      assert s[1..] == Join(out);
      assert Split(s) == [""] + Split(Join(out));
      assert ([""] + Split(Join(out)))[1..] == Split(Join(out));
      if out == [] {
        assert Split("") == [""];
        assert Reduce(true, [""], []) == Reduce(true, [""][1..], []) == [];
      } else {
        SplitJoin(out);
        assert [] + out == out;
        ReduceKeepsReduced(true, out, []);
      }
    } else if out == [] {
      SplitSegment(".");
      assert Reduce(false, ["."], []) == Reduce(false, ["."][1..], []) == [];
    } else {
      JoinStart(out);
      assert out[0][0] in out[0];
      SplitJoin(out);
      assert [] + out == out;
      ReduceKeepsReduced(false, out, []);
    }
  }

  /** The segments of a cleaned path. */
  function Segments(s: string): (out: seq<string>) {
    Reduce(Rooted(s), Split(s), [])
  }

  lemma SegmentsAreReduced(s: string)
    ensures Reduced(Rooted(s), Segments(s))
    ensures s != "" ==> Clean(s) == Render(Rooted(s), Segments(s))
  {
    ReduceIsReduced(Rooted(s), Split(s), []);
  }

  lemma CleanIsIdempotent(s: string)
    ensures Clean(Clean(s)) == Clean(s)
  {
    if s == "" {
      CleanRendered(false, []);
    } else {
      SegmentsAreReduced(s);
      CleanRendered(Rooted(s), Segments(s));
    }
  }

  // ---------------------------------------------------------------- cleaning never grows

  function Length(segs: seq<string>): nat {
    if segs == [] then 0 else |segs[0]| + 1 + Length(segs[1..])
  }

  lemma {:induction false} LengthAppend(a: seq<string>, b: seq<string>)
    ensures Length(a + b) == Length(a) + Length(b)
  {
    if a == [] {
      assert a + b == b;
    } else {
      assert (a + b)[1..] == a[1..] + b;
      LengthAppend(a[1..], b);
    }
  }

  lemma {:induction false} JoinLength(segs: seq<string>)
    requires segs != []
    ensures |Join(segs)| + 1 == Length(segs)
  {
    if |segs| > 1 {
      JoinLength(segs[1..]);
    } else {
      assert segs[1..] == [];
    }
  }

  lemma {:induction false} SplitLength(s: string)
    ensures Length(Split(s)) == |s| + 1
  {
    if s == "" {
      assert Length([""]) == 1 + Length([""][1..]);
    } else {
      SplitLength(s[1..]);
      var rest := Split(s[1..]);
      if s[0] == '/' {
        assert ([""] + rest)[1..] == rest;
      } else {
        assert ([[s[0]] + rest[0]] + rest[1..])[1..] == rest[1..];
      }
    }
  }

  lemma {:induction false} ReduceLength(rooted: bool, segs: seq<string>, out: seq<string>)
    ensures Length(Reduce(rooted, segs, out)) <= Length(out) + Length(segs)
    decreases |segs|
  {
    if segs == [] {
    } else if segs[0] == "" || segs[0] == "." {
      ReduceLength(rooted, segs[1..], out);
    } else if segs[0] == ".." {
      if out != [] && out[|out| - 1] != ".." {
        ReduceLength(rooted, segs[1..], out[..|out| - 1]);
        assert out == out[..|out| - 1] + [out[|out| - 1]];
        LengthAppend(out[..|out| - 1], [out[|out| - 1]]);
      } else if rooted {
        ReduceLength(rooted, segs[1..], out);
      } else {
        ReduceLength(rooted, segs[1..], out + [".."]);
        LengthAppend(out, [".."]);
        assert Length([".."]) == 3 + Length([".."][1..]);
      }
    } else {
      ReduceLength(rooted, segs[1..], out + [segs[0]]);
      LengthAppend(out, [segs[0]]);
      assert Length([segs[0]]) == |segs[0]| + 1 + Length([segs[0]][1..]);
    }
  }

  lemma CleanNeverGrows(s: string)
    requires s != ""
    ensures |Clean(s)| <= |s|
  {
    var out := Segments(s);
    SplitLength(s);
    ReduceLength(Rooted(s), Split(s), []);
    if out != [] { JoinLength(out); }
    if Rooted(s) {
      var rest := Split(s)[1..];
      SplitLength(s[1..]);
      ReduceLength(true, rest, []);
    }
  }

  // ------------------------------------------------------------- joining cleaned paths

  /** A cleaned relative path that stays below its base. */
  predicate Below(rel: string) {
    rel != "" && rel != "." && rel != ".." && !("../" <= rel) && !Rooted(rel) && Clean(rel) == rel
  }

  lemma StartsUp(b: seq<string>)
    requires b != []
    ensures b[0] == ".." ==> Join(b) == ".." || "../" <= Join(b)
  {
    if |b| > 1 && b[0] == ".." {
      assert Join(b) == "../" + Join(b[1..]);
    }
  }

  lemma NoneUp(b: seq<string>)
    requires Reduced(false, b) && (b != [] ==> b[0] != "..")
    ensures Reduced(true, b)
  {
  }

  lemma BelowSegments(rel: string)
    requires Below(rel)
    ensures var b := Segments(rel);
            b != [] && Join(b) == rel && Reduced(true, b) && Reduced(false, b)
  {
    var b := Segments(rel);
    SegmentsAreReduced(rel);
    StartsUp(b);
    NoneUp(b);
  }

  lemma HasSegments(s: string)
    ensures s != "" && Clean(s) == s && s != "/" && s != "." ==> Segments(s) != []
  {
    SegmentsAreReduced(s);
    if Segments(s) == [] {
      assert Render(Rooted(s), []) == if Rooted(s) then "/" + "" else ".";
    }
  }

  /** Appending a path below a cleaned base other than "/" and "." needs no cleaning. */
  lemma CleanOfJoined(base: string, rel: string)
    requires base != "" && Clean(base) == base && base != "/" && base != "." && Below(rel)
    ensures Clean(base + "/" + rel) == base + "/" + rel
  {
    var a, b := Segments(base), Segments(rel);
    HasSegments(base);
    SegmentsAreReduced(base);
    BelowSegments(rel);
    JoinAppend(a, b);
    assert Render(Rooted(base), a + b) == base + "/" + rel;
    assert Reduced(Rooted(base), a + b);
    CleanRendered(Rooted(base), a + b);
  }

  lemma StartsHere(s: string)
    ensures "./" <= s ==> Split(s)[0] == "."
  {
    if "./" <= s {
      SplitAfterSegment(".", s[2..]);
      assert s == "." + "/" + s[2..];
    }
  }

  /** Appended to "/" or ".", it cleans to a path without that base in front. */
  lemma CleanOfRootJoined(rel: string)
    requires Below(rel)
    ensures Clean("/" + "/" + rel) == "/" + rel
    ensures Clean("." + "/" + rel) == rel
    ensures !("./" <= rel)
  {
    var b := Segments(rel);
    BelowSegments(rel);
    SplitJoin(b);
    assert [] + b == b;
    ReduceKeepsReduced(true, b, []);
    ReduceKeepsReduced(false, b, []);
    var slashes := "/" + "/" + rel;
    SplitAfterSegment("", "/" + rel);
    SplitAfterSegment("", rel);
    assert slashes == "" + "/" + ("/" + rel) && "/" + rel == "" + "/" + rel;
    assert Split(slashes) == [""] + ([""] + b);
    assert ([""] + ([""] + b))[1..] == [""] + b && ([""] + b)[1..] == b;
    assert Reduce(true, [""] + b, []) == b;
    assert Reduce(true, [""] + ([""] + b), []) == Reduce(true, [""] + b, []);
    SplitAfterSegment(".", rel);
    assert (["."] + b)[1..] == b;
    assert Reduce(false, ["."] + b, []) == Reduce(false, b, []);
    StartsHere(rel);
  }

  // ------------------------------------------------------------- the rules of cleaning

  lemma {:induction false} SplitAppend(a: string, b: string)
    ensures Split(a + "/" + b) == Split(a) + Split(b)
  {
    var s := a + "/" + b;
    if a == "" {
      assert s[1..] == b;
    } else {
      SplitAppend(a[1..], b);
      assert s[1..] == a[1..] + "/" + b && s[0] == a[0];
      SplitNext(a);
      SplitNext(s);
      var rest, more := Split(a[1..]), Split(b);
      if a[0] == '/' {
        assert [""] + (rest + more) == ([""] + rest) + more;
      } else {
        PrependToFirst([a[0]], rest, more);
      }
    }
  }

  lemma SplitNext(s: string)
    requires s != ""
    ensures Split(s) == if s[0] == '/' then [""] + Split(s[1..])
                        else [[s[0]] + Split(s[1..])[0]] + Split(s[1..])[1..]
  {
  }

  lemma PrependToFirst(x: string, rest: seq<string>, more: seq<string>)
    requires rest != []
    ensures [x + (rest + more)[0]] + (rest + more)[1..] == ([x + rest[0]] + rest[1..]) + more
  {
  }

  lemma {:induction false} ReduceAppend(rooted: bool, a: seq<string>, b: seq<string>, out: seq<string>)
    ensures Reduce(rooted, a + b, out) == Reduce(rooted, b, Reduce(rooted, a, out))
    decreases |a|
  {
    if a == [] {
      assert a + b == b;
    } else {
      assert (a + b)[1..] == a[1..] + b;
      if a[0] == "" || a[0] == "." {
        ReduceAppend(rooted, a[1..], b, out);
      } else if a[0] == ".." {
        if out != [] && out[|out| - 1] != ".." {
          ReduceAppend(rooted, a[1..], b, out[..|out| - 1]);
        } else if rooted {
          ReduceAppend(rooted, a[1..], b, out);
        } else {
          ReduceAppend(rooted, a[1..], b, out + [".."]);
        }
      } else {
        ReduceAppend(rooted, a[1..], b, out + [a[0]]);
      }
    }
  }

  /** Segments in the middle that leave every output as it was may be dropped. */
  lemma DropMiddle(rooted: bool, a: seq<string>, x: seq<string>, b: seq<string>)
    requires forall out :: Reduce(rooted, x, out) == out
    ensures Reduce(rooted, a + x + b, []) == Reduce(rooted, a + b, [])
  {
    ReduceAppend(rooted, a + x, b, []);
    ReduceAppend(rooted, a, x, []);
    ReduceAppend(rooted, a, b, []);
  }

  predicate Name(seg: string) {
    Segment(seg) && seg != "" && seg != "." && seg != ".."
  }

  lemma NameAndUp(rooted: bool, seg: string, out: seq<string>)
    requires Name(seg)
    ensures Reduce(rooted, [seg, ".."], out) == out
  {
    assert [seg, ".."][1..] == [".."] && [".."][1..] == [];
    assert Reduce(rooted, [seg, ".."], out) == Reduce(rooted, [".."], out + [seg]);
    assert (out + [seg])[..|out|] == out;
  }

  lemma SkipOne(rooted: bool, x: string, out: seq<string>)
    requires x == "" || x == "."
    ensures Reduce(rooted, [x], out) == out
  {
    assert [x][1..] == [];
  }

  /** Repeated slashes are one, "." is nothing, and ".." takes back the name before it. */
  lemma CleanDropsInside(a: string, seg: string, b: string)
    requires Name(seg)
    ensures Clean(a + "/" + "/" + b) == Clean(a + "/" + b)
    ensures Clean(a + "/" + "." + "/" + b) == Clean(a + "/" + b)
    ensures Clean(a + "/" + seg + "/" + ".." + "/" + b) == Clean(a + "/" + b)
  {
    var rooted := Rooted(a + "/" + b);
    SplitAppend(a, b);
    forall out ensures Reduce(rooted, [""], out) == out && Reduce(rooted, ["."], out) == out {
      SkipOne(rooted, "", out);
      SkipOne(rooted, ".", out);
    }
    forall out ensures Reduce(rooted, [seg, ".."], out) == out {
      NameAndUp(rooted, seg, out);
    }
    SplitMiddle(a, "", b);
    DropMiddle(rooted, Split(a), [""], Split(b));
    assert a + "/" + "" + "/" + b == a + "/" + "/" + b;
    SplitMiddle(a, ".", b);
    DropMiddle(rooted, Split(a), ["."], Split(b));
    SplitAppend(a + "/" + seg + "/" + "..", b);
    SplitMiddle(a, seg, "..");
    SplitSegment("..");
    DropMiddle(rooted, Split(a), [seg, ".."], Split(b));
    assert Split(a) + [seg] + [".."] == Split(a) + [seg, ".."];
  }

  lemma SplitMiddle(a: string, x: string, b: string)
    requires Segment(x)
    ensures Split(a + "/" + x + "/" + b) == Split(a) + [x] + Split(b)
  {
    SplitAppend(a + "/" + x, b);
    SplitAppend(a, x);
    SplitSegment(x);
  }

  /** Above the root is the root, a final slash is nothing, and neither is a leading ".". */
  lemma CleanDropsOutside(a: string, b: string)
    ensures Clean("/" + ".." + "/" + b) == Clean("/" + b)
    ensures a != "" ==> Clean(a + "/") == Clean(a)
    ensures b != "" && !Rooted(b) ==> Clean("." + "/" + b) == Clean(b)
  {
    SplitAfterSegment("", ".." + "/" + b);
    SplitAfterSegment("..", b);
    SplitAfterSegment("", b);
    assert "/" + ".." + "/" + b == "" + "/" + (".." + "/" + b) && "/" + b == "" + "/" + b;
    assert ([""] + ([".."] + Split(b)))[1..] == [".."] + Split(b) && ([".."] + Split(b))[1..] == Split(b);
    assert ([""] + Split(b))[1..] == Split(b);
    assert Reduce(true, [""] + ([".."] + Split(b)), []) == Reduce(true, [".."] + Split(b), []);
    assert Reduce(true, [""] + Split(b), []) == Reduce(true, Split(b), []);
    if a != "" {
      SplitAppend(a, "");
      assert a + "/" + "" == a + "/";
      ReduceAppend(Rooted(a), Split(a), [""], []);
      SkipOne(Rooted(a), "", Reduce(Rooted(a), Split(a), []));
    }
    SplitAfterSegment(".", b);
    assert (["."] + Split(b))[1..] == Split(b);
  }
}
