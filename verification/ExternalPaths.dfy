/**
 Mapping between a Local relative path and the original path of an Immich external
 library: join below a prefix, and take the path relative to a prefix. The two lemmas say
 exactly when one undoes the other.
 */
module ExternalPaths {
  import opened Wrappers
  import opened Text
  import opened CleanPaths

  /** `normalizeImmichExternalPath`: trim, then clean; blank stays blank. */
  function Normalize(value: string): string {
    var trimmed := Trim(value);
    if trimmed == "" then "" else Clean(trimmed)
  }

  /** `immichExternalOriginalPath`: the original path of a relative path below a prefix. */
  function OriginalPath(prefix: string, relative: string): Option<string> {
    var p, r := Normalize(prefix), Trim(relative);
    if p == "" || !Below(r) then None else Some(p + "/" + r)
  }

  /** `immichExternalRelativePath`: the part of an original path below a prefix. */
  function RelativePath(original: string, prefix: string): Option<string> {
    var o, p := Normalize(original), Normalize(prefix);
    if o == "" || p == "" || o == p || !(p + "/" <= o) then None
    else
      var r := o[|p| + 1..];
      if Below(r) then Some(r) else None
  }

  lemma {:induction false} TrimRightShorter(s: string)
    ensures |TrimRight(s)| == |s| ==> TrimRight(s) == s
  {
    assert s[..|s|] == s;
  }

  lemma TrimLeftShorter(s: string)
    ensures |TrimLeft(s)| == |s| ==> TrimLeft(s) == s && (s != "" ==> !IsSpace(s[0]))
  {
  }

  /** Trimming that keeps the length changes nothing. */
  lemma TrimSameLength(s: string)
    ensures |Trim(s)| == |s| ==> Trim(s) == s && (s != "" ==> !IsSpace(s[0]))
  {
    TrimLeftShorter(s);
    TrimRightShorter(TrimLeft(s));
  }

  lemma TrimStays(s: string)
    requires s == "" || (!IsSpace(s[0]) && !IsSpace(s[|s| - 1]))
    ensures Trim(s) == s
  {
  }

  lemma NormalizeIsClean(value: string)
    ensures Normalize(value) != "" ==> Clean(Normalize(value)) == Normalize(value)
    ensures Trim(value) == "" <==> Normalize(value) == ""
  {
    CleanIsIdempotent(Trim(value));
    if Trim(value) != "" {
      SegmentsAreReduced(Trim(value));
      if Segments(Trim(value)) != [] { JoinStart(Segments(Trim(value))); }
    }
  }

  /** The prefix keeps its text when a path below it is trimmed and cleaned. */
  predicate StablePrefix(p: string) {
    p != "" && p != "/" && p != "." && !IsSpace(p[0])
  }

  lemma JoinedIsNormal(p: string, r: string)
    requires StablePrefix(p) && Clean(p) == p && Below(r) && !IsSpace(r[|r| - 1])
    ensures Normalize(p + "/" + r) == p + "/" + r
  {
    var s := p + "/" + r;
    assert s[0] == p[0] && s[|s| - 1] == r[|r| - 1];
    TrimStays(s);
    CleanOfJoined(p, r);
  }

  lemma RelativeOfJoined(p: string, r: string)
    requires StablePrefix(p) && Clean(p) == p && Below(r) && !IsSpace(r[|r| - 1])
    ensures (p + "/" + r)[|p| + 1..] == r && p + "/" <= p + "/" + r != p
  {
    assert p + "/" + r == (p + "/") + r;
  }

  /** Below "/" or "." the joined path loses that prefix when it is normalized. */
  lemma RootPrefixIsLost(p: string, r: string)
    requires (p == "/" || p == ".") && Below(r)
    requires Trim(p + "/" + r) == p + "/" + r
    ensures !(p + "/" <= Normalize(p + "/" + r))
  {
    CleanOfRootJoined(r);
    if p == "/" {
      assert p + "/" + r == "/" + "/" + r;
      assert ("/" + r)[1] == r[0];
    } else {
      assert p + "/" + r == "." + "/" + r;
    }
  }

  /**
   Join, then take the relative path: the relative path comes back if and only if it had
   no surrounding white space and the normalized prefix is neither "/" nor "." and does
   not start with white space.
   */
  lemma JoinThenRelative(prefix: string, relative: string)
    requires OriginalPath(prefix, relative).Some?
    ensures RelativePath(OriginalPath(prefix, relative).value, prefix) == Some(relative)
            <==> Trim(relative) == relative && StablePrefix(Normalize(prefix))
  {
    var p, r := Normalize(prefix), Trim(relative);
    var original := p + "/" + r;
    NormalizeIsClean(prefix);
    if r == relative && StablePrefix(p) {
      JoinedIsNormal(p, r);
      RelativeOfJoined(p, r);
    }
    if RelativePath(original, prefix) == Some(relative) {
      assert |Normalize(original)| == |p| + 1 + |relative|;
      CleanNeverGrows(Trim(original));
      TrimSameLength(original);
      TrimSameLength(relative);
      assert original[0] == p[0];
      if p == "/" || p == "." {
        RootPrefixIsLost(p, r);
        assert false;
      }
    }
  }

  /**
   Take the relative path, then join: the normalized original path comes back if and only
   if the relative path has no surrounding white space.
   */
  lemma RelativeThenJoin(original: string, prefix: string)
    requires RelativePath(original, prefix).Some?
    ensures OriginalPath(prefix, RelativePath(original, prefix).value) == Some(Normalize(original))
            <==> Trim(RelativePath(original, prefix).value) == RelativePath(original, prefix).value
  {
    var o, p := Normalize(original), Normalize(prefix);
    var r := RelativePath(original, prefix).value;
    assert o == p + "/" + r by {
      assert o[..|p| + 1] == p + "/";
      assert o == o[..|p| + 1] + o[|p| + 1..];
    }
    TrimSameLength(r);
    if OriginalPath(prefix, r) == Some(o) {
      assert |p + "/" + Trim(r)| == |o|;
    }
  }

  lemma CleanName()
    ensures Clean("a.jpg") == "a.jpg"
  {
    var name := "a.jpg";
    assert |name| == 5 && Segment(name);
    CleanRendered(false, [name]);
  }

  lemma BelowName()
    ensures Below("a.jpg") && Trim("a.jpg") == "a.jpg"
  {
    CleanName();
    assert "a.jpg"[0] == 'a' && "a.jpg"[4] == 'g';
  }

  lemma TrimOfSpaced()
    ensures Trim(" a.jpg") == "a.jpg"
  {
    assert " a.jpg"[1..] == "a.jpg";
    assert TrimLeft(" a.jpg") == TrimLeft("a.jpg") == "a.jpg";
  }

  lemma NormalLibrary()
    ensures Normalize("/p") == "/p"
  {
    TrimStays("/p");
    CleanRendered(true, ["p"]);
    assert "/" + Join(["p"]) == "/p";
  }

  lemma JoinedName(relative: string)
    requires Trim(relative) == "a.jpg"
    ensures OriginalPath("/p", relative) == Some("/p/a.jpg")
  {
    BelowName();
    NormalLibrary();
    assert "/p" + "/" + "a.jpg" == "/p/a.jpg";
  }

  /** The file names "a.jpg" and " a.jpg" below "/p" have one original path, which leads back to the first. */
  lemma OriginalsOfName()
    ensures OriginalPath("/p", "a.jpg") == OriginalPath("/p", " a.jpg") == Some("/p/a.jpg")
    ensures RelativePath("/p/a.jpg", "/p") == Some("a.jpg")
  {
    BelowName();
    TrimOfSpaced();
    JoinedName("a.jpg");
    JoinedName(" a.jpg");
    NormalLibrary();
    assert StablePrefix("/p");
    JoinThenRelative("/p", "a.jpg");
  }

  /** A concrete failure: the root as prefix. */
  lemma RootPrefixFails()
    ensures OriginalPath("/", "a.jpg").Some?
    ensures RelativePath(OriginalPath("/", "a.jpg").value, "/") != Some("a.jpg")
  {
    BelowName();
    TrimStays("/");
    CleanRendered(true, []);
    assert Render(true, []) == "/" + "" == "/";
    JoinThenRelative("/", "a.jpg");
  }

  /** A concrete failure: a file name that starts with a space. */
  lemma LeadingSpaceFails()
    ensures OriginalPath("/p", " a.jpg").Some?
    ensures RelativePath(OriginalPath("/p", " a.jpg").value, "/p") != Some(" a.jpg")
  {
    BelowName();
    TrimOfSpaced();
    NormalLibrary();
    JoinThenRelative("/p", " a.jpg");
  }

  lemma SegmentIsBelow(name: string)
    requires Segment(name) && name != "" && name[0] != '.'
    ensures Below(name)
  {
    CleanRendered(false, [name]);
    assert name[0] in name;
  }

  /** A name below a normal prefix, read back from the joined path whatever its first character. */
  lemma RelativeOfName(prefix: string, name: string)
    requires Normalize(prefix) == prefix && StablePrefix(prefix) && Below(name) && !IsSpace(name[|name| - 1])
    ensures RelativePath(prefix + "/" + name, prefix) == Some(name)
  {
    NormalizeIsClean(prefix);
    JoinedIsNormal(prefix, name);
    RelativeOfJoined(prefix, name);
  }

  /** A space inside an original path stays in front of the relative path. */
  lemma SpacedIsRelative()
    ensures RelativePath("/p/ a.jpg", "/p") == Some(" a.jpg")
  {
    SpacedIsBelow();
    NormalLibrary();
    RelativeOfName("/p", " a.jpg");
    assert "/p" + "/" + " a.jpg" == "/p/ a.jpg";
  }

  lemma SpacedIsBelow()
    ensures Below(" a.jpg") && !IsSpace(" a.jpg"[5]) && |" a.jpg"| == 6
  {
    var name := " a.jpg";
    assert |name| == 6 && Segment(name) && name[0] == ' ' && name[5] == 'g';
    SegmentIsBelow(name);
  }
}
