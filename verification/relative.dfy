/**
  ConvertToRelativePath: how the analyzer reports an affected module
  relative to the base path.
*/
module Relative {
  import opened Wrappers
  import opened Paths
  import opened FileSystem

  /** Both arguments must be absolute; the base is checked first. */
  predicate BothAbsolute(basePath: string, absolutePath: string) {
    IsAbs(basePath) && IsAbs(absolutePath)
  }

  /**
    ConvertToRelativePath as the source writes it: a plain string-prefix
    test decides whether to trim the base off the path or to ask Rel.
  */
  function ConvertToRelativePathAsWritten(basePath: string, absolutePath: string): (r: Result<string, Error>)
    ensures !IsAbs(basePath) ==> r == Err(BaseNotAbsolute)
    ensures IsAbs(basePath) && !IsAbs(absolutePath) ==> r == Err(PathNotAbsolute)
    ensures r.Ok? <==> BothAbsolute(basePath, absolutePath)
  {
    if !IsAbs(basePath) then Err(BaseNotAbsolute)
    else
      var b := Clean(basePath);
      if !IsAbs(absolutePath) then Err(PathNotAbsolute)
      else
        var p := Clean(absolutePath);
        if !HasPrefix(p, b) then Ok(Rel(b, p))
        else Ok(TrimPrefix(TrimPrefix(p, b), [Sep]))
  }

  /**
    The string-prefix test also accepts a sibling whose name extends the
    base's last element: from `/x`, the path `/xz` becomes `z`, which
    joined back onto the base names `/x/z` instead.
  */
  lemma AsWrittenSiblingPrefix(x: string, z: string)
    requires Plain(x) && Plain(z) && Plain(x + z)
    ensures ConvertToRelativePathAsWritten([Sep] + x, [Sep] + x + z) == Ok(z)
    ensures Join([Sep] + x, z) == [Sep] + x + [Sep] + z
    ensures Join([Sep] + x, z) != Clean([Sep] + x + z)
  {
    AsWrittenSiblingAnswer(x, z);
    JoinTwo(x, z);
    CleanSibling(x, z);
    assert |[Sep] + x + [Sep] + z| != |[Sep] + x + z|;
  }

  /** The same with base "/a" and path "/ab": the answer is "b", naming "/a/b". */
  lemma AsWrittenSiblingExample()
    ensures ConvertToRelativePathAsWritten("/a", "/ab") == Ok("b")
    ensures Join("/a", "b") != Clean("/ab")
  {
    assert Plain("a") && Plain("b") && Plain("ab");
    assert "a" + "b" == "ab";
    assert [Sep] + "a" == "/a";
    assert [Sep] + "a" + "b" == "/ab";
    AsWrittenSiblingPrefix("a", "b");
  }

  lemma AsWrittenSiblingAnswer(x: string, z: string)
    requires Plain(x) && Plain(z) && Plain(x + z)
    ensures ConvertToRelativePathAsWritten([Sep] + x, [Sep] + x + z) == Ok(z)
  {
    var b := [Sep] + x;
    var p := [Sep] + x + z;
    CleanSingle(x);
    CleanSibling(x, z);
    assert p[..|b|] == b;
    assert TrimPrefix(p, b) == z;
    assert z[0] != Sep;
  }

  /** The sibling path `/xz` is already clean. */
  lemma CleanSibling(x: string, z: string)
    requires Plain(x + z)
    ensures Clean([Sep] + x + z) == [Sep] + x + z
  {
    var p := [Sep] + (x + z);
    CleanSingle(x + z);
    assert p == [Sep] + x + z;
  }

  /** Joining a plain element onto a one-element absolute path. */
  lemma JoinTwo(x: string, y: string)
    requires Plain(x) && Plain(y)
    ensures Join([Sep] + x, y) == [Sep] + x + [Sep] + y
  {
    var es := [x, y];
    assert es[1..] == [y];
    assert JoinElements(es) == x + [Sep] + y;
    RootedElements(es);
    assert Rooted(es) == [Sep] + x + [Sep] + y;
  }

  /** A one-element absolute path is already clean. */
  lemma CleanSingle(e: string)
    requires Plain(e)
    ensures Clean([Sep] + e) == [Sep] + e
  {
    RootedElements([e]);
    assert Rooted([e]) == [Sep] + e;
  }

  /** The path is the base itself or lies below it, at an element boundary. */
  predicate UnderBase(b: string, p: string) {
    p == b || HasPrefix(p, b + [Sep])
  }

  /**
    ConvertToRelativePath with the prefix test at an element boundary;
    every other pair goes to Rel. The result names the path when joined
    onto the base, and is empty exactly for the base itself.
  */
  function ConvertToRelativePath(basePath: string, absolutePath: string): (r: Result<string, Error>)
    ensures !IsAbs(basePath) ==> r == Err(BaseNotAbsolute)
    ensures IsAbs(basePath) && !IsAbs(absolutePath) ==> r == Err(PathNotAbsolute)
    ensures r.Ok? <==> BothAbsolute(basePath, absolutePath)
    ensures r.Ok? ==> Join(Clean(basePath), r.value) == Clean(absolutePath)
    ensures r.Ok? ==> (r.value == "" <==> Clean(basePath) == Clean(absolutePath))
  {
    if !IsAbs(basePath) then Err(BaseNotAbsolute)
    else
      var b := Clean(basePath);
      if !IsAbs(absolutePath) then Err(PathNotAbsolute)
      else
        var p := Clean(absolutePath);
        if !UnderBase(b, p) then
          RelRoundTrip(b, p);
          RelNotEmpty(b, p);
          CleanIdempotent(absolutePath);
          Ok(Rel(b, p))
        else
          CleanIdempotent(basePath);
          CleanIdempotent(absolutePath);
          BoundaryTrim(b, p);
          Ok(TrimPrefix(TrimPrefix(p, b), [Sep]))
  }

  /**
    A path below the base becomes the elements below it, in both versions:
    `/x/a/b/c` from `/x` is `a/b/c`, and `/a` from `/` is `a`.
  */
  lemma ConvertDescendant(xs: seq<string>, ys: seq<string>)
    requires AllPlain(xs) && AllPlain(ys) && |ys| > 0
    ensures ConvertToRelativePath(Rooted(xs), Rooted(xs + ys)) == Ok(JoinElements(ys))
    ensures ConvertToRelativePathAsWritten(Rooted(xs), Rooted(xs + ys)) == Ok(JoinElements(ys))
  {
    if |xs| == 0 {
      assert xs + ys == ys;
      ConvertFromRoot(ys);
    } else {
      RootedConcat(xs, ys);
      RootedElements(xs);
      RootedElements(xs + ys);
      ConvertBelow(Rooted(xs), JoinElements(ys));
    }
  }

  lemma ConvertBelow(b: string, y: string)
    requires IsAbs(b) && Clean(b) == b && Clean(b + [Sep] + y) == b + [Sep] + y
    ensures ConvertToRelativePath(b, b + [Sep] + y) == Ok(y)
    ensures ConvertToRelativePathAsWritten(b, b + [Sep] + y) == Ok(y)
  {
    var p := b + [Sep] + y;
    assert p[..|b| + 1] == b + [Sep];
    assert p[..|b|] == b;
    assert UnderBase(b, p);
    assert TrimPrefix(p, b) == [Sep] + y;
    assert TrimPrefix([Sep] + y, [Sep]) == y;
  }

  /** From the root, a path is its own elements: Rel in the corrected version, the trimmed root as written. */
  lemma ConvertFromRoot(ys: seq<string>)
    requires AllPlain(ys) && |ys| > 0
    ensures ConvertToRelativePath(Rooted([]), Rooted(ys)) == Ok(JoinElements(ys))
    ensures ConvertToRelativePathAsWritten(Rooted([]), Rooted(ys)) == Ok(JoinElements(ys))
  {
    var b := Rooted([]);
    var p := Rooted(ys);
    RootedElements([]);
    RootedElements(ys);
    RootFacts(ys);
    RelFromRoot(ys);
    ConvertOutside(b, p);
  }

  /** The root is a string prefix of every rooted path, but never at an element boundary. */
  lemma RootFacts(ys: seq<string>)
    requires AllPlain(ys) && |ys| > 0
    ensures Rooted([]) == [Sep] && HasPrefix(Rooted(ys), [Sep]) && !UnderBase([Sep], Rooted(ys))
    ensures TrimPrefix(TrimPrefix(Rooted(ys), [Sep]), [Sep]) == JoinElements(ys)
  {
    var y := JoinElements(ys);
    assert Plain(ys[0]);
    JoinElementsHead(ys);
    SepHead(y);
  }

  /** A slash in front of a string that does not start with one. */
  lemma SepHead(y: string)
    requires |y| > 0 && y[0] != Sep
    ensures HasPrefix([Sep] + y, [Sep]) && !UnderBase([Sep], [Sep] + y)
    ensures TrimPrefix(TrimPrefix([Sep] + y, [Sep]), [Sep]) == y
  {
    var p := [Sep] + y;
    assert p[..1] == [Sep];
    assert p[1..] == y;
    assert p[1] == y[0];
  }

  lemma RelFromRoot(ys: seq<string>)
    requires AllPlain(ys) && |ys| > 0
    ensures Rel([Sep], Rooted(ys)) == JoinElements(ys)
  {
    RootedElements([]);
    RootedElements(ys);
    assert Rooted([]) == [Sep];
    var es := Elements(Rooted(ys));
    assert Rooted(ys) != [Sep] by {
      JoinElementsHead(ys);
    }
    assert CommonPrefix([], es) == 0;
    assert Ups(0) + es[0..] == ys;
  }

  /**
    A sibling of the base is reached through one parent step, `/x/other`
    from `/x/project` is `../other`; as written, the same holds unless the
    base's name is a string prefix of the sibling's, and then the answer is
    the rest of the sibling's name: `/x/project` from `/x/pro` is `ject`.
  */
  lemma ConvertSibling(xs: seq<string>, e: string, f: string)
    requires AllPlain(xs) && Plain(e) && Plain(f) && e != f
    ensures ConvertToRelativePath(Rooted(xs + [e]), Rooted(xs + [f])) == Ok(".." + [Sep] + f)
    ensures !HasPrefix(f, e) ==> ConvertToRelativePathAsWritten(Rooted(xs + [e]), Rooted(xs + [f])) == Ok(".." + [Sep] + f)
    ensures HasPrefix(f, e) ==> ConvertToRelativePathAsWritten(Rooted(xs + [e]), Rooted(xs + [f])) == Ok(f[|e|..])
  {
    var b := Rooted(xs + [e]);
    var p := Rooted(xs + [f]);
    var r := if |xs| == 0 then "" else Rooted(xs);
    RootedElements(xs + [e]);
    RootedElements(xs + [f]);
    SiblingSplit(xs, e);
    SiblingSplit(xs, f);
    SiblingNotUnder(r, e, f);
    assert !UnderBase(b, p);
    CommonPrefixSiblings(xs, e, f);
    assert (xs + [f])[|xs|..] == [f];
    assert RelElements(xs + [e], xs + [f]) == [".."] + [f];
    assert JoinElements([".."] + [f]) == ".." + [Sep] + f;
    ConvertOutside(b, p);
    SiblingPrefixIff(r, e, f);
    if HasPrefix(f, e) {
      assert SiblingPrefix(b, p);
      AsWrittenOnSiblingPrefix(b, p);
      assert p[|b|..] == f[|e|..];
    }
  }

  /** The last element of a rooted path, split off after its separator. */
  lemma SiblingSplit(xs: seq<string>, e: string)
    requires AllPlain(xs) && Plain(e)
    ensures Rooted(xs + [e]) == (if |xs| == 0 then "" else Rooted(xs)) + [Sep] + e
  {
    if |xs| == 0 {
      assert xs + [e] == [e];
    } else {
      RootedConcat(xs, [e]);
    }
    assert JoinElements([e]) == e;
  }

  /** `r/e` is a string prefix of `r/f` exactly when `e` is a string prefix of `f`. */
  lemma SiblingPrefixIff(r: string, e: string, f: string)
    ensures HasPrefix(r + [Sep] + f, r + [Sep] + e) <==> HasPrefix(f, e)
  {
    var b := r + [Sep] + e;
    var p := r + [Sep] + f;
    assert b[|r| + 1..] == e && p[|r| + 1..] == f;
    if HasPrefix(f, e) {
      assert p[..|b|] == r + [Sep] + f[..|e|];
    }
    if HasPrefix(p, b) {
      assert p[..|b|][|r| + 1..] == f[..|e|];
    }
  }

  /**
    A prefix that does not end at an element boundary: the base is a
    string prefix of the path without the path lying under the base. The
    root `/` ends at a boundary, so it is never such a base.
  */
  predicate SiblingPrefix(b: string, p: string) {
    HasPrefix(p, b) && !UnderBase(b, p) && b != [Sep]
  }

  /**
    On such a pair the source's answer is the path with the base's text cut
    off: the base and the answer, concatenated, give the path.
  */
  lemma AsWrittenOnSiblingPrefix(b: string, p: string)
    requires IsAbs(b) && Clean(b) == b && IsAbs(p) && Clean(p) == p && SiblingPrefix(b, p)
    ensures ConvertToRelativePathAsWritten(b, p) == Ok(p[|b|..])
    ensures p == b + p[|b|..] && p[|b|..] != ""
  {
    SiblingPrefixTrim(b, p);
  }

  /** The string facts behind it: the base's text comes off, and no slash follows. */
  lemma SiblingPrefixTrim(b: string, p: string)
    requires SiblingPrefix(b, p)
    ensures TrimPrefix(TrimPrefix(p, b), [Sep]) == p[|b|..]
    ensures p == b + p[|b|..] && p[|b|..] != ""
  {
    assert p != b && p[..|b|] == b;
    assert p[..|p|] == p;
    assert |p| > |b|;
    assert p[..|b| + 1] == p[..|b|] + [p[|b|]];
    var t := p[|b|..];
    assert TrimPrefix(p, b) == t;
    assert t[0] == p[|b|];
    assert !HasPrefix(t, [Sep]);
  }

  lemma ConvertOutside(b: string, p: string)
    requires IsAbs(b) && Clean(b) == b && IsAbs(p) && Clean(p) == p && !UnderBase(b, p)
    ensures ConvertToRelativePath(b, p) == Ok(Rel(b, p))
  {
  }

  /** Two element runs that part at their last element share everything before it. */
  lemma {:induction false} CommonPrefixSiblings(xs: seq<string>, e: string, f: string)
    requires e != f
    ensures CommonPrefix(xs + [e], xs + [f]) == |xs|
    decreases |xs|
  {
    if |xs| > 0 {
      assert (xs + [e])[1..] == xs[1..] + [e];
      assert (xs + [f])[1..] == xs[1..] + [f];
      CommonPrefixSiblings(xs[1..], e, f);
    }
  }

  /** `r/f` is neither `r/e` nor below it when `e` and `f` are different plain elements. */
  lemma SiblingNotUnder(r: string, e: string, f: string)
    requires Plain(e) && Plain(f) && e != f
    ensures !UnderBase(r + [Sep] + e, r + [Sep] + f)
  {
    var b := r + [Sep] + e;
    var p := r + [Sep] + f;
    assert b[|r| + 1..] == e && p[|r| + 1..] == f;
    if |p| > |b| {
      assert p[|b|] == f[|e|];
    }
  }

  /** Trimming the base and one separator off a path under it is undone by Join. */
  lemma BoundaryTrim(b: string, p: string)
    requires IsAbs(b) && Clean(b) == b && IsAbs(p) && Clean(p) == p && UnderBase(b, p)
    ensures var r := TrimPrefix(TrimPrefix(p, b), [Sep]);
      Join(b, r) == p && (r == "" <==> p == b)
  {
    if p == b {
      assert TrimPrefix(p, b) == "";
      assert TrimPrefix("", [Sep]) == "";
    } else {
      BelowBaseTrim(b, p);
    }
  }

  lemma BelowBaseTrim(b: string, p: string)
    requires IsAbs(b) && IsAbs(p) && Clean(p) == p && HasPrefix(p, b + [Sep])
    ensures var r := TrimPrefix(TrimPrefix(p, b), [Sep]);
      r != "" && Join(b, r) == p
  {
    var x := p[|b| + 1..];
    assert p == b + [Sep] + x;
    var t := TrimPrefix(p, b);
    assert HasPrefix(p, b);
    assert t == [Sep] + x;
    assert HasPrefix(t, [Sep]);
    assert TrimPrefix(t, [Sep]) == x;
    CleanNoTrailingSep(p);
    assert x != "";
    assert Join(b, x) == Clean(b + [Sep] + x);
  }

  /**
    The correction changes nothing except on the pairs the string test
    wrongly accepts: a prefix that does not end at an element boundary.
  */
  lemma CorrectedDiffersOnlyOnSiblingPrefix(basePath: string, absolutePath: string)
    requires BothAbsolute(basePath, absolutePath)
    ensures ConvertToRelativePath(basePath, absolutePath) != ConvertToRelativePathAsWritten(basePath, absolutePath)
       ==> SiblingPrefix(Clean(basePath), Clean(absolutePath))
  {
    var b := Clean(basePath);
    var p := Clean(absolutePath);
    if UnderBase(b, p) && p != b {
      assert p[..|b|] == (b + [Sep])[..|b|];
    }
    if b == [Sep] {
      RootBaseAgrees(basePath, absolutePath);
    }
  }

  /** From the root, the string test is right: both versions agree. */
  lemma RootBaseAgrees(basePath: string, absolutePath: string)
    requires BothAbsolute(basePath, absolutePath) && Clean(basePath) == [Sep]
    ensures ConvertToRelativePath(basePath, absolutePath) == ConvertToRelativePathAsWritten(basePath, absolutePath)
  {
    var p := Clean(absolutePath);
    CleanIdempotent(absolutePath);
    CleanAbsForm(p);
    var ys := Elements(p);
    RootedElements([]);
    if ys == [] {
      assert p == [Sep];
      assert UnderBase([Sep], p);
    } else {
      ConvertFromRoot(ys);
      RootedElements(ys);
    }
  }

  /** Where the string test is right, the source's answer already round-trips. */
  lemma AsWrittenRoundTripOffSiblings(basePath: string, absolutePath: string)
    requires BothAbsolute(basePath, absolutePath)
    requires !SiblingPrefix(Clean(basePath), Clean(absolutePath))
    ensures Join(Clean(basePath), ConvertToRelativePathAsWritten(basePath, absolutePath).value) == Clean(absolutePath)
  {
    CorrectedDiffersOnlyOnSiblingPrefix(basePath, absolutePath);
  }

  /**
    What a line of the source's report says about the path it stands for:
    joined onto the base it names the path, except on a sibling-prefix pair,
    where the base's text followed by the line spells the path.
  */
  predicate ReportNames(b: string, p: string, line: string) {
    && (!SiblingPrefix(b, p) ==> Join(b, line) == p)
    && (SiblingPrefix(b, p) ==> p == b + line)
  }

  /** The source's answer on two clean absolute paths, read as a report line. */
  lemma AsWrittenReportNames(b: string, p: string)
    requires IsAbs(b) && Clean(b) == b && IsAbs(p) && Clean(p) == p
    ensures ConvertToRelativePathAsWritten(b, p).Ok?
    ensures ReportNames(b, p, ConvertToRelativePathAsWritten(b, p).value)
  {
    if SiblingPrefix(b, p) {
      AsWrittenOnSiblingPrefix(b, p);
    } else {
      AsWrittenRoundTripOffSiblings(b, p);
    }
  }
}
