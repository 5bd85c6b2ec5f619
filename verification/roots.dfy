/**
  AnalyzeRootModules: one analyzer shared across all root modules, the
  affected ones reported relative to the base path, in input order.
*/
module Roots {
  import opened Wrappers
  import opened Paths
  import opened FileSystem
  import opened Relative
  import opened Analyzer

  /**
    The report line for an affected root: the source's relative form of its
    absolute path against the absolute base.
  */
  function RelOf(env: Env, basePath: string, dir: string): (r: Result<string, Error>)
    requires ValidCwd(env.cwd)
    ensures r.Err? <==> Abs(env.cwd, basePath).None? || Abs(env.cwd, dir).None?
    ensures r.Err? ==> r.error == CwdUnavailable
    ensures r.Ok? ==> ReportNames(Abs(env.cwd, basePath).value, Abs(env.cwd, dir).value, r.value)
  {
    match Abs(env.cwd, basePath)
    case None => Err(CwdUnavailable)
    case Some(ab) =>
      match Abs(env.cwd, dir)
      case None => Err(CwdUnavailable)
      case Some(ad) =>
        AbsIsClean(env.cwd, basePath);
        AbsIsClean(env.cwd, dir);
        AsWrittenReportNames(ab, ad);
        Ok(ConvertToRelativePathAsWritten(ab, ad).value)
  }

  /** An error, or the report lines found so far in front of those still to come. */
  function Prepend(front: seq<string>, r: Result<seq<string>, Error>): Result<seq<string>, Error> {
    match r
    case Err(e) => Err(e)
    case Ok(rest) => Ok(front + rest)
  }

  /**
    The reference answer: the first root whose verdict is an error, or
    whose report line cannot be formed, fails the whole run; otherwise
    the report lines of the affected roots, in order.
  */
  ghost function UpdatedRoots(env: Env, changed: set<string>, roots: seq<string>, basePath: string, rank: map<string, nat>): Result<seq<string>, Error>
    requires ValidCwd(env.cwd) && Ranked(env, rank)
    decreases |roots|
  {
    if |roots| == 0 then Ok([])
    else
      match Verdict(env, changed, roots[0], rank)
      case Err(e) => Err(RootFailed(e))
      case Ok(updated) =>
        if !updated then UpdatedRoots(env, changed, roots[1..], basePath, rank)
        else
          match RelOf(env, basePath, roots[0])
          case Err(e) => Err(e)
          case Ok(rel) => Prepend([rel], UpdatedRoots(env, changed, roots[1..], basePath, rank))
  }

  /**
    AnalyzeRootModules: builds one analyzer for the changed files and
    asks it about each root in turn, so later roots reuse earlier verdicts.
  */
  method AnalyzeRootModules(env: Env, roots: seq<string>, changedFiles: set<string>, basePath: string, ghost rank: map<string, nat>)
      returns (r: Result<seq<string>, Error>)
    requires ValidCwd(env.cwd) && Ranked(env, rank)
    ensures NewAnalyzer(env, changedFiles).Err? ==> r == Err(CwdUnavailable)
    ensures NewAnalyzer(env, changedFiles).Ok? ==>
      r == UpdatedRoots(env, NewAnalyzer(env, changedFiles).value.changedFiles, roots, basePath, rank)
  {
    var created := NewAnalyzer(env, changedFiles);
    if created.Err? {
      return Err(created.error);
    }
    var a := created.value;
    ghost var changed := a.changedFiles;
    EmptyCacheSound(env, changed, rank);
    var out: seq<string> := [];
    var i := 0;
    assert roots[i..] == roots;
    PrependAssoc([], [], UpdatedRoots(env, changed, roots, basePath, rank));
    while i < |roots|
      invariant 0 <= i <= |roots|
      invariant a.changedFiles == changed
      invariant CacheSound(env, changed, rank, a.analysisCache)
      invariant Prepend(out, UpdatedRoots(env, changed, roots[i..], basePath, rank)) == UpdatedRoots(env, changed, roots, basePath, rank)
      decreases |roots| - i
    {
      var d := roots[i];
      UpdatedRootsStep(env, changed, roots, i, basePath, rank);
      IsModuleUpdatedSound(env, a, d, rank);
      var res := IsModuleUpdated(env, a, d, rank);
      if res.Err? {
        return Err(RootFailed(res.error));
      }
      var updated := res.value.0;
      a := res.value.1;
      if updated {
        var rel := RelOf(env, basePath, d);
        if rel.Err? {
          return Err(rel.error);
        }
        PrependAssoc(out, [rel.value], UpdatedRoots(env, changed, roots[i + 1..], basePath, rank));
        out := out + [rel.value];
      }
      i := i + 1;
    }
    assert roots[|roots|..] == [];
    assert out + [] == out;
    return Ok(out);
  }

  /** One step of the reference answer, seen from position `i`. */
  lemma UpdatedRootsStep(env: Env, changed: set<string>, roots: seq<string>, i: nat, basePath: string, rank: map<string, nat>)
    requires ValidCwd(env.cwd) && Ranked(env, rank) && i < |roots|
    ensures var here := UpdatedRoots(env, changed, roots[i..], basePath, rank);
      var rest := UpdatedRoots(env, changed, roots[i + 1..], basePath, rank);
      var v := Verdict(env, changed, roots[i], rank);
      && (v.Err? ==> here == Err(RootFailed(v.error)))
      && (v == Ok(false) ==> here == rest)
      && (v == Ok(true) && RelOf(env, basePath, roots[i]).Err? ==> here == Err(RelOf(env, basePath, roots[i]).error))
      && (v == Ok(true) && RelOf(env, basePath, roots[i]).Ok? ==> here == Prepend([RelOf(env, basePath, roots[i]).value], rest))
  {
    assert roots[i..][1..] == roots[i + 1..];
  }

  lemma PrependAssoc(x: seq<string>, y: seq<string>, r: Result<seq<string>, Error>)
    ensures Prepend(x, Prepend(y, r)) == Prepend(x + y, r)
    ensures Prepend([], r) == r
  {
    if r.Ok? {
      assert x + (y + r.value) == (x + y) + r.value;
      assert [] + r.value == r.value;
    }
  }

  /** The roots whose verdict is "affected", in input order. */
  ghost function Affected(env: Env, changed: set<string>, roots: seq<string>, rank: map<string, nat>): (r: seq<string>)
    requires ValidCwd(env.cwd) && Ranked(env, rank)
    ensures forall x :: x in r <==> x in roots && Verdict(env, changed, x, rank) == Ok(true)
    ensures |r| <= |roots|
    decreases |roots|
  {
    if |roots| == 0 then []
    else
      var rest := Affected(env, changed, roots[1..], rank);
      assert forall x :: x in roots[1..] ==> x in roots;
      assert forall x :: x in roots ==> x == roots[0] || x in roots[1..];
      if Verdict(env, changed, roots[0], rank) == Ok(true) then [roots[0]] + rest else rest
  }

  /** Every root has a verdict. */
  ghost predicate AllDecided(env: Env, changed: set<string>, roots: seq<string>, rank: map<string, nat>)
    requires ValidCwd(env.cwd) && Ranked(env, rank)
  {
    forall i :: 0 <= i < |roots| ==> Verdict(env, changed, roots[i], rank).Ok?
  }

  /** The reference answer, one root at a time. */
  lemma UpdatedRootsCons(env: Env, changed: set<string>, roots: seq<string>, basePath: string, rank: map<string, nat>)
    requires ValidCwd(env.cwd) && Ranked(env, rank) && |roots| > 0
    ensures var here := UpdatedRoots(env, changed, roots, basePath, rank);
      var rest := UpdatedRoots(env, changed, roots[1..], basePath, rank);
      var v := Verdict(env, changed, roots[0], rank);
      && (v.Err? ==> here == Err(RootFailed(v.error)))
      && (v == Ok(false) ==> here == rest)
      && (v == Ok(true) && RelOf(env, basePath, roots[0]).Err? ==> here == Err(RelOf(env, basePath, roots[0]).error))
      && (v == Ok(true) && RelOf(env, basePath, roots[0]).Ok? ==> here == Prepend([RelOf(env, basePath, roots[0]).value], rest))
  {
  }

  /** Affected, one root at a time. */
  lemma AffectedCons(env: Env, changed: set<string>, roots: seq<string>, rank: map<string, nat>)
    requires ValidCwd(env.cwd) && Ranked(env, rank) && |roots| > 0
    ensures Affected(env, changed, roots, rank) ==
      (if Verdict(env, changed, roots[0], rank) == Ok(true) then [roots[0]] else []) + Affected(env, changed, roots[1..], rank)
    ensures AllDecided(env, changed, roots, rank) <==>
      Verdict(env, changed, roots[0], rank).Ok? && AllDecided(env, changed, roots[1..], rank)
  {
    AllDecidedCons(env, changed, roots, rank);
    if Verdict(env, changed, roots[0], rank) != Ok(true) {
      assert [] + Affected(env, changed, roots[1..], rank) == Affected(env, changed, roots[1..], rank);
    }
  }

  lemma AllDecidedCons(env: Env, changed: set<string>, roots: seq<string>, rank: map<string, nat>)
    requires ValidCwd(env.cwd) && Ranked(env, rank) && |roots| > 0
    ensures AllDecided(env, changed, roots, rank) <==>
      Verdict(env, changed, roots[0], rank).Ok? && AllDecided(env, changed, roots[1..], rank)
  {
    assert forall i :: 1 <= i < |roots| ==> roots[i] == roots[1..][i - 1];
  }

  /**
    The report succeeds exactly when every root has a verdict and, if any
    root is affected, the base path resolves.
  */
  lemma {:induction false} UpdatedRootsOk(env: Env, changed: set<string>, roots: seq<string>, basePath: string, rank: map<string, nat>)
    requires ValidCwd(env.cwd) && Ranked(env, rank)
    ensures UpdatedRoots(env, changed, roots, basePath, rank).Ok? <==>
      AllDecided(env, changed, roots, rank) && (Affected(env, changed, roots, rank) != [] ==> Abs(env.cwd, basePath).Some?)
    decreases |roots|
  {
    if |roots| > 0 {
      var rest := roots[1..];
      UpdatedRootsOk(env, changed, rest, basePath, rank);
      UpdatedRootsCons(env, changed, roots, basePath, rank);
      AffectedCons(env, changed, roots, rank);
      var v := Verdict(env, changed, roots[0], rank);
      if v == Ok(true) {
        assert Abs(env.cwd, roots[0]).Some?;
      }
    }
  }

  /** Each report line names the matching root against the absolute base. */
  predicate LinesName(env: Env, base: string, aff: seq<string>, out: seq<string>) {
    && |out| == |aff|
    && forall j :: 0 <= j < |aff| ==> Abs(env.cwd, aff[j]).Some? && ReportNames(base, Abs(env.cwd, aff[j]).value, out[j])
  }

  lemma LinesNameCons(env: Env, base: string, a0: string, rel: string, aff: seq<string>, out: seq<string>)
    requires LinesName(env, base, aff, out) && Abs(env.cwd, a0).Some? && ReportNames(base, Abs(env.cwd, a0).value, rel)
    ensures LinesName(env, base, [a0] + aff, [rel] + out)
  {
    var aff' := [a0] + aff;
    var out' := [rel] + out;
    forall j | 0 <= j < |aff'| ensures Abs(env.cwd, aff'[j]).Some? && ReportNames(base, Abs(env.cwd, aff'[j]).value, out'[j]) {
      if j > 0 {
        assert aff'[j] == aff[j - 1] && out'[j] == out[j - 1];
      }
    }
  }

  /**
    A successful report holds one line per affected root, in order, and
    each line names that root against the absolute base, in the sense of
    `ReportNames`.
  */
  lemma {:induction false} UpdatedRootsLines(env: Env, changed: set<string>, roots: seq<string>, basePath: string, rank: map<string, nat>)
    requires ValidCwd(env.cwd) && Ranked(env, rank)
    requires UpdatedRoots(env, changed, roots, basePath, rank).Ok?
    ensures var aff := Affected(env, changed, roots, rank);
      && (aff != [] ==> Abs(env.cwd, basePath).Some?)
      && (Abs(env.cwd, basePath).Some? ==>
            LinesName(env, Abs(env.cwd, basePath).value, aff, UpdatedRoots(env, changed, roots, basePath, rank).value))
      && |UpdatedRoots(env, changed, roots, basePath, rank).value| == |aff|
    decreases |roots|
  {
    if |roots| > 0 {
      var rest := roots[1..];
      UpdatedRootsCons(env, changed, roots, basePath, rank);
      AffectedCons(env, changed, roots, rank);
      var v := Verdict(env, changed, roots[0], rank);
      assert v.Ok?;
      UpdatedRootsLines(env, changed, rest, basePath, rank);
      if v.value {
        assert Abs(env.cwd, roots[0]).Some?;
        var rel := RelOf(env, basePath, roots[0]).value;
        var base := Abs(env.cwd, basePath).value;
        LinesNameCons(env, base, roots[0], rel, Affected(env, changed, rest, rank), UpdatedRoots(env, changed, rest, basePath, rank).value);
      }
    }
  }
}
