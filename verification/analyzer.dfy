/**
  The change-propagation engine (internal/analyzer): decides whether a
  module directory is affected by a set of changed files, directly or
  through the local child modules it references, memoising verdicts per
  clean absolute directory.
*/
module Analyzer {
  import opened Wrappers
  import opened Paths
  import opened FileSystem
  import opened Terraform

  /** The analyzer's state: the absolute changed files and the verdict cache. */
  datatype Analyzer = Analyzer(changedFiles: set<string>, analysisCache: map<string, bool>)

  /**
    NewAnalyzer: stores the absolute form of every changed file and starts
    with an empty cache; fails if some changed file cannot be made absolute.
  */
  function NewAnalyzer(env: Env, changed: set<string>): (r: Result<Analyzer, Error>)
    ensures r.Ok? <==> forall p :: p in changed ==> Abs(env.cwd, p).Some?
    ensures r.Err? ==> r.error == CwdUnavailable
    ensures r.Ok? ==> r.value.analysisCache == map[]
    ensures r.Ok? ==> forall p :: p in changed ==> Abs(env.cwd, p).value in r.value.changedFiles
    ensures r.Ok? ==> forall f :: f in r.value.changedFiles ==> exists p :: p in changed && Abs(env.cwd, p) == Some(f)
  {
    if forall p :: p in changed ==> Abs(env.cwd, p).Some? then
      Ok(Analyzer(set p | p in changed && Abs(env.cwd, p).Some? :: Abs(env.cwd, p).value, map[]))
    else
      Err(CwdUnavailable)
  }

  /** GetAnalysisCache: the cache, for inspection. */
  function GetAnalysisCache(a: Analyzer): map<string, bool> {
    a.analysisCache
  }

  /** ClearCache: empties the cache and keeps the changed files. */
  function ClearCache(a: Analyzer): (r: Analyzer)
    ensures r.analysisCache == map[]
    ensures r.changedFiles == a.changedFiles
  {
    a.(analysisCache := map[])
  }

  /** The key getAnalysisCache and setAnalysisCache compute for a directory. */
  function CacheKey(cwd: Option<string>, dir: string): Option<string> {
    var c := Clean(dir);
    if IsAbs(c) then Some(Clean(c))
    else
      match Abs(cwd, c)
      case None => None
      case Some(a) => Some(Clean(a))
  }

  /** The cache key is the clean absolute form of the directory. */
  lemma CacheKeyIsAbs(cwd: Option<string>, dir: string)
    requires ValidCwd(cwd)
    ensures CacheKey(cwd, dir) == Abs(cwd, dir)
  {
    CleanIdempotent(dir);
    AbsOfClean(cwd, dir);
    if Abs(cwd, Clean(dir)).Some? {
      AbsIsClean(cwd, Clean(dir));
    }
  }

  /** getAnalysisCache: the cached verdict, if any; fails when no key can be formed. */
  function GetCached(env: Env, a: Analyzer, dir: string): (r: Result<Option<bool>, Error>)
    ensures r.Err? <==> CacheKey(env.cwd, dir).None?
    ensures r.Err? ==> r.error == CwdUnavailable
    ensures r.Ok? ==> (r.value.Some? <==> CacheKey(env.cwd, dir).value in a.analysisCache)
    ensures r.Ok? && r.value.Some? ==> r.value.value == a.analysisCache[CacheKey(env.cwd, dir).value]
  {
    match CacheKey(env.cwd, dir)
    case None => Err(CwdUnavailable)
    case Some(k) => Ok(if k in a.analysisCache then Some(a.analysisCache[k]) else None)
  }

  /** setAnalysisCache: records a verdict under the directory's key. */
  function SetCached(env: Env, a: Analyzer, dir: string, updated: bool): (r: Result<Analyzer, Error>)
    ensures r.Err? <==> CacheKey(env.cwd, dir).None?
    ensures r.Err? ==> r.error == CwdUnavailable
    ensures r.Ok? ==> r.value == a.(analysisCache := a.analysisCache[CacheKey(env.cwd, dir).value := updated])
  {
    match CacheKey(env.cwd, dir)
    case None => Err(CwdUnavailable)
    case Some(k) => Ok(a.(analysisCache := a.analysisCache[k := updated]))
  }

  // ---------------------------------------------------------------------
  // Direct changes
  // ---------------------------------------------------------------------

  /** The absolute path hasDirectFileChanges compares for one entry. */
  function FileKey(env: Env, m: string, name: string): Option<string> {
    Abs(env.cwd, Clean(Join(m, name)))
  }

  /** A non-directory entry whose absolute path is exactly a changed file. */
  predicate ChangedEntry(env: Env, changed: set<string>, m: string, e: Entry) {
    !e.isDir && FileKey(env, m, e.name).Some? && FileKey(env, m, e.name).value in changed
  }

  /** A non-directory entry whose absolute path cannot be formed. */
  predicate UnresolvableEntry(env: Env, m: string, e: Entry) {
    !e.isDir && FileKey(env, m, e.name).None?
  }

  /** The loop of hasDirectFileChanges: stops at the first changed entry. */
  function ScanEntries(env: Env, changed: set<string>, m: string, entries: seq<Entry>): (r: Result<bool, Error>)
    ensures r.Ok? ==> (r.value <==> exists i :: 0 <= i < |entries| && ChangedEntry(env, changed, m, entries[i]))
    ensures r.Err? ==> r.error == AbsPathFailed(CwdUnavailable) && exists i :: 0 <= i < |entries| && UnresolvableEntry(env, m, entries[i])
    ensures (forall i :: 0 <= i < |entries| ==> !UnresolvableEntry(env, m, entries[i])) ==> r.Ok?
    decreases |entries|
  {
    if |entries| == 0 then Ok(false)
    else
      assert forall i :: 1 <= i < |entries| ==> entries[i] == entries[1..][i - 1];
      var e := entries[0];
      if e.isDir then ScanEntries(env, changed, m, entries[1..])
      else
        match FileKey(env, m, e.name)
        case None => Err(AbsPathFailed(CwdUnavailable))
        case Some(f) => if f in changed then Ok(true) else ScanEntries(env, changed, m, entries[1..])
  }

  /**
    hasDirectFileChanges: only the directory's own non-directory entries
    count; a listing failure propagates.
  */
  function HasDirectFileChanges(env: Env, changed: set<string>, dir: string): (r: Result<bool, Error>)
    ensures ReadDir(env, Clean(dir)).Err? ==> r == Err(ReadDirectoryFailed(ReadDirFailed))
    ensures r.Ok? ==> ReadDir(env, Clean(dir)).Ok? && (r.value <==>
      exists i :: 0 <= i < |ReadDir(env, Clean(dir)).value| && ChangedEntry(env, changed, Clean(dir), ReadDir(env, Clean(dir)).value[i]))
    ensures ReadDir(env, Clean(dir)).Ok? && Abs(env.cwd, dir).Some? ==> r.Ok?
  {
    var m := Clean(dir);
    match ReadDir(env, m)
    case Err(e) => Err(ReadDirectoryFailed(e))
    case Ok(entries) =>
      var r := ScanEntries(env, changed, m, entries);
      if Abs(env.cwd, dir).Some? then
        assert forall i :: 0 <= i < |entries| ==> !UnresolvableEntry(env, m, entries[i]) by {
          forall i | 0 <= i < |entries| ensures !UnresolvableEntry(env, m, entries[i]) {
            ResolveJoin(env.cwd, m, entries[i].name);
          }
        }
        r
      else r
  }

  /** Two spellings of one directory see the same direct changes. */
  lemma {:induction false} ScanEntriesSameKey(env: Env, changed: set<string>, m: string, k: string, entries: seq<Entry>)
    requires ValidCwd(env.cwd) && m != "" && Abs(env.cwd, m) == Some(k)
    ensures ScanEntries(env, changed, m, entries) == ScanEntries(env, changed, k, entries)
    decreases |entries|
  {
    if |entries| > 0 {
      var name := entries[0].name;
      JoinSameKey(env, m, k, name);
      AbsOfClean(env.cwd, Join(m, name));
      AbsOfClean(env.cwd, Join(k, name));
      assert FileKey(env, m, name) == FileKey(env, k, name);
      ScanEntriesSameKey(env, changed, m, k, entries[1..]);
    }
  }

  lemma DirectSameKey(env: Env, changed: set<string>, dir: string, k: string)
    requires ValidCwd(env.cwd) && Abs(env.cwd, dir) == Some(k)
    ensures HasDirectFileChanges(env, changed, Clean(dir)) == HasDirectFileChanges(env, changed, k)
  {
    var m := Clean(dir);
    CleanIdempotent(dir);
    AbsOfClean(env.cwd, dir);
    AbsIsClean(env.cwd, dir);
    assert Clean(k) == k;
    assert Abs(env.cwd, k) == Some(k);
    LookupSameKey(env, m, k);
    if ReadDir(env, m).Ok? {
      ScanEntriesSameKey(env, changed, m, k, ReadDir(env, m).value);
    }
  }

  // ---------------------------------------------------------------------
  // Acyclicity: a rank on the module graph
  // ---------------------------------------------------------------------

  /** The rank of a clean absolute directory; 0 when it does not exist. */
  function KeyRank(env: Env, rank: map<string, nat>, k: string): nat {
    if k in env.nodes && k in rank then rank[k] + 1 else 0
  }

  /** The rank of a directory, however it is spelled. */
  function Measure(env: Env, rank: map<string, nat>, d: string): nat {
    match Abs(env.cwd, d)
    case None => 0
    case Some(k) => KeyRank(env, rank, k)
  }

  predicate ChildrenBelow(env: Env, rank: map<string, nat>, kids: seq<string>, bound: nat) {
    forall i :: 0 <= i < |kids| ==> Measure(env, rank, kids[i]) < bound
  }

  /**
    The module graph is acyclic, witnessed by `rank`: every existing clean
    absolute directory is ranked above each child module it references.
    The source has no cycle check: it recurses without bound on a cycle it
    reaches through modules with no direct change. This asks for more: no
    cycle anywhere, even one never reached or one a direct change cuts short.
  */
  predicate Ranked(env: Env, rank: map<string, nat>) {
    forall k :: k in env.nodes && Abs(env.cwd, k) == Some(k) ==>
      && k in rank
      && (FindChildModules(env, k).Ok? ==> ChildrenBelow(env, rank, FindChildModules(env, k).value, rank[k] + 1))
  }

  /** The children found from any spelling of a directory rank below it. */
  lemma ChildrenRankBelow(env: Env, rank: map<string, nat>, dir: string)
    requires ValidCwd(env.cwd) && Ranked(env, rank)
    requires Abs(env.cwd, dir).Some? && Abs(env.cwd, dir).value in env.nodes
    requires FindChildModules(env, Clean(dir)).Ok?
    ensures ChildrenBelow(env, rank, FindChildModules(env, Clean(dir)).value, Measure(env, rank, dir))
  {
    var k := Abs(env.cwd, dir).value;
    AbsOfClean(env.cwd, dir);
    AbsIsClean(env.cwd, dir);
    assert Abs(env.cwd, k) == Some(k);
    FindChildModulesSameKey(env, Clean(dir), k);
  }

  // ---------------------------------------------------------------------
  // The reference verdict: the same decision procedure without a cache
  // ---------------------------------------------------------------------

  /** The verdict for a clean absolute directory. */
  ghost function VerdictAt(env: Env, changed: set<string>, k: string, rank: map<string, nat>): Result<bool, Error>
    requires ValidCwd(env.cwd) && Ranked(env, rank) && Abs(env.cwd, k) == Some(k)
    decreases KeyRank(env, rank, k), 1
  {
    if k !in env.nodes then Ok(false)
    else
      match HasDirectFileChanges(env, changed, k)
      case Err(e) => Err(DirectCheckFailed(e))
      case Ok(direct) =>
        if direct then Ok(true)
        else
          match FindChildModules(env, k)
          case Err(_) => Ok(false)
          case Ok(kids) => AnyVerdict(env, changed, kids, rank, KeyRank(env, rank, k))
  }

  /** The verdict for a directory, however it is spelled. */
  ghost function Verdict(env: Env, changed: set<string>, d: string, rank: map<string, nat>): Result<bool, Error>
    requires ValidCwd(env.cwd) && Ranked(env, rank)
    decreases Measure(env, rank, d), 2
  {
    match Abs(env.cwd, d)
    case None => Err(CwdUnavailable)
    case Some(k) =>
      AbsIsClean(env.cwd, d);
      VerdictAt(env, changed, k, rank)
  }

  /**
    The verdict over a list of children: true at the first true child, an
    error at the first failing child before that, false if all are false.
  */
  ghost function AnyVerdict(env: Env, changed: set<string>, kids: seq<string>, rank: map<string, nat>, bound: nat): Result<bool, Error>
    requires ValidCwd(env.cwd) && Ranked(env, rank) && ChildrenBelow(env, rank, kids, bound)
    decreases bound, 0, |kids|
  {
    if |kids| == 0 then Ok(false)
    else
      assert forall i :: 1 <= i < |kids| ==> kids[i] == kids[1..][i - 1];
      match Verdict(env, changed, kids[0], rank)
      case Err(e) => Err(ChildFailed(e))
      case Ok(updated) =>
        if updated then Ok(true)
        else AnyVerdict(env, changed, kids[1..], rank, bound)
  }

  /** Every child in the list is unaffected, without error. */
  ghost predicate AllFalse(env: Env, changed: set<string>, kids: seq<string>, rank: map<string, nat>)
    requires ValidCwd(env.cwd) && Ranked(env, rank)
  {
    forall i :: 0 <= i < |kids| ==> Verdict(env, changed, kids[i], rank) == Ok(false)
  }

  /** One step of AnyVerdict: the head child's verdict decides or passes on to the rest. */
  lemma AnyVerdictCons(env: Env, changed: set<string>, kids: seq<string>, rank: map<string, nat>, bound: nat)
    requires ValidCwd(env.cwd) && Ranked(env, rank) && ChildrenBelow(env, rank, kids, bound) && |kids| > 0
    ensures ChildrenBelow(env, rank, kids[1..], bound)
    ensures Verdict(env, changed, kids[0], rank).Err? ==>
      AnyVerdict(env, changed, kids, rank, bound) == Err(ChildFailed(Verdict(env, changed, kids[0], rank).error))
    ensures Verdict(env, changed, kids[0], rank) == Ok(true) ==> AnyVerdict(env, changed, kids, rank, bound) == Ok(true)
    ensures Verdict(env, changed, kids[0], rank) == Ok(false) ==>
      AnyVerdict(env, changed, kids, rank, bound) == AnyVerdict(env, changed, kids[1..], rank, bound)
  {
    assert forall i :: 1 <= i < |kids| ==> kids[i] == kids[1..][i - 1];
  }

  /** All children of a list with a head are unaffected when the head and the rest are. */
  lemma AllFalseCons(env: Env, changed: set<string>, kids: seq<string>, rank: map<string, nat>)
    requires ValidCwd(env.cwd) && Ranked(env, rank) && |kids| > 0
    ensures AllFalse(env, changed, kids, rank) <==>
      Verdict(env, changed, kids[0], rank) == Ok(false) && AllFalse(env, changed, kids[1..], rank)
  {
    assert forall i :: 1 <= i < |kids| ==> kids[i] == kids[1..][i - 1];
  }

  /** A prefix of length i + 1 of unaffected children: the head, then a prefix of the rest. */
  lemma AllFalsePrefix(env: Env, changed: set<string>, kids: seq<string>, rank: map<string, nat>, i: nat)
    requires ValidCwd(env.cwd) && Ranked(env, rank) && i < |kids|
    requires Verdict(env, changed, kids[0], rank) == Ok(false) && AllFalse(env, changed, kids[1..][..i], rank)
    ensures AllFalse(env, changed, kids[..i + 1], rank)
  {
    var pre := kids[..i + 1];
    var tail := kids[1..][..i];
    forall j | 0 <= j < |pre|
      ensures Verdict(env, changed, pre[j], rank) == Ok(false)
    {
      if j > 0 {
        assert pre[j] == tail[j - 1];
      }
    }
  }

  lemma {:induction false} AnyVerdictFalse(env: Env, changed: set<string>, kids: seq<string>, rank: map<string, nat>, bound: nat)
    requires ValidCwd(env.cwd) && Ranked(env, rank) && ChildrenBelow(env, rank, kids, bound)
    ensures AnyVerdict(env, changed, kids, rank, bound) == Ok(false) <==> AllFalse(env, changed, kids, rank)
    decreases |kids|
  {
    if |kids| > 0 {
      AnyVerdictCons(env, changed, kids, rank, bound);
      AllFalseCons(env, changed, kids, rank);
      AnyVerdictFalse(env, changed, kids[1..], rank, bound);
    }
  }

  lemma {:induction false} AnyVerdictTrue(env: Env, changed: set<string>, kids: seq<string>, rank: map<string, nat>, bound: nat)
    requires ValidCwd(env.cwd) && Ranked(env, rank) && ChildrenBelow(env, rank, kids, bound)
    requires AnyVerdict(env, changed, kids, rank, bound) == Ok(true)
    ensures exists i :: 0 <= i < |kids| && Verdict(env, changed, kids[i], rank) == Ok(true) && AllFalse(env, changed, kids[..i], rank)
    decreases |kids|
  {
    AnyVerdictCons(env, changed, kids, rank, bound);
    var rest := kids[1..];
    var v := Verdict(env, changed, kids[0], rank);
    if v == Ok(true) {
      assert kids[..0] == [];
      assert AllFalse(env, changed, kids[..0], rank);
    } else {
      assert v == Ok(false);
      AnyVerdictTrue(env, changed, rest, rank, bound);
      var i :| 0 <= i < |rest| && Verdict(env, changed, rest[i], rank) == Ok(true) && AllFalse(env, changed, rest[..i], rank);
      AllFalsePrefix(env, changed, kids, rank, i);
      assert kids[i + 1] == rest[i];
    }
  }

  lemma {:induction false} AnyVerdictErr(env: Env, changed: set<string>, kids: seq<string>, rank: map<string, nat>, bound: nat)
    requires ValidCwd(env.cwd) && Ranked(env, rank) && ChildrenBelow(env, rank, kids, bound)
    requires AnyVerdict(env, changed, kids, rank, bound).Err?
    ensures exists i :: (0 <= i < |kids| && AllFalse(env, changed, kids[..i], rank)
      && Verdict(env, changed, kids[i], rank).Err?
      && AnyVerdict(env, changed, kids, rank, bound).error == ChildFailed(Verdict(env, changed, kids[i], rank).error))
    decreases |kids|
  {
    AnyVerdictCons(env, changed, kids, rank, bound);
    var rest := kids[1..];
    var v := Verdict(env, changed, kids[0], rank);
    if v.Err? {
      assert kids[..0] == [];
      assert AllFalse(env, changed, kids[..0], rank);
    } else {
      assert v == Ok(false);
      AnyVerdictErr(env, changed, rest, rank, bound);
      var i :| 0 <= i < |rest| && AllFalse(env, changed, rest[..i], rank) && Verdict(env, changed, rest[i], rank).Err?
        && AnyVerdict(env, changed, rest, rank, bound).error == ChildFailed(Verdict(env, changed, rest[i], rank).error);
      AllFalsePrefix(env, changed, kids, rank, i);
      assert kids[i + 1] == rest[i];
    }
  }

  // ---------------------------------------------------------------------
  // IsModuleUpdated: the memoised traversal
  // ---------------------------------------------------------------------

  /** No entry present before is dropped or changed. */
  predicate Extends(before: map<string, bool>, after: map<string, bool>) {
    forall k :: k in before ==> k in after && after[k] == before[k]
  }

  /** Every entry added ranks below `bound`. */
  predicate NewKeysBelow(env: Env, rank: map<string, nat>, before: map<string, bool>, after: map<string, bool>, bound: nat) {
    forall k :: k in after && k !in before ==> KeyRank(env, rank, k) < bound
  }

  /**
    IsModuleUpdated: cache lookup; a missing directory is unaffected; a
    direct change makes it affected; a module whose children cannot be
    found is unaffected (fail-open); otherwise the first affected child
    makes it affected. Every successful return records its verdict under
    the directory's clean absolute key.
  */
  function IsModuleUpdated(env: Env, a: Analyzer, dir: string, ghost rank: map<string, nat>): (r: Result<(bool, Analyzer), Error>)
    requires ValidCwd(env.cwd) && Ranked(env, rank)
    ensures Abs(env.cwd, dir).None? ==> r == Err(CwdUnavailable)
    ensures r.Ok? ==> r.value.1.changedFiles == a.changedFiles
    ensures r.Ok? ==> (Abs(env.cwd, dir).Some? && Abs(env.cwd, dir).value in r.value.1.analysisCache
      && r.value.1.analysisCache[Abs(env.cwd, dir).value] == r.value.0)
    ensures r.Ok? ==> Extends(a.analysisCache, r.value.1.analysisCache)
    ensures r.Ok? ==> NewKeysBelow(env, rank, a.analysisCache, r.value.1.analysisCache, Measure(env, rank, dir) + 1)
    decreases Measure(env, rank, dir), 1
  {
    var m := Clean(dir);
    CacheKeyIsAbs(env.cwd, m);
    AbsOfClean(env.cwd, dir);
    var cached :- GetCached(env, a, m);
    if cached.Some? then Ok((cached.value, a))
    else if !Exists(env, m) then
      // the key resolved above, so recording cannot fail
      Ok((false, SetCached(env, a, m, false).value))
    else
      match HasDirectFileChanges(env, a.changedFiles, m)
      case Err(e) => Err(DirectCheckFailed(e))
      case Ok(direct) =>
        if direct then
          Ok((true, SetCached(env, a, m, true).value))
        else
          match FindChildModules(env, m)
          case Err(_) =>
            Ok((false, SetCached(env, a, m, false).value))
          case Ok(kids) =>
            ChildrenRankBelow(env, rank, dir);
            var res :- AnyChildUpdated(env, a, kids, rank, Measure(env, rank, dir));
            // the children never wrote this directory's entry
            assert Abs(env.cwd, dir).value !in res.1.analysisCache;
            Ok((res.0, SetCached(env, res.1, m, res.0).value))
  }

  /** The loop over children: stops at the first affected child or the first error. */
  function AnyChildUpdated(env: Env, a: Analyzer, kids: seq<string>, ghost rank: map<string, nat>, ghost bound: nat): (r: Result<(bool, Analyzer), Error>)
    requires ValidCwd(env.cwd) && Ranked(env, rank) && ChildrenBelow(env, rank, kids, bound)
    ensures r.Ok? ==> r.value.1.changedFiles == a.changedFiles
    ensures r.Ok? ==> Extends(a.analysisCache, r.value.1.analysisCache)
    ensures r.Ok? ==> NewKeysBelow(env, rank, a.analysisCache, r.value.1.analysisCache, bound)
    decreases bound, 0, |kids|
  {
    if |kids| == 0 then Ok((false, a))
    else
      assert ChildrenBelow(env, rank, kids[1..], bound);
      match IsModuleUpdated(env, a, kids[0], rank)
      case Err(e) => Err(ChildFailed(e))
      case Ok((updated, a1)) =>
        if updated then Ok((true, a1))
        else AnyChildUpdated(env, a1, kids[1..], rank, bound)
  }

  /** A cache hit returns the stored verdict and leaves the analyzer as it was. */
  lemma CacheHit(env: Env, a: Analyzer, dir: string, rank: map<string, nat>)
    requires ValidCwd(env.cwd) && Ranked(env, rank)
    requires Abs(env.cwd, dir).Some? && Abs(env.cwd, dir).value in a.analysisCache
    ensures IsModuleUpdated(env, a, dir, rank) == Ok((a.analysisCache[Abs(env.cwd, dir).value], a))
  {
    CacheKeyIsAbs(env.cwd, Clean(dir));
    AbsOfClean(env.cwd, dir);
  }

  /**
    The outcomes that do not look at children, on a cache miss: a missing
    directory is unaffected and cached so; a direct change is affected and
    cached so; a directory that cannot be listed is an error and nothing
    is cached; a module whose children cannot be found is unaffected and
    cached so (fail-open).
  */
  lemma MissOutcomes(env: Env, a: Analyzer, dir: string, rank: map<string, nat>)
    requires ValidCwd(env.cwd) && Ranked(env, rank)
    requires Abs(env.cwd, dir).Some? && Abs(env.cwd, dir).value !in a.analysisCache
    ensures var k := Abs(env.cwd, dir).value;
      var r := IsModuleUpdated(env, a, dir, rank);
      && (k !in env.nodes ==> r == Ok((false, a.(analysisCache := a.analysisCache[k := false]))))
      && (k in env.nodes && ReadDir(env, k).Err? ==> r == Err(DirectCheckFailed(ReadDirectoryFailed(ReadDirFailed))))
      && (k in env.nodes && DirectlyChanged(env, a.changedFiles, k) ==> r == Ok((true, a.(analysisCache := a.analysisCache[k := true]))))
      && (k in env.nodes && HasDirectFileChanges(env, a.changedFiles, k) == Ok(false) && FindChildModules(env, k).Err? ==>
            r == Ok((false, a.(analysisCache := a.analysisCache[k := false]))))
  {
    var k := Abs(env.cwd, dir).value;
    var m := Clean(dir);
    CacheKeyIsAbs(env.cwd, m);
    AbsOfClean(env.cwd, dir);
    AbsIsClean(env.cwd, dir);
    CleanIdempotent(dir);
    DirectSameKey(env, a.changedFiles, dir, k);
    assert m != "";
    FindChildModulesSameKey(env, m, k);
    if k in env.nodes && ReadDir(env, k).Err? {
      assert HasDirectFileChanges(env, a.changedFiles, k) == Err(ReadDirectoryFailed(ReadDirFailed));
    }
  }

  /**
    Checking a list of children in two parts: the second part is looked at
    only when every child of the first part is unaffected, and then with
    the cache the first part left behind.
  */
  lemma {:induction false} AnyChildAppend(env: Env, a: Analyzer, kids: seq<string>, later: seq<string>, rank: map<string, nat>, bound: nat)
    requires ValidCwd(env.cwd) && Ranked(env, rank)
    requires ChildrenBelow(env, rank, kids, bound) && ChildrenBelow(env, rank, later, bound)
    ensures ChildrenBelow(env, rank, kids + later, bound)
    ensures var first := AnyChildUpdated(env, a, kids, rank, bound);
      AnyChildUpdated(env, a, kids + later, rank, bound)
        == if first.Err? || first.value.0 then first else AnyChildUpdated(env, first.value.1, later, rank, bound)
    decreases |kids|
  {
    ChildrenBelowAppend(env, rank, kids, later, bound);
    if |kids| == 0 {
      assert kids + later == later;
    } else {
      var all := kids + later;
      assert all[0] == kids[0];
      assert all[1..] == kids[1..] + later;
      AnyChildHead(env, a, kids, rank, bound);
      AnyChildHead(env, a, all, rank, bound);
      var r0 := IsModuleUpdated(env, a, kids[0], rank);
      if r0.Ok? && !r0.value.0 {
        AnyChildAppend(env, r0.value.1, kids[1..], later, rank, bound);
      }
    }
  }

  lemma ChildrenBelowAppend(env: Env, rank: map<string, nat>, kids: seq<string>, later: seq<string>, bound: nat)
    requires ChildrenBelow(env, rank, kids, bound) && ChildrenBelow(env, rank, later, bound)
    ensures ChildrenBelow(env, rank, kids + later, bound)
  {
    var all := kids + later;
    forall i | 0 <= i < |all| ensures Measure(env, rank, all[i]) < bound {
      if i >= |kids| { assert all[i] == later[i - |kids|]; }
    }
  }

  /** One step of AnyChildUpdated, with the first child's outcome named. */
  lemma AnyChildHead(env: Env, a: Analyzer, kids: seq<string>, rank: map<string, nat>, bound: nat)
    requires ValidCwd(env.cwd) && Ranked(env, rank) && ChildrenBelow(env, rank, kids, bound) && |kids| > 0
    ensures ChildrenBelow(env, rank, kids[1..], bound)
    ensures var r0 := IsModuleUpdated(env, a, kids[0], rank);
      var r := AnyChildUpdated(env, a, kids, rank, bound);
      && (r0.Err? ==> r == Err(ChildFailed(r0.error)))
      && (r0.Ok? && r0.value.0 ==> r == Ok((true, r0.value.1)))
      && (r0.Ok? && !r0.value.0 ==> r == AnyChildUpdated(env, r0.value.1, kids[1..], rank, bound))
  {
    assert ChildrenBelow(env, rank, kids[1..], bound);
  }

  // ---------------------------------------------------------------------
  // The memoised traversal agrees with the reference verdict
  // ---------------------------------------------------------------------

  /** Every cached entry is keyed by a clean absolute path and holds that key's verdict. */
  ghost predicate CacheSound(env: Env, changed: set<string>, rank: map<string, nat>, cache: map<string, bool>)
    requires ValidCwd(env.cwd) && Ranked(env, rank)
  {
    forall k :: k in cache ==> Abs(env.cwd, k) == Some(k) && VerdictAt(env, changed, k, rank) == Ok(cache[k])
  }

  /** Lists naming the same directories have the same verdict. */
  lemma {:induction false} AnyVerdictSameKeys(env: Env, changed: set<string>, kids: seq<string>, kids': seq<string>, rank: map<string, nat>, bound: nat)
    requires ValidCwd(env.cwd) && Ranked(env, rank) && SameKeys(env, kids, kids')
    requires ChildrenBelow(env, rank, kids, bound)
    ensures ChildrenBelow(env, rank, kids', bound)
    ensures AnyVerdict(env, changed, kids, rank, bound) == AnyVerdict(env, changed, kids', rank, bound)
    decreases |kids|
  {
    assert forall i :: 0 <= i < |kids| ==> Measure(env, rank, kids[i]) == Measure(env, rank, kids'[i]);
    if |kids| > 0 {
      assert Verdict(env, changed, kids[0], rank) == Verdict(env, changed, kids'[0], rank);
      assert ChildrenBelow(env, rank, kids[1..], bound);
      AnyVerdictSameKeys(env, changed, kids[1..], kids'[1..], rank, bound);
    }
  }

  /** Recording a key's reference verdict keeps a sound cache sound. */
  lemma CacheSoundInsert(env: Env, changed: set<string>, rank: map<string, nat>, cache: map<string, bool>, k: string, v: bool)
    requires ValidCwd(env.cwd) && Ranked(env, rank) && CacheSound(env, changed, rank, cache)
    requires Abs(env.cwd, k) == Some(k) && VerdictAt(env, changed, k, rank) == Ok(v)
    ensures CacheSound(env, changed, rank, cache[k := v])
  {
  }

  /**
    IsModuleUpdated returns exactly the reference verdict, error or not,
    and leaves the cache sound.
  */
  lemma {:induction false} IsModuleUpdatedSound(env: Env, a: Analyzer, dir: string, rank: map<string, nat>)
    requires ValidCwd(env.cwd) && Ranked(env, rank)
    requires CacheSound(env, a.changedFiles, rank, a.analysisCache)
    ensures var r := IsModuleUpdated(env, a, dir, rank);
      && (r.Ok? ==> Verdict(env, a.changedFiles, dir, rank) == Ok(r.value.0))
      && (r.Ok? ==> CacheSound(env, a.changedFiles, rank, r.value.1.analysisCache))
      && (r.Err? ==> Verdict(env, a.changedFiles, dir, rank) == Err(r.error))
    decreases Measure(env, rank, dir), 1, 1
  {
    var changed := a.changedFiles;
    var m := Clean(dir);
    CacheKeyIsAbs(env.cwd, m);
    AbsOfClean(env.cwd, dir);
    if Abs(env.cwd, dir).Some? {
      var k := Abs(env.cwd, dir).value;
      AbsIsClean(env.cwd, dir);
      assert Verdict(env, changed, dir, rank) == VerdictAt(env, changed, k, rank);
      if k !in a.analysisCache {
        if k !in env.nodes {
          CacheSoundInsert(env, changed, rank, a.analysisCache, k, false);
        } else {
          DirectSameKey(env, changed, dir, k);
          var direct := HasDirectFileChanges(env, changed, k);
          if direct == Ok(true) {
            CacheSoundInsert(env, changed, rank, a.analysisCache, k, true);
          } else if direct == Ok(false) {
            assert m != "";
            FindChildModulesSameKey(env, m, k);
            if FindChildModules(env, m).Err? {
              CacheSoundInsert(env, changed, rank, a.analysisCache, k, false);
            } else {
              ChildrenSound(env, a, dir, rank);
              var res := AnyChildUpdated(env, a, FindChildModules(env, m).value, rank, Measure(env, rank, dir));
              if res.Ok? {
                CacheSoundInsert(env, changed, rank, res.value.1.analysisCache, k, res.value.0);
              }
            }
          }
        }
      }
    }
  }

  /** The children's part of IsModuleUpdatedSound: their loop yields the directory's reference verdict. */
  lemma {:induction false} ChildrenSound(env: Env, a: Analyzer, dir: string, rank: map<string, nat>)
    requires ValidCwd(env.cwd) && Ranked(env, rank)
    requires CacheSound(env, a.changedFiles, rank, a.analysisCache)
    requires Abs(env.cwd, dir).Some? && Abs(env.cwd, dir).value in env.nodes
    requires HasDirectFileChanges(env, a.changedFiles, Abs(env.cwd, dir).value) == Ok(false)
    requires FindChildModules(env, Clean(dir)).Ok?
    ensures ChildrenBelow(env, rank, FindChildModules(env, Clean(dir)).value, Measure(env, rank, dir))
    ensures Abs(env.cwd, Abs(env.cwd, dir).value) == Abs(env.cwd, dir)
    ensures var k := Abs(env.cwd, dir).value;
      var r := AnyChildUpdated(env, a, FindChildModules(env, Clean(dir)).value, rank, Measure(env, rank, dir));
      && (r.Ok? ==> VerdictAt(env, a.changedFiles, k, rank) == Ok(r.value.0))
      && (r.Ok? ==> CacheSound(env, a.changedFiles, rank, r.value.1.analysisCache))
      && (r.Err? ==> VerdictAt(env, a.changedFiles, k, rank) == Err(r.error))
    decreases Measure(env, rank, dir), 1, 0
  {
    var changed := a.changedFiles;
    var k := Abs(env.cwd, dir).value;
    var m := Clean(dir);
    AbsIsClean(env.cwd, dir);
    AbsOfClean(env.cwd, dir);
    CleanIdempotent(dir);
    assert m != "";
    FindChildModulesSameKey(env, m, k);
    ChildrenRankBelow(env, rank, dir);
    VerdictAtChildren(env, changed, k, rank);
    var kids := FindChildModules(env, m).value;
    var bound := Measure(env, rank, dir);
    AnyChildSound(env, a, kids, rank, bound);
    AnyVerdictSameKeys(env, changed, kids, FindChildModules(env, k).value, rank, bound);
  }

  lemma {:induction false} AnyChildSound(env: Env, a: Analyzer, kids: seq<string>, rank: map<string, nat>, bound: nat)
    requires ValidCwd(env.cwd) && Ranked(env, rank) && ChildrenBelow(env, rank, kids, bound)
    requires CacheSound(env, a.changedFiles, rank, a.analysisCache)
    ensures var r := AnyChildUpdated(env, a, kids, rank, bound);
      && (r.Ok? ==> AnyVerdict(env, a.changedFiles, kids, rank, bound) == Ok(r.value.0))
      && (r.Ok? ==> CacheSound(env, a.changedFiles, rank, r.value.1.analysisCache))
      && (r.Err? ==> AnyVerdict(env, a.changedFiles, kids, rank, bound) == Err(r.error))
    decreases bound, 0, |kids|
  {
    if |kids| > 0 {
      assert ChildrenBelow(env, rank, kids[1..], bound);
      IsModuleUpdatedSound(env, a, kids[0], rank);
      var r0 := IsModuleUpdated(env, a, kids[0], rank);
      if r0.Ok? && !r0.value.0 {
        AnyChildSound(env, r0.value.1, kids[1..], rank, bound);
      }
    }
  }

  /** A fresh or cleared cache is sound. */
  lemma EmptyCacheSound(env: Env, changed: set<string>, rank: map<string, nat>)
    requires ValidCwd(env.cwd) && Ranked(env, rank)
    ensures CacheSound(env, changed, rank, map[])
  {
  }

  /**
    Memoisation is transparent: two analyzers with the same changed files
    and sound caches give the same answer for every directory.
  */
  lemma CacheTransparent(env: Env, a: Analyzer, b: Analyzer, dir: string, rank: map<string, nat>)
    requires ValidCwd(env.cwd) && Ranked(env, rank) && a.changedFiles == b.changedFiles
    requires CacheSound(env, a.changedFiles, rank, a.analysisCache)
    requires CacheSound(env, b.changedFiles, rank, b.analysisCache)
    ensures IsModuleUpdated(env, a, dir, rank).Ok? == IsModuleUpdated(env, b, dir, rank).Ok?
    ensures IsModuleUpdated(env, a, dir, rank).Ok? ==>
      IsModuleUpdated(env, a, dir, rank).value.0 == IsModuleUpdated(env, b, dir, rank).value.0
  {
    IsModuleUpdatedSound(env, a, dir, rank);
    IsModuleUpdatedSound(env, b, dir, rank);
  }

  /** Asking again after an answer is a cache hit: same answer, same state. */
  lemma RepeatIsCacheHit(env: Env, a: Analyzer, dir: string, rank: map<string, nat>)
    requires ValidCwd(env.cwd) && Ranked(env, rank)
    requires IsModuleUpdated(env, a, dir, rank).Ok?
    ensures var a1 := IsModuleUpdated(env, a, dir, rank).value.1;
      IsModuleUpdated(env, a1, dir, rank) == IsModuleUpdated(env, a, dir, rank)
  {
    var (v, a1) := IsModuleUpdated(env, a, dir, rank).value;
    CacheKeyIsAbs(env.cwd, Clean(dir));
    AbsOfClean(env.cwd, dir);
    assert GetCached(env, a1, Clean(dir)) == Ok(Some(v));
  }

  // ---------------------------------------------------------------------
  // What "updated" means: a chain of module references to a changed file
  // ---------------------------------------------------------------------

  /** An existing module directory that itself holds a changed file. */
  predicate DirectlyChanged(env: Env, changed: set<string>, k: string) {
    k in env.nodes && HasDirectFileChanges(env, changed, k) == Ok(true)
  }

  /** `c` is the key of one of the child modules `p` references. */
  predicate ChildKey(env: Env, p: string, c: string) {
    && FindChildModules(env, p).Ok?
    && exists i :: 0 <= i < |FindChildModules(env, p).value| && Abs(env.cwd, FindChildModules(env, p).value[i]) == Some(c)
  }

  /** A chain of existing module keys, each referencing the next, ending in a directly changed module. */
  predicate ChangePath(env: Env, changed: set<string>, path: seq<string>) {
    && |path| > 0
    && DirectlyChanged(env, changed, path[|path| - 1])
    && (forall i :: 0 <= i < |path| ==> Abs(env.cwd, path[i]) == Some(path[i]) && path[i] in env.nodes)
    && (forall i :: 0 <= i < |path| - 1 ==> ChildKey(env, path[i], path[i + 1]))
  }

  /** Prepending a referencing module to a chain keeps it a chain. */
  lemma ChangePathCons(env: Env, changed: set<string>, k: string, rest: seq<string>)
    requires ChangePath(env, changed, rest) && Abs(env.cwd, k) == Some(k) && k in env.nodes
    requires ChildKey(env, k, rest[0])
    ensures ChangePath(env, changed, [k] + rest)
  {
    var path := [k] + rest;
    assert forall j :: 0 < j < |path| ==> path[j] == rest[j - 1];
  }

  /** Dropping the head of a chain of two or more keeps a chain. */
  lemma ChangePathTail(env: Env, changed: set<string>, path: seq<string>)
    requires ChangePath(env, changed, path) && |path| > 1
    ensures ChangePath(env, changed, path[1..]) && ChildKey(env, path[0], path[1])
  {
    var rest := path[1..];
    assert forall i :: 0 <= i < |rest| ==> rest[i] == path[i + 1];
  }

  /** The verdict of a module without direct changes is its children's verdict. */
  lemma VerdictAtChildren(env: Env, changed: set<string>, k: string, rank: map<string, nat>)
    requires ValidCwd(env.cwd) && Ranked(env, rank) && Abs(env.cwd, k) == Some(k)
    requires k in env.nodes && HasDirectFileChanges(env, changed, k) == Ok(false) && FindChildModules(env, k).Ok?
    ensures ChildrenBelow(env, rank, FindChildModules(env, k).value, KeyRank(env, rank, k))
    ensures VerdictAt(env, changed, k, rank) == AnyVerdict(env, changed, FindChildModules(env, k).value, rank, KeyRank(env, rank, k))
  {
  }

  /** An affected module has a chain of references down to a directly changed one. */
  lemma {:induction false} VerdictReachesChange(env: Env, changed: set<string>, k: string, rank: map<string, nat>) returns (path: seq<string>)
    requires ValidCwd(env.cwd) && Ranked(env, rank) && Abs(env.cwd, k) == Some(k)
    requires VerdictAt(env, changed, k, rank) == Ok(true)
    ensures ChangePath(env, changed, path) && path[0] == k
    decreases KeyRank(env, rank, k)
  {
    assert k in env.nodes;
    if HasDirectFileChanges(env, changed, k) == Ok(true) {
      path := [k];
    } else {
      assert HasDirectFileChanges(env, changed, k) == Ok(false);
      assert FindChildModules(env, k).Ok?;
      var kids := FindChildModules(env, k).value;
      var bound := KeyRank(env, rank, k);
      VerdictAtChildren(env, changed, k, rank);
      AnyVerdictTrue(env, changed, kids, rank, bound);
      var i :| 0 <= i < |kids| && Verdict(env, changed, kids[i], rank) == Ok(true) && AllFalse(env, changed, kids[..i], rank);
      var c := Abs(env.cwd, kids[i]).value;
      AbsIsClean(env.cwd, kids[i]);
      assert ChildKey(env, k, c);
      assert Measure(env, rank, kids[i]) < bound;
      var rest := VerdictReachesChange(env, changed, c, rank);
      ChangePathCons(env, changed, k, rest);
      path := [k] + rest;
    }
  }

  /** A child of an unaffected list is itself unaffected. */
  lemma AnyVerdictFalseAt(env: Env, changed: set<string>, kids: seq<string>, rank: map<string, nat>, bound: nat, j: nat)
    requires ValidCwd(env.cwd) && Ranked(env, rank) && ChildrenBelow(env, rank, kids, bound)
    requires AnyVerdict(env, changed, kids, rank, bound) == Ok(false) && j < |kids| && Abs(env.cwd, kids[j]).Some?
    ensures Abs(env.cwd, Abs(env.cwd, kids[j]).value) == Abs(env.cwd, kids[j])
    ensures VerdictAt(env, changed, Abs(env.cwd, kids[j]).value, rank) == Ok(false)
  {
    AnyVerdictFalse(env, changed, kids, rank, bound);
    assert Verdict(env, changed, kids[j], rank) == Ok(false);
    AbsIsClean(env.cwd, kids[j]);
  }

  /** The head of a chain is an existing clean absolute key; a one-key chain is directly changed. */
  lemma ChangePathHead(env: Env, changed: set<string>, path: seq<string>)
    requires ChangePath(env, changed, path)
    ensures Abs(env.cwd, path[0]) == Some(path[0]) && path[0] in env.nodes
    ensures |path| == 1 ==> DirectlyChanged(env, changed, path[0])
  {
  }

  /**
    A chain to a changed module makes its head affected, unless the
    head's verdict is an error (an error met first masks the chain).
  */
  lemma {:induction false} ReachableChangeVerdict(env: Env, changed: set<string>, path: seq<string>, rank: map<string, nat>)
    requires ValidCwd(env.cwd) && Ranked(env, rank) && ChangePath(env, changed, path)
    requires VerdictAt(env, changed, path[0], rank).Ok?
    ensures VerdictAt(env, changed, path[0], rank) == Ok(true)
    decreases |path|
  {
    var k := path[0];
    ChangePathHead(env, changed, path);
    var direct := HasDirectFileChanges(env, changed, k);
    if direct == Ok(true) {
      assert VerdictAt(env, changed, k, rank) == Ok(true);
    } else {
      assert |path| > 1;
      assert direct == Ok(false);
      ChangePathTail(env, changed, path);
      var kids := FindChildModules(env, k).value;
      var j :| 0 <= j < |kids| && Abs(env.cwd, kids[j]) == Some(path[1]);
      var bound := KeyRank(env, rank, k);
      VerdictAtChildren(env, changed, k, rank);
      var av := AnyVerdict(env, changed, kids, rank, bound);
      assert av.Ok?;
      if !av.value {
        AnyVerdictFalseAt(env, changed, kids, rank, bound, j);
        ReachableChangeVerdict(env, changed, path[1..], rank);
      }
      assert av == Ok(true);
    }
  }

  /**
    The main theorem: with a sound cache, IsModuleUpdated answers true
    exactly when a chain of module references leads from the directory to
    a directly changed module.
  */
  lemma UpdatedIffChangePath(env: Env, a: Analyzer, dir: string, rank: map<string, nat>)
    requires ValidCwd(env.cwd) && Ranked(env, rank)
    requires CacheSound(env, a.changedFiles, rank, a.analysisCache)
    requires IsModuleUpdated(env, a, dir, rank).Ok?
    ensures IsModuleUpdated(env, a, dir, rank).value.0 <==>
      exists path :: ChangePath(env, a.changedFiles, path) && path[0] == Abs(env.cwd, dir).value
  {
    IsModuleUpdatedSound(env, a, dir, rank);
    var k := Abs(env.cwd, dir).value;
    AbsIsClean(env.cwd, dir);
    if IsModuleUpdated(env, a, dir, rank).value.0 {
      var path := VerdictReachesChange(env, a.changedFiles, k, rank);
    }
    if exists path :: ChangePath(env, a.changedFiles, path) && path[0] == k {
      var path :| ChangePath(env, a.changedFiles, path) && path[0] == k;
      ReachableChangeVerdict(env, a.changedFiles, path, rank);
    }
  }
}
