/**
  Child-module discovery for one module directory (internal/terraform):
  list the `.tf` files, collect the string `source` of every `module`
  block, keep the sources that exist locally and are not absolute, and
  resolve them against the module directory.
*/
module Terraform {
  import opened Wrappers
  import opened Paths
  import opened FileSystem

  const TfSuffix: string := ".tf"

  predicate HasSuffix(s: string, suf: string) {
    |suf| <= |s| && s[|s| - |suf|..] == suf
  }

  /** The entries findTerraformFiles keeps: files whose name ends in `.tf`. */
  predicate IsTfFile(e: Entry) {
    !e.isDir && HasSuffix(e.name, TfSuffix)
  }

  /** The `.tf` entries of a listing, each joined onto `dir`, in listing order. */
  function TfPaths(dir: string, entries: seq<Entry>): (files: seq<string>)
    ensures |files| <= |entries|
    ensures forall f :: f in files ==> exists i :: 0 <= i < |entries| && IsTfFile(entries[i]) && f == Join(dir, entries[i].name)
    ensures forall i :: 0 <= i < |entries| && IsTfFile(entries[i]) ==> Join(dir, entries[i].name) in files
    decreases |entries|
  {
    if |entries| == 0 then []
    else
      var rest := TfPaths(dir, entries[1..]);
      assert forall i :: 1 <= i < |entries| ==> entries[i] == entries[1..][i - 1];
      if IsTfFile(entries[0]) then [Join(dir, entries[0].name)] + rest else rest
  }

  /** Listing order is kept: the files of a split listing are the files of its parts. */
  lemma {:induction false} TfPathsAppend(dir: string, xs: seq<Entry>, ys: seq<Entry>)
    ensures TfPaths(dir, xs + ys) == TfPaths(dir, xs) + TfPaths(dir, ys)
    decreases |xs|
  {
    if |xs| > 0 {
      assert (xs + ys)[1..] == xs[1..] + ys;
      TfPathsAppend(dir, xs[1..], ys);
    } else {
      assert xs + ys == ys;
    }
  }

  /** findTerraformFiles: non-recursive; fails only when the directory cannot be read. */
  function FindTerraformFiles(env: Env, dir: string): (r: Result<seq<string>, Error>)
    ensures r.Err? <==> ReadDir(env, dir).Err?
    ensures r.Err? ==> r.error == ReadDirectoryFailed(ReadDirFailed)
    ensures r.Ok? ==> r.value == TfPaths(dir, ReadDir(env, dir).value)
  {
    match ReadDir(env, dir)
    case Err(e) => Err(ReadDirectoryFailed(e))
    case Ok(entries) => Ok(TfPaths(dir, entries))
  }

  /** The string sources among a file's module blocks, in block order. */
  function StringSources(blocks: seq<SourceAttr>): (srcs: seq<string>)
    ensures |srcs| <= |blocks|
    ensures forall s :: s in srcs <==> StringValue(s) in blocks
    ensures (forall i :: 0 <= i < |blocks| ==> blocks[i].StringValue?) ==> |srcs| == |blocks|
    decreases |blocks|
  {
    if |blocks| == 0 then []
    else
      var rest := StringSources(blocks[1..]);
      assert blocks == [blocks[0]] + blocks[1..];
      match blocks[0]
      case StringValue(s) => [s] + rest
      case _ => rest
  }

  /** Block order is kept across a split of the blocks. */
  lemma {:induction false} StringSourcesAppend(xs: seq<SourceAttr>, ys: seq<SourceAttr>)
    ensures StringSources(xs + ys) == StringSources(xs) + StringSources(ys)
    decreases |xs|
  {
    if |xs| > 0 {
      assert (xs + ys)[1..] == xs[1..] + ys;
      StringSourcesAppend(xs[1..], ys);
    } else {
      assert xs + ys == ys;
    }
  }

  /**
    extractModuleSources: a file that does not parse is an error; within a
    parsed file, blocks without a usable string source are skipped.
  */
  function ExtractModuleSources(env: Env, file: string): (r: Result<seq<string>, Error>)
    ensures r.Err? <==> !(Lookup(env, file).Some? && Lookup(env, file).value.File? && Lookup(env, file).value.moduleBlocks.Some?)
    ensures r.Err? ==> r.error == ParseFailed
    ensures r.Ok? ==> r.value == StringSources(Lookup(env, file).value.moduleBlocks.value)
  {
    match Lookup(env, file)
    case Some(File(Some(blocks))) => Ok(StringSources(blocks))
    case _ => Err(ParseFailed)
  }

  /** resolveModulePath: the source joined onto the module directory, cleaned. */
  function ResolveModulePath(dir: string, src: string): string {
    Clean(Join(dir, src))
  }

  /**
    A relative source of `n` parent steps and then plain elements, resolved
    against a module directory, climbs `n` elements and descends again:
    `../sibling` from `/x/parent` names `/x/sibling`.
  */
  lemma ResolveModulePathUps(es: seq<string>, n: nat, ts: seq<string>)
    requires AllPlain(es) && n <= |es| && AllPlain(ts) && n + |ts| > 0
    ensures ResolveModulePath(Rooted(es), JoinElements(Ups(n) + ts)) == Rooted(es[..|es| - n] + ts)
  {
    var dir := Rooted(es);
    var els := Ups(n) + ts;
    var src := JoinElements(els);
    UpsThenPlainSimple(n, ts);
    ElementsOfJoin(els);
    JoinElementsHead(els);
    RootedElements(es);
    var j := Join(dir, src);
    ResolveJoin(None, dir, src);
    NormPlain(true, [], es);
    assert Resolve(None, dir) == es;
    NormConcat(true, es, Ups(n), ts);
    NormUps(es, n);
    NormPlain(true, es[..|es| - n], ts);
    assert Resolve(None, j) == es[..|es| - n] + ts;
    AbsForm(None, j);
    CleanIdempotent(dir + [Sep] + src);
  }

  /** A source becomes a child when it exists locally and is not absolute. */
  predicate Kept(env: Env, dir: string, src: string) {
    Exists(env, Join(dir, src)) && !IsAbs(src)
  }

  /** The inner loop of FindChildModules over one file's sources. */
  function ResolveSources(env: Env, dir: string, srcs: seq<string>): (kids: seq<string>)
    ensures |kids| <= |srcs|
    ensures forall c :: c in kids ==> exists s :: s in srcs && Kept(env, dir, s) && c == ResolveModulePath(dir, s)
    ensures forall s :: s in srcs && Kept(env, dir, s) ==> ResolveModulePath(dir, s) in kids
    ensures (forall i :: 0 <= i < |srcs| ==> Kept(env, dir, srcs[i])) ==> |kids| == |srcs|
    decreases |srcs|
  {
    if |srcs| == 0 then []
    else
      var rest := ResolveSources(env, dir, srcs[1..]);
      assert srcs == [srcs[0]] + srcs[1..];
      var src := srcs[0];
      if !Exists(env, Join(dir, src)) then rest
      else if IsAbs(src) then rest
      else [ResolveModulePath(dir, src)] + rest
  }

  /** Source order is kept across a split of the sources. */
  lemma {:induction false} ResolveSourcesAppend(env: Env, dir: string, xs: seq<string>, ys: seq<string>)
    ensures ResolveSources(env, dir, xs + ys) == ResolveSources(env, dir, xs) + ResolveSources(env, dir, ys)
    decreases |xs|
  {
    if |xs| > 0 {
      assert (xs + ys)[1..] == xs[1..] + ys;
      ResolveSourcesAppend(env, dir, xs[1..], ys);
    } else {
      assert xs + ys == ys;
    }
  }

  /** The outer loop of FindChildModules: parse each file, resolve its sources, append. */
  function ChildrenOfFiles(env: Env, dir: string, files: seq<string>): (r: Result<seq<string>, Error>)
    ensures r.Err? <==> exists i :: 0 <= i < |files| && ExtractModuleSources(env, files[i]).Err?
    ensures r.Err? ==> r.error == ParseFileFailed(ParseFailed)
    decreases |files|
  {
    if |files| == 0 then Ok([])
    else
      assert forall i :: 1 <= i < |files| ==> files[i] == files[1..][i - 1];
      match ExtractModuleSources(env, files[0])
      case Err(e) => Err(ParseFileFailed(e))
      case Ok(srcs) =>
        var rest :- ChildrenOfFiles(env, dir, files[1..]);
        Ok(ResolveSources(env, dir, srcs) + rest)
  }

  /** FindChildModules: all or nothing; no partial list when a file fails. */
  function FindChildModules(env: Env, dir: string): (r: Result<seq<string>, Error>)
    ensures r.Err? <==> (ReadDir(env, dir).Err? ||
      exists i :: 0 <= i < |FindTerraformFiles(env, dir).value| && ExtractModuleSources(env, FindTerraformFiles(env, dir).value[i]).Err?)
    ensures ReadDir(env, dir).Err? ==> r == Err(FindFilesFailed(ReadDirectoryFailed(ReadDirFailed)))
    ensures ReadDir(env, dir).Ok? && r.Err? ==> r.error == ParseFileFailed(ParseFailed)
  {
    match FindTerraformFiles(env, dir)
    case Err(e) => Err(FindFilesFailed(e))
    case Ok(files) => ChildrenOfFiles(env, dir, files)
  }

  /** The string sources of all files, in file order and then block order. */
  function AllSources(env: Env, files: seq<string>): Result<seq<string>, Error>
    decreases |files|
  {
    if |files| == 0 then Ok([])
    else
      var srcs :- ExtractModuleSources(env, files[0]);
      var rest :- AllSources(env, files[1..]);
      Ok(srcs + rest)
  }

  /**
    Resolving file by file, as the source does, is resolving the
    concatenation of every file's sources: order and duplicates are kept.
  */
  lemma {:induction false} ChildrenOfFilesFlat(env: Env, dir: string, files: seq<string>)
    ensures ChildrenOfFiles(env, dir, files).Ok? <==> AllSources(env, files).Ok?
    ensures ChildrenOfFiles(env, dir, files).Ok? ==>
      ChildrenOfFiles(env, dir, files).value == ResolveSources(env, dir, AllSources(env, files).value)
    decreases |files|
  {
    if |files| > 0 {
      ChildrenOfFilesFlat(env, dir, files[1..]);
      var e := ExtractModuleSources(env, files[0]);
      if e.Ok? && AllSources(env, files[1..]).Ok? {
        ResolveSourcesAppend(env, dir, e.value, AllSources(env, files[1..]).value);
      }
    }
  }

  /**
    FindChildModules returns exactly the resolved kept sources of all `.tf`
    files, in file order and declaration order, duplicates included.
  */
  lemma FindChildModulesFlat(env: Env, dir: string)
    requires FindChildModules(env, dir).Ok?
    ensures FindTerraformFiles(env, dir).Ok? && AllSources(env, FindTerraformFiles(env, dir).value).Ok?
    ensures var all := AllSources(env, FindTerraformFiles(env, dir).value).value;
      && FindChildModules(env, dir).value == ResolveSources(env, dir, all)
      && |FindChildModules(env, dir).value| <= |all|
  {
    ChildrenOfFilesFlat(env, dir, FindTerraformFiles(env, dir).value);
  }

  /** Information GetModuleInfo reports about a module directory. */
  datatype ModuleInfo = ModuleInfo(path: string, tfFiles: seq<string>, fileCount: nat)

  /** GetModuleInfo: the path as given and its `.tf` files with their count. */
  function GetModuleInfo(env: Env, dir: string): (r: Result<ModuleInfo, Error>)
    ensures r.Err? <==> ReadDir(env, dir).Err?
    ensures r.Err? ==> r.error == ReadDirectoryFailed(ReadDirFailed)
    ensures r.Ok? ==> r.value.path == dir && r.value.fileCount == |r.value.tfFiles|
    ensures r.Ok? ==> forall f :: f in r.value.tfFiles <==>
      exists i :: 0 <= i < |ReadDir(env, dir).value| && IsTfFile(ReadDir(env, dir).value[i]) && f == Join(dir, ReadDir(env, dir).value[i].name)
  {
    var files :- FindTerraformFiles(env, dir);
    Ok(ModuleInfo(dir, files, |files|))
  }

  // ---------------------------------------------------------------------
  // Spelling independence: two spellings of one directory have children
  // that are, pairwise, spellings of the same directories.
  // ---------------------------------------------------------------------

  predicate SameKeys(env: Env, xs: seq<string>, ys: seq<string>) {
    |xs| == |ys| && forall i :: 0 <= i < |xs| ==> Abs(env.cwd, xs[i]) == Abs(env.cwd, ys[i])
  }

  lemma SameKeysAppend(env: Env, x: string, y: string, xs: seq<string>, ys: seq<string>)
    requires Abs(env.cwd, x) == Abs(env.cwd, y) && SameKeys(env, xs, ys)
    ensures SameKeys(env, [x] + xs, [y] + ys)
  {
  }

  lemma SameKeysConcat(env: Env, xs: seq<string>, ys: seq<string>, xs': seq<string>, ys': seq<string>)
    requires SameKeys(env, xs, ys) && SameKeys(env, xs', ys')
    ensures SameKeys(env, xs + xs', ys + ys')
  {
    forall i | 0 <= i < |xs + xs'| ensures Abs(env.cwd, (xs + xs')[i]) == Abs(env.cwd, (ys + ys')[i]) {
      if i >= |xs| {
        assert (xs + xs')[i] == xs'[i - |xs|] && (ys + ys')[i] == ys'[i - |xs|];
      }
    }
  }

  lemma {:induction false} TfPathsSameKey(env: Env, m: string, k: string, entries: seq<Entry>)
    requires ValidCwd(env.cwd) && m != "" && Abs(env.cwd, m) == Some(k)
    ensures SameKeys(env, TfPaths(m, entries), TfPaths(k, entries))
    decreases |entries|
  {
    if |entries| > 0 {
      var xs := TfPaths(m, entries[1..]);
      var ys := TfPaths(k, entries[1..]);
      TfPathsSameKey(env, m, k, entries[1..]);
      if IsTfFile(entries[0]) {
        JoinSameKey(env, m, k, entries[0].name);
        SameKeysAppend(env, Join(m, entries[0].name), Join(k, entries[0].name), xs, ys);
        assert TfPaths(m, entries) == [Join(m, entries[0].name)] + xs;
        assert TfPaths(k, entries) == [Join(k, entries[0].name)] + ys;
      } else {
        assert TfPaths(m, entries) == xs;
        assert TfPaths(k, entries) == ys;
      }
    }
  }

  lemma {:induction false} ResolveSourcesSameKey(env: Env, m: string, k: string, srcs: seq<string>)
    requires ValidCwd(env.cwd) && m != "" && Abs(env.cwd, m) == Some(k)
    ensures SameKeys(env, ResolveSources(env, m, srcs), ResolveSources(env, k, srcs))
    decreases |srcs|
  {
    if |srcs| > 0 {
      var rest := srcs[1..];
      ResolveSourcesSameKey(env, m, k, rest);
      var s := srcs[0];
      var restM := ResolveSources(env, m, rest);
      var restK := ResolveSources(env, k, rest);
      JoinSameKey(env, m, k, s);
      LookupSameKey(env, Join(m, s), Join(k, s));
      if Kept(env, m, s) {
        AbsOfClean(env.cwd, Join(m, s));
        AbsOfClean(env.cwd, Join(k, s));
        assert ResolveSources(env, m, srcs) == [ResolveModulePath(m, s)] + restM;
        assert ResolveSources(env, k, srcs) == [ResolveModulePath(k, s)] + restK;
        SameKeysAppend(env, ResolveModulePath(m, s), ResolveModulePath(k, s), restM, restK);
      } else {
        assert ResolveSources(env, m, srcs) == restM;
        assert ResolveSources(env, k, srcs) == restK;
      }
    }
  }

  lemma {:induction false} ChildrenOfFilesSameKey(env: Env, m: string, k: string, fs: seq<string>, gs: seq<string>)
    requires ValidCwd(env.cwd) && m != "" && Abs(env.cwd, m) == Some(k) && SameKeys(env, fs, gs)
    ensures ChildrenOfFiles(env, m, fs).Ok? == ChildrenOfFiles(env, k, gs).Ok?
    ensures ChildrenOfFiles(env, m, fs).Ok? ==>
      SameKeys(env, ChildrenOfFiles(env, m, fs).value, ChildrenOfFiles(env, k, gs).value)
    decreases |fs|
  {
    if |fs| > 0 {
      assert SameKeys(env, fs[1..], gs[1..]);
      ChildrenOfFilesSameKey(env, m, k, fs[1..], gs[1..]);
      LookupSameKey(env, fs[0], gs[0]);
      var e := ExtractModuleSources(env, fs[0]);
      if e.Ok? {
        ResolveSourcesSameKey(env, m, k, e.value);
        if ChildrenOfFiles(env, m, fs[1..]).Ok? {
          SameKeysConcat(env, ResolveSources(env, m, e.value), ResolveSources(env, k, e.value),
            ChildrenOfFiles(env, m, fs[1..]).value, ChildrenOfFiles(env, k, gs[1..]).value);
        }
      }
    }
  }

  /**
    The children found from any spelling of a directory are, one by one,
    spellings of the children found from its clean absolute form.
  */
  lemma FindChildModulesSameKey(env: Env, m: string, k: string)
    requires ValidCwd(env.cwd) && m != "" && Abs(env.cwd, m) == Some(k)
    ensures FindChildModules(env, m).Ok? == FindChildModules(env, k).Ok?
    ensures FindChildModules(env, m).Ok? ==>
      SameKeys(env, FindChildModules(env, m).value, FindChildModules(env, k).value)
  {
    AbsIsClean(env.cwd, m);
    assert Abs(env.cwd, k) == Some(k);
    LookupSameKey(env, m, k);
    var d := ReadDir(env, m);
    if d.Ok? {
      TfPathsSameKey(env, m, k, d.value);
      ChildrenOfFilesSameKey(env, m, k, TfPaths(m, d.value), TfPaths(k, d.value));
    }
  }
}
