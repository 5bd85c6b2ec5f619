/**
  The abstract filesystem the analyzer reads: an immutable map from clean
  absolute paths to nodes, plus the process working directory. Directory
  listings stand for os.ReadDir, file nodes hold what the HCL parser makes
  of a `.tf` file (only the `source` attribute of each `module` block).
*/
module FileSystem {
  import opened Wrappers
  import opened Paths

  /** A directory entry as os.ReadDir reports it. */
  datatype Entry = Entry(name: string, isDir: bool)

  /** What evaluating the `source` attribute of one `module` block gives. */
  datatype SourceAttr =
    | AttributesInvalid   // the block body's attributes do not parse
    | NoSource            // the block has no `source` attribute
    | EvalFailed          // the `source` expression does not evaluate
    | StringValue(s: string)
    | OtherValue          // the value is not a string

  datatype Node =
    | Directory(listing: Option<seq<Entry>>)      // None: reading it fails
    | File(moduleBlocks: Option<seq<SourceAttr>>)  // None: the file does not parse

  /** `cwd` is None when the working directory cannot be determined. */
  datatype Env = Env(cwd: Option<string>, nodes: map<string, Node>)

  /** The error channel; wrapping constructors mirror fmt.Errorf("...: %w"). */
  datatype Error =
    | CwdUnavailable
    | ReadDirFailed
    | ParseFailed
    | BaseNotAbsolute
    | PathNotAbsolute
    | ReadDirectoryFailed(cause: Error)
    | AbsPathFailed(cause: Error)
    | FindFilesFailed(cause: Error)
    | ParseFileFailed(cause: Error)
    | DirectCheckFailed(cause: Error)
    | ChildFailed(cause: Error)
    | RootFailed(cause: Error)

  /** The node a path names; a relative path is resolved against the cwd. */
  function Lookup(env: Env, p: string): (r: Option<Node>)
    ensures r.Some? ==> Abs(env.cwd, p).Some? && Abs(env.cwd, p).value in env.nodes
  {
    match Abs(env.cwd, p)
    case None => None
    case Some(k) => if k in env.nodes then Some(env.nodes[k]) else None
  }

  /** os.Stat succeeds. */
  predicate Exists(env: Env, p: string) {
    Lookup(env, p).Some?
  }

  /** os.ReadDir: fails on a missing path, a file, or an unreadable directory. */
  function ReadDir(env: Env, p: string): (r: Result<seq<Entry>, Error>)
    ensures r.Ok? <==> Lookup(env, p).Some? && Lookup(env, p).value.Directory? && Lookup(env, p).value.listing.Some?
    ensures r.Err? ==> r.error == ReadDirFailed
  {
    match Lookup(env, p)
    case Some(Directory(Some(entries))) => Ok(entries)
    case _ => Err(ReadDirFailed)
  }

  /** Two spellings of the same absolute path look up the same node. */
  lemma LookupSameKey(env: Env, p: string, q: string)
    requires Abs(env.cwd, p) == Abs(env.cwd, q)
    ensures Lookup(env, p) == Lookup(env, q)
    ensures ReadDir(env, p) == ReadDir(env, q)
  {
  }

  /**
    Joining an element onto two spellings of one directory gives two
    spellings of one path.
  */
  lemma JoinSameKey(env: Env, m: string, k: string, s: string)
    requires ValidCwd(env.cwd) && m != "" && Abs(env.cwd, m) == Some(k)
    ensures Abs(env.cwd, Join(m, s)) == Abs(env.cwd, Join(k, s))
    ensures Abs(env.cwd, Join(m, s)).Some?
  {
    AbsIsClean(env.cwd, m);
    AbsOfJoin(env.cwd, m, s);
    AbsOfJoin(env.cwd, k, s);
  }
}
