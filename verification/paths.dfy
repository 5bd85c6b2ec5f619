/**
  Lexical path algebra for slash-separated paths, the part of Go's
  `path/filepath` package the analyzer relies on: `IsAbs`, `Clean`, `Join`,
  `Abs` (with the working directory as an explicit input) and `Rel`.
  A path is a string; its meaning is the sequence of its non-empty elements.
*/
module Paths {
  import opened Wrappers

  const Sep: char := '/'

  predicate IsAbs(p: string) {
    |p| > 0 && p[0] == Sep
  }

  // ---------------------------------------------------------------------
  // Elements: splitting a path at separators, dropping empty elements
  // ---------------------------------------------------------------------

  /** An element as it can appear between two separators. */
  predicate Simple(e: string) {
    e != [] && Sep !in e
  }

  predicate AllSimple(es: seq<string>) {
    forall i :: 0 <= i < |es| ==> Simple(es[i])
  }

  function Flush(cur: string): seq<string> {
    if cur == [] then [] else [cur]
  }

  /** Splits `s`, where `cur` is the element read so far. */
  function SplitFrom(s: string, cur: string): seq<string>
    decreases |s|
  {
    if |s| == 0 then Flush(cur)
    else if s[0] == Sep then Flush(cur) + SplitFrom(s[1..], [])
    else SplitFrom(s[1..], cur + [s[0]])
  }

  /** The non-empty elements of a path, in order. */
  function Elements(p: string): seq<string> {
    SplitFrom(p, [])
  }

  /** Elements joined by single separators (no leading separator). */
  function JoinElements(es: seq<string>): string
    decreases |es|
  {
    if |es| == 0 then ""
    else if |es| == 1 then es[0]
    else es[0] + [Sep] + JoinElements(es[1..])
  }

  lemma {:induction false} SplitFromSimple(s: string, cur: string)
    requires Sep !in cur
    ensures AllSimple(SplitFrom(s, cur))
    decreases |s|
  {
    if |s| == 0 {
    } else if s[0] == Sep {
      SplitFromSimple(s[1..], []);
    } else {
      SplitFromSimple(s[1..], cur + [s[0]]);
    }
  }

  /** Every element of a path is non-empty and separator-free. */
  lemma ElementsSimple(p: string)
    ensures AllSimple(Elements(p))
  {
    SplitFromSimple(p, []);
  }

  lemma {:induction false} SplitFromConcat(a: string, b: string, cur: string)
    ensures SplitFrom(a + [Sep] + b, cur) == SplitFrom(a, cur) + SplitFrom(b, [])
    decreases |a|
  {
    var s := a + [Sep] + b;
    if |a| == 0 {
      assert s[0] == Sep && s[1..] == b;
    } else {
      assert s[0] == a[0] && s[1..] == a[1..] + [Sep] + b;
      if a[0] == Sep {
        SplitFromConcat(a[1..], b, []);
      } else {
        SplitFromConcat(a[1..], b, cur + [a[0]]);
      }
    }
  }

  /** Joining two paths with a separator concatenates their elements. */
  lemma ElementsConcat(a: string, b: string)
    ensures Elements(a + [Sep] + b) == Elements(a) + Elements(b)
  {
    SplitFromConcat(a, b, []);
  }

  /** A leading separator does not change the elements. */
  lemma ElementsRooted(s: string)
    ensures Elements([Sep] + s) == Elements(s)
  {
    ElementsConcat("", s);
    assert "" + [Sep] + s == [Sep] + s;
  }

  lemma {:induction false} SplitFromPlain(x: string, cur: string)
    requires Sep !in x
    ensures SplitFrom(x, cur) == Flush(cur + x)
    decreases |x|
  {
    if |x| == 0 {
      assert cur + x == cur;
    } else {
      assert x[0] in x;
      assert Sep !in x[1..] by {
        forall i | 0 <= i < |x[1..]| ensures x[1..][i] != Sep {
          assert x[1..][i] == x[i + 1];
        }
      }
      SplitFromPlain(x[1..], cur + [x[0]]);
      assert cur + [x[0]] + x[1..] == cur + x;
    }
  }

  /** Splitting undoes joining, for elements that are simple. */
  lemma {:induction false} ElementsOfJoin(es: seq<string>)
    requires AllSimple(es)
    ensures Elements(JoinElements(es)) == es
    decreases |es|
  {
    if |es| == 0 {
    } else if |es| == 1 {
      SplitFromPlain(es[0], []);
      assert [] + es[0] == es[0];
    } else {
      SplitFromPlain(es[0], []);
      assert [] + es[0] == es[0];
      ElementsOfJoin(es[1..]);
      ElementsConcat(es[0], JoinElements(es[1..]));
      assert es == [es[0]] + es[1..];
    }
  }

  // ---------------------------------------------------------------------
  // Normalisation: the element-level core of filepath.Clean
  // ---------------------------------------------------------------------

  /** An element that names a directory entry: neither `.` nor `..`. */
  predicate Plain(e: string) {
    Simple(e) && e != "." && e != ".."
  }

  predicate AllPlain(es: seq<string>) {
    forall i :: 0 <= i < |es| ==> Plain(es[i])
  }

  /**
    Normal form of a relative path: simple elements, no `.`, and every `..`
    sits in a leading run of `..` elements.
  */
  predicate RelNormal(es: seq<string>) {
    && AllSimple(es)
    && (forall i :: 0 <= i < |es| ==> es[i] != ".")
    && (forall i, j :: 0 <= i < j < |es| && es[j] == ".." ==> es[i] == "..")
  }

  /**
    One step of the lexical clean-up: `.` and empty elements vanish, `..`
    removes the previous real element; at the root of an absolute path it
    vanishes, at the start of a relative path it is kept.
  */
  function Step(rooted: bool, st: seq<string>, e: string): seq<string> {
    if e == "" || e == "." then st
    else if e == ".." then
      if |st| > 0 && st[|st| - 1] != ".." then st[..|st| - 1]
      else if rooted then st
      else st + [".."]
    else st + [e]
  }

  /** Applies `Step` to each element of `es`, starting from stack `st`. */
  function NormFrom(rooted: bool, st: seq<string>, es: seq<string>): seq<string>
    decreases |es|
  {
    if |es| == 0 then st
    else Step(rooted, NormFrom(rooted, st, es[..|es| - 1]), es[|es| - 1])
  }

  function Norm(rooted: bool, es: seq<string>): seq<string> {
    NormFrom(rooted, [], es)
  }

  /** Normalising a concatenation normalises the parts one after the other. */
  lemma {:induction false} NormConcat(rooted: bool, st: seq<string>, xs: seq<string>, ys: seq<string>)
    ensures NormFrom(rooted, st, xs + ys) == NormFrom(rooted, NormFrom(rooted, st, xs), ys)
    decreases |ys|
  {
    if |ys| == 0 {
      assert xs + ys == xs;
    } else {
      var zs := xs + ys;
      assert zs[..|zs| - 1] == xs + ys[..|ys| - 1];
      assert zs[|zs| - 1] == ys[|ys| - 1];
      NormConcat(rooted, st, xs, ys[..|ys| - 1]);
    }
  }

  /** Plain elements are pushed unchanged. */
  lemma {:induction false} NormPlain(rooted: bool, st: seq<string>, es: seq<string>)
    requires AllPlain(es)
    ensures NormFrom(rooted, st, es) == st + es
    decreases |es|
  {
    if |es| > 0 {
      NormPlain(rooted, st, es[..|es| - 1]);
      assert st + es[..|es| - 1] + [es[|es| - 1]] == st + es;
    }
  }

  /** Normalising an absolute path yields only plain elements. */
  lemma {:induction false} NormRootedPlain(st: seq<string>, es: seq<string>)
    requires AllPlain(st) && AllSimple(es)
    ensures AllPlain(NormFrom(true, st, es))
    decreases |es|
  {
    if |es| > 0 {
      NormRootedPlain(st, es[..|es| - 1]);
    }
  }

  /** Normalising a relative path yields its normal form. */
  lemma {:induction false} NormRelNormal(es: seq<string>)
    requires AllSimple(es)
    ensures RelNormal(Norm(false, es))
    decreases |es|
  {
    if |es| > 0 {
      NormRelNormal(es[..|es| - 1]);
      var st := Norm(false, es[..|es| - 1]);
      var e := es[|es| - 1];
      if e == ".." && !(|st| > 0 && st[|st| - 1] != "..") {
        assert forall i :: 0 <= i < |st| ==> st[i] == "..";
      }
    }
  }

  /** A normal form is a fixed point of normalisation. */
  lemma {:induction false} NormIdempotent(rooted: bool, es: seq<string>)
    requires if rooted then AllPlain(es) else RelNormal(es)
    ensures Norm(rooted, es) == es
    decreases |es|
  {
    if |es| > 0 {
      var init := es[..|es| - 1];
      NormIdempotent(rooted, init);
      if es[|es| - 1] == ".." {
        assert !rooted;
        assert forall i :: 0 <= i < |init| ==> init[i] == "..";
      }
      assert init + [es[|es| - 1]] == es;
    }
  }

  /**
    One relative step, replayed on top of an absolute stack, is one absolute
    step: what is still pending in a relative path resolves the same way.
  */
  lemma StepCompose(st: seq<string>, r: seq<string>, e: string)
    requires forall i :: 0 <= i < |r| ==> r[i] != "." && r[i] != ""
    ensures NormFrom(true, st, Step(false, r, e)) == Step(true, NormFrom(true, st, r), e)
  {
    if e == ".." && |r| > 0 && r[|r| - 1] != ".." {
      var init := r[..|r| - 1];
      assert init + [r[|r| - 1]] == r;
      NormConcat(true, st, init, [r[|r| - 1]]);
      assert [r[|r| - 1]][..0] == [];
    } else if e == "" || e == "." {
    } else {
      var r' := if e == ".." then r + [".."] else r + [e];
      NormConcat(true, st, r, [r'[|r'| - 1]]);
      assert r + [r'[|r'| - 1]] == r';
      assert [r'[|r'| - 1]][..0] == [];
    }
  }

  /**
    Cleaning a relative path first and resolving it afterwards is the same as
    resolving it directly.
  */
  lemma {:induction false} NormCompose(st: seq<string>, es: seq<string>)
    requires AllSimple(es)
    ensures NormFrom(true, st, Norm(false, es)) == NormFrom(true, st, es)
    decreases |es|
  {
    if |es| > 0 {
      var init := es[..|es| - 1];
      NormCompose(st, init);
      NormRelNormal(init);
      StepCompose(st, Norm(false, init), es[|es| - 1]);
    }
  }

  // ---------------------------------------------------------------------
  // Clean, Join and Abs
  // ---------------------------------------------------------------------

  lemma JoinElementsHead(es: seq<string>)
    requires |es| > 0 && Simple(es[0])
    ensures |JoinElements(es)| > 0 && JoinElements(es)[0] == es[0][0]
  {
  }

  /**
    filepath.Clean: the shortest lexically equivalent path; `.` for an
    empty relative result, `/` for the root.
  */
  function Clean(p: string): (c: string)
    ensures IsAbs(c) == IsAbs(p)
    ensures c != ""
  {
    var n := Norm(IsAbs(p), Elements(p));
    ElementsSimple(p);
    NormRelNormal(Elements(p));
    if IsAbs(p) then [Sep] + JoinElements(n)
    else if n == [] then "."
    else (JoinElementsHead(n); JoinElements(n))
  }

  /**
    filepath.Join of two elements: empty arguments are ignored, the rest is
    joined with a separator and cleaned; two empty arguments give "".
  */
  function Join(a: string, b: string): string {
    if a == "" && b == "" then ""
    else if a == "" then Clean(b)
    else if b == "" then Clean(a)
    else Clean(a + [Sep] + b)
  }

  /**
    filepath.Abs with the working directory as an input: `None` for the
    working directory stands for os.Getwd failing, and `None` as a result
    for the error Abs then returns.
  */
  function Abs(cwd: Option<string>, p: string): (r: Option<string>)
    ensures r.Some? <==> IsAbs(p) || cwd.Some?
  {
    if IsAbs(p) then Some(Clean(p))
    else if cwd.None? then None
    else Some(Join(cwd.value, p))
  }

  /** os.Getwd only ever reports an absolute directory. */
  predicate ValidCwd(cwd: Option<string>) {
    cwd.Some? ==> IsAbs(cwd.value)
  }

  /** The elements of the absolute path that `p` denotes from `cwd`. */
  function Resolve(cwd: Option<string>, p: string): seq<string> {
    var base := if IsAbs(p) || cwd.None? then [] else Norm(true, Elements(cwd.value));
    NormFrom(true, base, Elements(p))
  }

  /** The clean absolute path with the given plain elements. */
  function Rooted(es: seq<string>): string {
    [Sep] + JoinElements(es)
  }

  /** The elements of a cleaned path are its normalised elements. */
  lemma CleanElements(p: string)
    ensures var n := Norm(IsAbs(p), Elements(p));
      Elements(Clean(p)) == if IsAbs(p) || n != [] then n else ["."]
    ensures IsAbs(p) ==> AllPlain(Elements(Clean(p)))
    ensures !IsAbs(p) ==> RelNormal(Norm(false, Elements(p)))
  {
    var n := Norm(IsAbs(p), Elements(p));
    ElementsSimple(p);
    if IsAbs(p) {
      NormRootedPlain([], Elements(p));
      ElementsRooted(JoinElements(n));
      ElementsOfJoin(n);
    } else {
      NormRelNormal(Elements(p));
      if n != [] {
        ElementsOfJoin(n);
      } else {
        SplitFromPlain(".", []);
        assert [] + "." == ".";
      }
    }
  }

  /** Cleaning is idempotent. */
  lemma CleanIdempotent(p: string)
    ensures Clean(Clean(p)) == Clean(p)
  {
    var c := Clean(p);
    var n := Norm(IsAbs(p), Elements(p));
    CleanElements(p);
    if IsAbs(p) {
      NormIdempotent(true, n);
    } else if n != [] {
      NormIdempotent(false, n);
    } else {
      assert Norm(false, ["."]) == [];
    }
  }

  /** The elements of a rooted rendering are the rendered elements. */
  lemma RootedElements(es: seq<string>)
    requires AllPlain(es)
    ensures Elements(Rooted(es)) == es
    ensures IsAbs(Rooted(es))
    ensures Clean(Rooted(es)) == Rooted(es)
  {
    ElementsRooted(JoinElements(es));
    ElementsOfJoin(es);
    NormIdempotent(true, es);
  }

  /** A clean absolute path is the rooted rendering of its own elements. */
  lemma CleanAbsForm(p: string)
    requires IsAbs(p) && Clean(p) == p
    ensures p == Rooted(Elements(p))
    ensures AllPlain(Elements(p))
  {
    CleanElements(p);
  }

  /** An absolute path produced by Abs is the rooted rendering of Resolve. */
  lemma AbsForm(cwd: Option<string>, p: string)
    requires ValidCwd(cwd) && Abs(cwd, p).Some?
    ensures AllPlain(Resolve(cwd, p))
    ensures Abs(cwd, p).value == Rooted(Resolve(cwd, p))
  {
    ElementsSimple(p);
    if IsAbs(p) {
      NormRootedPlain([], Elements(p));
    } else {
      var c := cwd.value;
      ElementsSimple(c);
      NormRootedPlain([], Elements(c));
      var b := Norm(true, Elements(c));
      NormRootedPlain(b, Elements(p));
      if p != "" {
        ElementsConcat(c, p);
        NormConcat(true, [], Elements(c), Elements(p));
      }
    }
  }

  /** Cleaning a path does not change what it resolves to. */
  lemma ResolveClean(cwd: Option<string>, p: string)
    ensures Resolve(cwd, Clean(p)) == Resolve(cwd, p)
  {
    CleanElements(p);
    ElementsSimple(p);
    if IsAbs(p) {
      NormIdempotent(true, Norm(true, Elements(p)));
    } else {
      var base := if cwd.None? then [] else Norm(true, Elements(cwd.value));
      NormCompose(base, Elements(p));
    }
  }

  /** Joining an element onto a non-empty path resolves it on top of that path. */
  lemma ResolveJoin(cwd: Option<string>, m: string, s: string)
    requires m != ""
    ensures IsAbs(Join(m, s)) == IsAbs(m)
    ensures Resolve(cwd, Join(m, s)) == NormFrom(true, Resolve(cwd, m), Elements(s))
  {
    if s == "" {
      ResolveClean(cwd, m);
    } else {
      var x := m + [Sep] + s;
      assert IsAbs(x) == IsAbs(m);
      ResolveClean(cwd, x);
      ElementsConcat(m, s);
      var base := if IsAbs(m) || cwd.None? then [] else Norm(true, Elements(cwd.value));
      NormConcat(true, base, Elements(m), Elements(s));
    }
  }

  /** The absolute form of a path is clean and absolute. */
  lemma AbsIsClean(cwd: Option<string>, p: string)
    requires ValidCwd(cwd) && Abs(cwd, p).Some?
    ensures IsAbs(Abs(cwd, p).value)
    ensures Clean(Abs(cwd, p).value) == Abs(cwd, p).value
  {
    AbsForm(cwd, p);
    RootedElements(Resolve(cwd, p));
  }

  /** Abs ignores a prior Clean: `Abs(Clean(p)) == Abs(p)`. */
  lemma AbsOfClean(cwd: Option<string>, p: string)
    requires ValidCwd(cwd)
    ensures Abs(cwd, Clean(p)) == Abs(cwd, p)
  {
    if Abs(cwd, p).Some? {
      AbsForm(cwd, p);
      AbsForm(cwd, Clean(p));
      ResolveClean(cwd, p);
    }
  }

  /**
    Joining commutes with taking the absolute form:
    `Abs(Join(m, s)) == Join(Abs(m), s)` for a non-empty `m`.
  */
  lemma AbsOfJoin(cwd: Option<string>, m: string, s: string)
    requires ValidCwd(cwd) && m != "" && Abs(cwd, m).Some?
    ensures Abs(cwd, Join(m, s)) == Some(Join(Abs(cwd, m).value, s))
  {
    var k := Abs(cwd, m).value;
    ResolveJoin(cwd, m, s);
    AbsForm(cwd, m);
    var r := Resolve(cwd, m);
    assert Abs(cwd, Join(m, s)).Some?;
    AbsForm(cwd, Join(m, s));
    var lhs := Abs(cwd, Join(m, s)).value;
    assert lhs == Rooted(NormFrom(true, r, Elements(s)));
    RootedElements(r);
    if s == "" {
      assert Join(k, s) == Clean(k);
    } else {
      var x := k + [Sep] + s;
      assert IsAbs(x);
      assert Join(k, s) == Clean(x);
      assert Clean(x) == Rooted(Norm(true, Elements(x)));
      ElementsConcat(k, s);
      NormIdempotent(true, r);
      NormConcat(true, [], r, Elements(s));
      assert Norm(true, Elements(x)) == NormFrom(true, r, Elements(s));
    }
  }

  // ---------------------------------------------------------------------
  // Rel, and the two string helpers of package strings that are used
  // ---------------------------------------------------------------------

  /** `n` parent steps. */
  function Ups(n: nat): (r: seq<string>)
    ensures |r| == n && forall i :: 0 <= i < n ==> r[i] == ".."
  {
    seq(n, _ => "..")
  }

  /** Length of the longest common prefix of two element sequences. */
  function CommonPrefix(a: seq<string>, b: seq<string>): (k: nat)
    ensures k <= |a| && k <= |b| && a[..k] == b[..k]
    ensures k < |a| && k < |b| ==> a[k] != b[k]
    decreases |a|
  {
    if |a| > 0 && |b| > 0 && a[0] == b[0] then
      var k := 1 + CommonPrefix(a[1..], b[1..]);
      assert a[..k] == [a[0]] + a[1..][..k - 1];
      assert b[..k] == [b[0]] + b[1..][..k - 1];
      k
    else 0
  }

  /**
    filepath.Rel for two absolute paths (the only way the analyzer calls it,
    and then it cannot fail): as many `..` as elements of `base` are left
    after the common prefix, followed by the rest of `targ`.
  */
  function Rel(base: string, targ: string): string
    requires IsAbs(base) && IsAbs(targ)
  {
    var b := Clean(base);
    var t := Clean(targ);
    if t == b then "."
    else JoinElements(RelElements(Elements(b), Elements(t)))
  }

  /** Rel's elements: a `..` per base element past the common prefix, then the rest of the target. */
  function RelElements(bs: seq<string>, ts: seq<string>): seq<string> {
    var k := CommonPrefix(bs, ts);
    Ups(|bs| - k) + ts[k..]
  }

  /** On a stack of plain elements, `n` parent steps pop `n` elements. */
  lemma {:induction false} NormUps(st: seq<string>, n: nat)
    requires AllPlain(st) && n <= |st|
    ensures NormFrom(true, st, Ups(n)) == st[..|st| - n]
  {
    if n > 0 {
      NormUps(st, n - 1);
      assert Ups(n)[..n - 1] == Ups(n - 1);
    }
  }

  lemma RelRoundTripSame(base: string)
    requires IsAbs(base)
    ensures Join(base, ".") == Clean(base)
  {
    ElementsConcat(base, ".");
    SplitFromPlain(".", []);
    assert [] + "." == ".";
    NormConcat(true, [], Elements(base), ["."]);
  }

  lemma PlainSuffix(ts: seq<string>, k: nat)
    requires AllPlain(ts) && k <= |ts|
    ensures AllPlain(ts[k..])
  {
    forall i | 0 <= i < |ts[k..]| ensures Plain(ts[k..][i]) {
      assert ts[k..][i] == ts[k + i];
    }
  }

  lemma UpsThenPlainSimple(n: nat, rest: seq<string>)
    requires AllPlain(rest)
    ensures AllSimple(Ups(n) + rest)
  {
    var tail := Ups(n) + rest;
    forall i | 0 <= i < |tail| ensures Simple(tail[i]) {
      if i >= n { assert tail[i] == rest[i - n]; }
    }
  }

  lemma PlainSplit(ts: seq<string>, k: nat)
    requires AllPlain(ts) && k <= |ts|
    ensures NormFrom(true, ts[..k], ts[k..]) == ts
  {
    PlainSuffix(ts, k);
    NormPlain(true, ts[..k], ts[k..]);
    assert ts[..k] + ts[k..] == ts;
  }

  lemma RelTailElements(bs: seq<string>, ts: seq<string>, k: nat)
    requires AllPlain(bs) && AllPlain(ts) && k <= |bs| && k <= |ts| && bs[..k] == ts[..k]
    ensures NormFrom(true, bs, Ups(|bs| - k) + ts[k..]) == ts
    ensures AllSimple(Ups(|bs| - k) + ts[k..])
  {
    var ups := Ups(|bs| - k);
    var rest := ts[k..];
    PlainSuffix(ts, k);
    UpsThenPlainSimple(|bs| - k, rest);
    NormConcat(true, bs, ups, rest);
    NormUps(bs, |bs| - k);
    PlainSplit(ts, k);
  }

  /** Two clean absolute paths with the same elements are the same path. */
  lemma CleanAbsSameElements(p: string, q: string)
    requires IsAbs(p) && Clean(p) == p && IsAbs(q) && Clean(q) == q
    requires Elements(p) == Elements(q)
    ensures p == q
  {
    CleanAbsForm(p);
    CleanAbsForm(q);
  }

  /** Two different clean absolute paths: one has an element past their common prefix. */
  lemma CommonPrefixProper(b: string, t: string)
    requires IsAbs(b) && Clean(b) == b && IsAbs(t) && Clean(t) == t && b != t
    ensures var k := CommonPrefix(Elements(b), Elements(t));
      k < |Elements(b)| || k < |Elements(t)|
  {
    var bs := Elements(b);
    var ts := Elements(t);
    var k := CommonPrefix(bs, ts);
    if k == |bs| && k == |ts| {
      assert bs == bs[..k] && ts == ts[..k];
      CleanAbsSameElements(b, t);
    }
  }

  /** The elements Rel produces for two different clean absolute paths. */
  lemma RelParts(b: string, t: string)
    requires IsAbs(b) && Clean(b) == b && IsAbs(t) && Clean(t) == t && b != t
    ensures var bs := Elements(b);
      var ts := Elements(t);
      var tail := RelElements(bs, ts);
      && AllPlain(bs) && t == Rooted(ts)
      && tail != [] && AllSimple(tail)
      && NormFrom(true, bs, tail) == ts
  {
    CleanAbsForm(b);
    CleanAbsForm(t);
    CommonPrefixProper(b, t);
    RelElementsParts(Elements(b), Elements(t));
  }

  /** RelElements on element sequences that part somewhere. */
  lemma RelElementsParts(bs: seq<string>, ts: seq<string>)
    requires AllPlain(bs) && AllPlain(ts)
    requires CommonPrefix(bs, ts) < |bs| || CommonPrefix(bs, ts) < |ts|
    ensures var tail := RelElements(bs, ts);
      tail != [] && AllSimple(tail) && NormFrom(true, bs, tail) == ts
  {
    var k := CommonPrefix(bs, ts);
    RelTailElements(bs, ts, k);
    assert |RelElements(bs, ts)| == |bs| - k + |ts| - k;
  }

  /** Rel's answer, joined back onto the base, reaches the target. */
  lemma RelRoundTrip(base: string, targ: string)
    requires IsAbs(base) && IsAbs(targ)
    ensures Join(base, Rel(base, targ)) == Clean(targ)
  {
    if Clean(targ) == Clean(base) {
      RelRoundTripSame(base);
    } else {
      var b := Clean(base);
      var t := Clean(targ);
      CleanIdempotent(base);
      CleanIdempotent(targ);
      RelParts(b, t);
      var ts := Elements(t);
      var tail := RelElements(Elements(b), ts);
      var r := JoinElements(tail);
      JoinElementsHead(tail);
      ElementsOfJoin(tail);
      ElementsConcat(base, r);
      var x := base + [Sep] + r;
      assert Join(base, r) == Clean(x);
      CleanElements(base);
      ElementsSimple(base);
      NormConcat(true, [], Elements(base), tail);
      assert Norm(true, Elements(x)) == ts;
    }
  }

  /** Rel never answers the empty string: "." stands for the base itself. */
  lemma RelNotEmpty(base: string, targ: string)
    requires IsAbs(base) && IsAbs(targ)
    ensures Rel(base, targ) != ""
  {
    if Clean(targ) != Clean(base) {
      CleanIdempotent(base);
      CleanIdempotent(targ);
      RelParts(Clean(base), Clean(targ));
      JoinElementsHead(RelElements(Elements(Clean(base)), Elements(Clean(targ))));
    }
  }

  lemma {:induction false} JoinElementsLast(es: seq<string>)
    requires |es| > 0 && Simple(es[|es| - 1])
    ensures |JoinElements(es)| > 0
    ensures JoinElements(es)[|JoinElements(es)| - 1] == es[|es| - 1][|es[|es| - 1]| - 1]
    decreases |es|
  {
    if |es| > 1 {
      JoinElementsLast(es[1..]);
    }
  }

  /** A clean absolute path other than the root does not end in a separator. */
  lemma CleanNoTrailingSep(p: string)
    requires IsAbs(p) && Clean(p) == p && |p| > 1
    ensures p[|p| - 1] != Sep
  {
    CleanAbsForm(p);
    var es := Elements(p);
    assert es != [];
    assert Simple(es[|es| - 1]);
    JoinElementsLast(es);
    assert p == [Sep] + JoinElements(es);
  }

  /** Joining two non-empty runs of elements puts one separator between them. */
  lemma {:induction false} JoinElementsConcat(xs: seq<string>, ys: seq<string>)
    requires |xs| > 0 && |ys| > 0
    ensures JoinElements(xs + ys) == JoinElements(xs) + [Sep] + JoinElements(ys)
    decreases |xs|
  {
    assert (xs + ys)[0] == xs[0];
    if |xs| == 1 {
      assert (xs + ys)[1..] == ys;
    } else {
      assert (xs + ys)[1..] == xs[1..] + ys;
      JoinElementsConcat(xs[1..], ys);
    }
  }

  /** A rooted path extended by further elements. */
  lemma RootedConcat(xs: seq<string>, ys: seq<string>)
    requires |xs| > 0 && |ys| > 0
    ensures Rooted(xs + ys) == Rooted(xs) + [Sep] + JoinElements(ys)
  {
    JoinElementsConcat(xs, ys);
    SepAssoc(JoinElements(xs), JoinElements(ys));
  }

  lemma SepAssoc(j: string, k: string)
    ensures [Sep] + (j + [Sep] + k) == [Sep] + j + [Sep] + k
  {
  }

  /** strings.HasPrefix. */
  predicate HasPrefix(s: string, pre: string) {
    |pre| <= |s| && s[..|pre|] == pre
  }

  /** strings.TrimPrefix: drops `pre` once if `s` starts with it. */
  function TrimPrefix(s: string, pre: string): (r: string)
    ensures HasPrefix(s, pre) ==> s == pre + r
    ensures !HasPrefix(s, pre) ==> r == s
  {
    if HasPrefix(s, pre) then
      assert s == s[..|pre|] + s[|pre|..];
      s[|pre|..]
    else s
  }
}
