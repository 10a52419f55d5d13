/** A model of the package-resource and plugin selection logic of regice-common
    (regicecommon/pkg.py).

    The installed-package machinery is replaced by plain values:
    - a package's bundled resources are a tree of `Entry` values, listed in the
      order the resource API lists them;
    - `re.match(pattern, s)` is an abstract `Matcher`, applied from the start of `s`;
    - the `regice` entry points are an ordered sequence of `EntryPoint` records;
    - the importable module names are an ordered sequence of strings;
    - opening a resource yields a `Stream` naming the package and the path opened.
 */
module Pkg {

  datatype Option<T> = None | Some(value: T)

  /** The two failures the resource lookup distinguishes. */
  datatype Error = OSError | DistributionNotFound

  datatype Result<T> = Success(value: T) | Failure(error: Error)

  // ---------------------------------------------------------------------------
  // Small helpers shared by the resource and plugin halves
  // ---------------------------------------------------------------------------

  /** Python's `name.split('.')[0]`: the text before the first '.', or all of `name`. */
  function TopLevel(name: string): (top: string)
    ensures top <= name
    ensures '.' !in top
    ensures |top| < |name| ==> name[|top|] == '.'
  {
    if name == [] || name[0] == '.' then "" else [name[0]] + TopLevel(name[1..])
  }

  /** The three properties of `TopLevel` pin it down: it is the only such prefix. */
  lemma {:induction false} TopLevelUnique(name: string, t: string)
    requires t <= name && '.' !in t
    requires |t| < |name| ==> name[|t|] == '.'
    ensures t == TopLevel(name)
  {
  }

  /** `sub` occurs in `s` starting at index `i`. */
  ghost predicate OccursAt(s: string, sub: string, i: int) {
    0 <= i <= |s| - |sub| && s[i..i + |sub|] == sub
  }

  /** Python's `sub in s` on strings: `sub` occurs somewhere in `s`. */
  function Contains(s: string, sub: string): (r: bool)
    ensures r <==> exists i :: OccursAt(s, sub, i)
  {
    if sub <= s then
      assert OccursAt(s, sub, 0);
      true
    else if s == [] then
      false
    else
      var r := Contains(s[1..], sub);
      assert r ==> exists i :: OccursAt(s, sub, i) by {
        if r {
          var i :| OccursAt(s[1..], sub, i);
          assert s[1..][i..i + |sub|] == s[i + 1..i + 1 + |sub|];
          assert OccursAt(s, sub, i + 1);
        }
      }
      assert (exists i :: OccursAt(s, sub, i)) ==> r by {
        if exists i :: OccursAt(s, sub, i) {
          var i :| OccursAt(s, sub, i);
          if i > 0 {
            assert s[1..][i - 1..i - 1 + |sub|] == s[i..i + |sub|];
            assert OccursAt(s[1..], sub, i - 1);
          }
        }
      }
      r
  }

  /** The elements of `s` that `keep` accepts, in their original order. */
  function Filter<T>(s: seq<T>, keep: T -> bool): (r: seq<T>)
    ensures |r| <= |s|
    ensures forall i :: 0 <= i < |r| ==> r[i] in s && keep(r[i])
    ensures forall i :: 0 <= i < |s| && keep(s[i]) ==> s[i] in r
  {
    if s == [] then []
    else (if keep(s[0]) then [s[0]] else []) + Filter(s[1..], keep)
  }

  lemma {:induction false} FilterConcat<T>(a: seq<T>, b: seq<T>, keep: T -> bool)
    ensures Filter(a + b, keep) == Filter(a, keep) + Filter(b, keep)
  {
    if a != [] {
      assert (a + b)[0] == a[0];
      assert (a + b)[1..] == a[1..] + b;
      FilterConcat(a[1..], b, keep);
    } else {
      assert a + b == b;
    }
  }

  /** Extending a prefix by one element extends its filtering by that element, if accepted. */
  lemma FilterStep<T>(s: seq<T>, i: int, keep: T -> bool)
    requires 0 <= i < |s|
    ensures Filter(s[..i + 1], keep) == Filter(s[..i], keep) + (if keep(s[i]) then [s[i]] else [])
  {
    assert s[..i + 1] == s[..i] + [s[i]];
    FilterConcat(s[..i], [s[i]], keep);
  }

  /** Filtering keeps every accepted element as often as it occurs, and drops the rest. */
  lemma {:induction false} FilterMultiset<T>(s: seq<T>, keep: T -> bool, x: T)
    ensures multiset(Filter(s, keep))[x] == if keep(x) then multiset(s)[x] else 0
  {
    if s != [] {
      assert s == [s[0]] + s[1..];
      FilterMultiset(s[1..], keep, x);
    }
  }

  /** The head of a filtered sequence is the first accepted element of the original. */
  lemma {:induction false} FilterFirst<T>(s: seq<T>, keep: T -> bool)
    ensures Filter(s, keep) == [] <==> forall k :: 0 <= k < |s| ==> !keep(s[k])
    ensures Filter(s, keep) != [] ==>
      exists k :: 0 <= k < |s| && s[k] == Filter(s, keep)[0] && keep(s[k]) &&
        forall j :: 0 <= j < k ==> !keep(s[j])
  {
    if s != [] && !keep(s[0]) {
      FilterFirst(s[1..], keep);
      if Filter(s, keep) != [] {
        var k :| 0 <= k < |s[1..]| && s[1..][k] == Filter(s, keep)[0] && keep(s[1..][k]) &&
          forall j :: 0 <= j < k ==> !keep(s[1..][j]);
        assert s[k + 1] == s[1..][k];
        assert forall j :: 0 <= j < k + 1 ==> !keep(s[j]) by {
          forall j | 0 <= j < k + 1 ensures !keep(s[j]) {
            if j > 0 { assert s[j] == s[1..][j - 1]; }
          }
        }
      } else {
        forall k | 0 <= k < |s| ensures !keep(s[k]) {
          if k > 0 { assert s[k] == s[1..][k - 1]; }
        }
      }
    } else if s != [] {
      assert Filter(s, keep)[0] == s[0];
    }
  }

  /** No element occurs twice. */
  ghost predicate Distinct<T>(s: seq<T>) {
    forall i, j :: 0 <= i < j < |s| ==> s[i] != s[j]
  }

  // ---------------------------------------------------------------------------
  // Resource tree walk: get_resource_list
  // ---------------------------------------------------------------------------

  /** One resource as listed by the package's resource API: its name within its
      directory, whether it is a directory, and a directory's own listing. */
  datatype Entry = Entry(name: string, isDir: bool, children: seq<Entry>)

  /** `re.match(pattern, subject)` succeeds: a match anchored at the start of `subject`. */
  type Matcher = (string, string) -> bool

  /** `'{}/{}'.format(path, name)` */
  function JoinPath(path: string, name: string): (r: string)
    ensures path + "/" <= r
    ensures r[|path| + 1..] == name
  {
    path + "/" + name
  }

  /** The file filter of get_resource_list: no pattern keeps everything. */
  predicate Keeps(pattern: Option<string>, matches: Matcher, p: string) {
    pattern.None? || MatchesPattern(matches, pattern.value)(p)
  }

  function MatchesPattern(matches: Matcher, pattern: string): string -> bool {
    p => matches(pattern, p)
  }

  /** The paths get_resource_list contributes for one listed entry under `path`. */
  function WalkEntry(e: Entry, path: string, pattern: Option<string>, matches: Matcher): (r: seq<string>)
    ensures forall k :: 0 <= k < |r| ==> Beneath(path, e.name, r[k])
    decreases e, 1
  {
    var p := JoinPath(path, e.name);
    if e.isDir then Walk(e.children, p, pattern, matches)
    else if Keeps(pattern, matches, p) then [p]
    else []
  }

  /** The paths get_resource_list returns for the listing `entries` of `path`:
      depth first, in listing order, a directory's files at the directory's place. */
  function Walk(entries: seq<Entry>, path: string, pattern: Option<string>, matches: Matcher): (r: seq<string>)
    ensures forall k :: 0 <= k < |r| ==> path + "/" <= r[k]
    decreases entries, 0
  {
    if entries == [] then []
    else
      var head := WalkEntry(entries[0], path, pattern, matches);
      var tail := Walk(entries[1..], path, pattern, matches);
      assert forall k :: 0 <= k < |head| ==> path + "/" <= head[k] by {
        forall k | 0 <= k < |head| ensures path + "/" <= head[k] {
          var q := JoinPath(path, entries[0].name);
          PrefixTrans(path + "/", q, q + "/");
          if head[k] != q {
            PrefixTrans(path + "/", q + "/", head[k]);
          }
        }
      }
      head + tail
  }

  /** get_resource_list: walk the listing of `path`, recursing into directories,
      keeping the files that pass the pattern. */
  method GetResourceList(entries: seq<Entry>, path: string, pattern: Option<string>, matches: Matcher)
    returns (out: seq<string>)
    ensures out == Walk(entries, path, pattern, matches)
    decreases entries
  {
    out := [];
    var i := 0;
    while i < |entries|
      invariant 0 <= i <= |entries|
      invariant out == Walk(entries[..i], path, pattern, matches)
    {
      var e := entries[i];
      var newPath := JoinPath(path, e.name);
      if e.isDir {
        var sub := GetResourceList(e.children, newPath, pattern, matches);
        out := out + sub;
      } else if Keeps(pattern, matches, newPath) {
        out := out + [newPath];
      }
      WalkStep(entries, i, path, pattern, matches);
      i := i + 1;
    }
    assert entries[..i] == entries;
  }

  lemma {:induction false} WalkConcat(a: seq<Entry>, b: seq<Entry>, path: string, pattern: Option<string>, matches: Matcher)
    ensures Walk(a + b, path, pattern, matches) == Walk(a, path, pattern, matches) + Walk(b, path, pattern, matches)
  {
    if a != [] {
      assert (a + b)[0] == a[0];
      assert (a + b)[1..] == a[1..] + b;
      WalkConcat(a[1..], b, path, pattern, matches);
    } else {
      assert a + b == b;
    }
  }

  /** Walking one more entry of a listing appends that entry's paths. */
  lemma WalkStep(entries: seq<Entry>, i: int, path: string, pattern: Option<string>, matches: Matcher)
    requires 0 <= i < |entries|
    ensures Walk(entries[..i + 1], path, pattern, matches) ==
            Walk(entries[..i], path, pattern, matches) + WalkEntry(entries[i], path, pattern, matches)
  {
    assert entries[..i + 1] == entries[..i] + [entries[i]];
    WalkConcat(entries[..i], [entries[i]], path, pattern, matches);
    assert Walk([entries[i]], path, pattern, matches) == WalkEntry(entries[i], path, pattern, matches) + Walk([], path, pattern, matches);
  }

  /** `p` is the path of a file (a non-directory entry) reachable from the listing `entries` of `path`. */
  ghost predicate FileIn(entries: seq<Entry>, path: string, p: string)
    decreases entries, 0
  {
    exists i :: 0 <= i < |entries| && FileAt(entries[i], path, p)
  }

  /** `p` is the path of a file at or below the entry `e` listed in `path`. */
  ghost predicate FileAt(e: Entry, path: string, p: string)
    decreases e, 1
  {
    var q := JoinPath(path, e.name);
    if e.isDir then FileIn(e.children, q, p) else p == q
  }

  lemma FileInCons(entries: seq<Entry>, path: string, p: string)
    requires entries != []
    ensures FileIn(entries, path, p) <==> FileAt(entries[0], path, p) || FileIn(entries[1..], path, p)
  {
    if FileIn(entries, path, p) {
      var i :| 0 <= i < |entries| && FileAt(entries[i], path, p);
      if i > 0 { assert entries[1..][i - 1] == entries[i]; }
    }
    if FileIn(entries[1..], path, p) {
      var i :| 0 <= i < |entries[1..]| && FileAt(entries[1..][i], path, p);
      assert entries[i + 1] == entries[1..][i];
    }
  }

  /** What get_resource_list returns, as a set: exactly the reachable files that
      pass the pattern. In particular it never returns a directory. */
  lemma {:induction false} WalkMembership(entries: seq<Entry>, path: string, pattern: Option<string>, matches: Matcher, p: string)
    ensures p in Walk(entries, path, pattern, matches) <==> FileIn(entries, path, p) && Keeps(pattern, matches, p)
    decreases entries, 0
  {
    if entries != [] {
      WalkEntryMembership(entries[0], path, pattern, matches, p);
      WalkMembership(entries[1..], path, pattern, matches, p);
      FileInCons(entries, path, p);
    }
  }

  lemma {:induction false} WalkEntryMembership(e: Entry, path: string, pattern: Option<string>, matches: Matcher, p: string)
    ensures p in WalkEntry(e, path, pattern, matches) <==> FileAt(e, path, p) && Keeps(pattern, matches, p)
    decreases e, 1
  {
    if e.isDir {
      WalkMembership(e.children, JoinPath(path, e.name), pattern, matches, p);
    }
  }

  /** With a pattern, the result is the unfiltered result with the paths the
      pattern does not match removed, in the same order. */
  lemma {:induction false} WalkFiltered(entries: seq<Entry>, path: string, pattern: string, matches: Matcher)
    ensures Walk(entries, path, Some(pattern), matches) == Filter(Walk(entries, path, None, matches), MatchesPattern(matches, pattern))
    decreases entries, 0
  {
    if entries != [] {
      WalkEntryFiltered(entries[0], path, pattern, matches);
      WalkFiltered(entries[1..], path, pattern, matches);
      FilterConcat(WalkEntry(entries[0], path, None, matches), Walk(entries[1..], path, None, matches), MatchesPattern(matches, pattern));
    }
  }

  lemma {:induction false} WalkEntryFiltered(e: Entry, path: string, pattern: string, matches: Matcher)
    ensures WalkEntry(e, path, Some(pattern), matches) == Filter(WalkEntry(e, path, None, matches), MatchesPattern(matches, pattern))
    decreases e, 1
  {
    if e.isDir {
      WalkFiltered(e.children, JoinPath(path, e.name), pattern, matches);
    } else {
      var p := JoinPath(path, e.name);
      assert WalkEntry(e, path, None, matches) == [p];
      assert Filter([p], MatchesPattern(matches, pattern)) ==
        (if matches(pattern, p) then [p] else []) + Filter([p][1..], MatchesPattern(matches, pattern));
    }
  }

  /** The number of files (non-directory entries) reachable from a listing. */
  function FileCount(entries: seq<Entry>): nat
    decreases entries, 0
  {
    if entries == [] then 0 else EntryFileCount(entries[0]) + FileCount(entries[1..])
  }

  function EntryFileCount(e: Entry): nat
    decreases e, 1
  {
    if e.isDir then FileCount(e.children) else 1
  }

  /** Without a pattern every reachable file contributes exactly one path. */
  lemma {:induction false} WalkCount(entries: seq<Entry>, path: string, matches: Matcher)
    ensures |Walk(entries, path, None, matches)| == FileCount(entries)
    decreases entries, 0
  {
    if entries != [] {
      WalkEntryCount(entries[0], path, matches);
      WalkCount(entries[1..], path, matches);
    }
  }

  lemma {:induction false} WalkEntryCount(e: Entry, path: string, matches: Matcher)
    ensures |WalkEntry(e, path, None, matches)| == EntryFileCount(e)
    decreases e, 1
  {
    if e.isDir {
      WalkCount(e.children, JoinPath(path, e.name), matches);
    }
  }

  /** `p` is the path of the entry `name` of `path`, or lies below it. */
  predicate Beneath(path: string, name: string, p: string) {
    p == JoinPath(path, name) || JoinPath(path, name) + "/" <= p
  }

  lemma PrefixTrans(a: string, b: string, c: string)
    requires a <= b && b <= c
    ensures a <= c
  {
    assert c[..|a|] == b[..|a|];
  }

  lemma {:induction false} FileInBeneath(entries: seq<Entry>, path: string, p: string)
    requires FileIn(entries, path, p)
    ensures exists i :: 0 <= i < |entries| && Beneath(path, entries[i].name, p)
    ensures path + "/" <= p
    decreases entries, 0
  {
    var i :| 0 <= i < |entries| && FileAt(entries[i], path, p);
    FileAtBeneath(entries[i], path, p);
    var q := JoinPath(path, entries[i].name);
    PrefixTrans(path + "/", q, q + "/");
    if p != q {
      PrefixTrans(path + "/", q + "/", p);
    }
  }

  lemma {:induction false} FileAtBeneath(e: Entry, path: string, p: string)
    requires FileAt(e, path, p)
    ensures Beneath(path, e.name, p)
    decreases e, 1
  {
    if e.isDir {
      FileInBeneath(e.children, JoinPath(path, e.name), p);
    }
  }

  /** Below `path`, a path beneath the entry `name` spells out `name` and then
      ends or continues with a '/'. */
  lemma BeneathShape(path: string, name: string, p: string)
    requires '/' !in name && Beneath(path, name, p)
    ensures |path| + 1 + |name| <= |p|
    ensures forall k :: 0 <= k < |name| ==> p[|path| + 1 + k] == name[k] != '/'
    ensures |p| == |path| + 1 + |name| || p[|path| + 1 + |name|] == '/'
  {
    assert JoinPath(path, name) <= p;
    forall k | 0 <= k < |name| ensures p[|path| + 1 + k] == name[k] {
      assert JoinPath(path, name)[|path| + 1 + k] == name[k];
    }
    if p != JoinPath(path, name) {
      assert (JoinPath(path, name) + "/")[|path| + 1 + |name|] == '/';
    }
  }

  /** Two sibling names without '/' that a path lies beneath are the same name. */
  lemma SameSegment(path: string, n1: string, n2: string, p: string)
    requires '/' !in n1 && '/' !in n2
    requires Beneath(path, n1, p) && Beneath(path, n2, p)
    ensures n1 == n2
  {
    BeneathShape(path, n1, p);
    BeneathShape(path, n2, p);
    assert |n1| == |n2|;
    assert forall k :: 0 <= k < |n1| ==> n1[k] == n2[k];
  }

  /** A listing as a file system produces it: names carry no '/', siblings have
      distinct names, and every directory's listing is well formed too. */
  ghost predicate WellFormed(entries: seq<Entry>)
    decreases entries
  {
    (forall i :: 0 <= i < |entries| ==> '/' !in entries[i].name) &&
    (forall i, j :: 0 <= i < j < |entries| ==> entries[i].name != entries[j].name) &&
    (forall i :: 0 <= i < |entries| && entries[i].isDir ==> WellFormed(entries[i].children))
  }

  /** On a well-formed tree get_resource_list returns each path at most once. */
  lemma {:induction false} WalkDistinct(entries: seq<Entry>, path: string, pattern: Option<string>, matches: Matcher)
    requires WellFormed(entries)
    ensures Distinct(Walk(entries, path, pattern, matches))
    decreases entries, 0
  {
    if entries != [] {
      var e := entries[0];
      var a := WalkEntry(e, path, pattern, matches);
      var b := Walk(entries[1..], path, pattern, matches);
      assert WellFormed(entries[1..]) by {
        forall i | 0 <= i < |entries[1..]| ensures '/' !in entries[1..][i].name {
          assert entries[1..][i] == entries[i + 1];
        }
        forall i, j | 0 <= i < j < |entries[1..]| ensures entries[1..][i].name != entries[1..][j].name {
          assert entries[1..][i] == entries[i + 1] && entries[1..][j] == entries[j + 1];
        }
        forall i | 0 <= i < |entries[1..]| && entries[1..][i].isDir ensures WellFormed(entries[1..][i].children) {
          assert entries[1..][i] == entries[i + 1];
        }
      }
      if e.isDir {
        WalkDistinct(e.children, JoinPath(path, e.name), pattern, matches);
      }
      WalkDistinct(entries[1..], path, pattern, matches);
      forall x | x in a && x in b ensures false {
        WalkEntryMembership(e, path, pattern, matches, x);
        FileAtBeneath(e, path, x);
        WalkMembership(entries[1..], path, pattern, matches, x);
        FileInBeneath(entries[1..], path, x);
        var j :| 0 <= j < |entries[1..]| && Beneath(path, entries[1..][j].name, x);
        assert entries[1..][j] == entries[j + 1];
        SameSegment(path, e.name, entries[j + 1].name, x);
      }
      forall i, j | 0 <= i < j < |a + b| ensures (a + b)[i] != (a + b)[j] {
        if i < |a| && |a| <= j {
          assert (a + b)[i] in a && (a + b)[j] in b;
        } else if |a| <= i {
          assert (a + b)[i] == b[i - |a|] && (a + b)[j] == b[j - |a|];
        }
      }
    }
  }

  // ---------------------------------------------------------------------------
  // Resource lookup: open_resource
  // ---------------------------------------------------------------------------

  /** What `resource_stream(pkg, path)` returns: a stream over that resource. */
  datatype Stream = Stream(pkg: string, path: string)

  /** The bundled resources of each installed package, by top-level package name. */
  type Packages = map<string, seq<Entry>>

  /** `not module_name`: no module name given, or an empty one. */
  predicate Unset(moduleName: Option<string>) {
    moduleName.None? || moduleName.value == ""
  }

  /** The modules the unnamed search tries: those whose name mentions regice. */
  predicate IsRegiceModule(name: string)
    ensures IsRegiceModule(name) <==>
      exists i :: OccursAt(name, "regice", i) || OccursAt(name, "Regice", i)
  {
    Contains(name, "regice") || Contains(name, "Regice")
  }

  /** The pattern open_resource filters the resource list with. */
  function FilePattern(fname: string): string {
    ".*" + fname
  }

  /** open_resource with a module name: the first resource of its package, from
      the root '/', that the pattern `'.*' + fname` matches. */
  function OpenNamed(packages: Packages, moduleName: string, fname: string, matches: Matcher): (r: Result<Stream>)
    ensures r == Failure(DistributionNotFound) <==> TopLevel(moduleName) !in packages
    ensures r.Success? ==> r.value.pkg == TopLevel(moduleName) && "//" <= r.value.path
  {
    var pkg := TopLevel(moduleName);
    if pkg !in packages then Failure(DistributionNotFound)
    else
      var files := Walk(packages[pkg], "/", Some(FilePattern(fname)), matches);
      if files == [] then Failure(OSError) else Success(Stream(pkg, files[0]))
  }

  /** The unnamed search stops at `name`: it is a regice module and the named lookup succeeds. */
  predicate Opens(packages: Packages, name: string, fname: string, matches: Matcher) {
    IsRegiceModule(name) && OpenNamed(packages, name, fname, matches).Success?
  }

  /** open_resource without a module name: the first regice module, in
      enumeration order, for which the named lookup succeeds. */
  function SearchModules(packages: Packages, modules: seq<string>, fname: string, matches: Matcher): (r: Result<Stream>)
    ensures r.Failure? ==> r.error == OSError
    ensures r.Success? ==> "//" <= r.value.path
  {
    if modules == [] then Failure(OSError)
    else if Opens(packages, modules[0], fname, matches) then
      OpenNamed(packages, modules[0], fname, matches)
    else SearchModules(packages, modules[1..], fname, matches)
  }

  function OpenResult(packages: Packages, modules: seq<string>, moduleName: Option<string>, fname: string, matches: Matcher): Result<Stream> {
    if Unset(moduleName) then SearchModules(packages, modules, fname, matches)
    else OpenNamed(packages, moduleName.value, fname, matches)
  }

  /** open_resource: `modules` stands for the names `iter_modules()` enumerates. */
  method OpenResource(packages: Packages, modules: seq<string>, moduleName: Option<string>, fname: string, matches: Matcher)
    returns (r: Result<Stream>)
    ensures r == OpenResult(packages, modules, moduleName, fname, matches)
    decreases if Unset(moduleName) then 1 else 0
  {
    if Unset(moduleName) {
      var i := 0;
      while i < |modules|
        invariant 0 <= i <= |modules|
        invariant SearchModules(packages, modules[i..], fname, matches) == SearchModules(packages, modules, fname, matches)
      {
        var name := modules[i];
        assert modules[i..][1..] == modules[i + 1..];
        if IsRegiceModule(name) {
          assert name != "";
          r := OpenResource(packages, modules, Some(name), fname, matches);
          if r.Success? {
            return;
          }
        }
        i := i + 1;
      }
      r := Failure(OSError);
      return;
    }

    var pkg := TopLevel(moduleName.value);
    if pkg !in packages {
      r := Failure(DistributionNotFound);
      return;
    }
    var files := GetResourceList(packages[pkg], "/", Some(FilePattern(fname)), matches);
    if files == [] {
      r := Failure(OSError);
      return;
    }
    r := Success(Stream(pkg, files[0]));
  }

  /** The named lookup fails with OSError exactly when no file of the package
      matches; otherwise it opens, from the package `TopLevel(moduleName)`, the
      first matching file in walk order, whose path starts with "//". */
  lemma OpenNamedFirstMatch(packages: Packages, moduleName: string, fname: string, matches: Matcher)
    requires TopLevel(moduleName) in packages
    ensures var all := Walk(packages[TopLevel(moduleName)], "/", None, matches);
            var r := OpenNamed(packages, moduleName, fname, matches);
            && (r.Failure? <==> forall k :: 0 <= k < |all| ==> !matches(FilePattern(fname), all[k]))
            && (r.Failure? ==> r.error == OSError)
            && (r.Success? ==>
                  && r.value.pkg == TopLevel(moduleName)
                  && "//" <= r.value.path
                  && exists k :: 0 <= k < |all| && all[k] == r.value.path && matches(FilePattern(fname), all[k]) &&
                       forall j :: 0 <= j < k ==> !matches(FilePattern(fname), all[j]))
  {
    var pkg := TopLevel(moduleName);
    var keep := MatchesPattern(matches, FilePattern(fname));
    var all := Walk(packages[pkg], "/", None, matches);
    var files := Walk(packages[pkg], "/", Some(FilePattern(fname)), matches);
    WalkFiltered(packages[pkg], "/", FilePattern(fname), matches);
    FilterFirst(all, keep);
    if files != [] {
      assert "/" + "/" == "//";
    }
  }

  /** The unnamed search tries only regice modules, in enumeration order, skips
      the ones whose lookup fails, returns the first success, and otherwise
      fails with OSError. */
  lemma {:induction false} SearchFirstSuccess(packages: Packages, modules: seq<string>, fname: string, matches: Matcher)
    ensures SearchModules(packages, modules, fname, matches).Failure? ==>
              SearchModules(packages, modules, fname, matches).error == OSError
    ensures SearchModules(packages, modules, fname, matches).Failure? <==>
              forall k :: 0 <= k < |modules| ==> !Opens(packages, modules[k], fname, matches)
    ensures SearchModules(packages, modules, fname, matches).Success? ==>
              exists k :: 0 <= k < |modules| && Opens(packages, modules[k], fname, matches) &&
                SearchModules(packages, modules, fname, matches) == OpenNamed(packages, modules[k], fname, matches) &&
                forall j :: 0 <= j < k ==> !Opens(packages, modules[j], fname, matches)
  {
    if modules != [] {
      SearchFirstSuccess(packages, modules[1..], fname, matches);
      if !Opens(packages, modules[0], fname, matches) {
        assert forall k :: 0 < k < |modules| ==> modules[k] == modules[1..][k - 1];
        if SearchModules(packages, modules, fname, matches).Success? {
          var k :| 0 <= k < |modules[1..]| && Opens(packages, modules[1..][k], fname, matches) &&
            SearchModules(packages, modules[1..], fname, matches) == OpenNamed(packages, modules[1..][k], fname, matches) &&
            forall j :: 0 <= j < k ==> !Opens(packages, modules[1..][j], fname, matches);
          assert modules[k + 1] == modules[1..][k];
        }
      }
    }
  }

  /** With no regice module installed the unnamed search raises OSError. */
  lemma {:induction false} NoRegiceModule(packages: Packages, modules: seq<string>, fname: string, matches: Matcher)
    requires forall k :: 0 <= k < |modules| ==> !IsRegiceModule(modules[k])
    ensures SearchModules(packages, modules, fname, matches) == Failure(OSError)
  {
    SearchFirstSuccess(packages, modules, fname, matches);
  }

  // ---------------------------------------------------------------------------
  // Plugin registry: get_compatible_module, init_modules_args
  // ---------------------------------------------------------------------------

  /** An entry point of the `regice` group: the hook name, the module that
      declares it, and the attribute that `load()` resolves there. */
  datatype EntryPoint = EntryPoint(name: string, moduleName: string, attr: string)

  const IS_COMPATIBLE_WITH: string := "is_compatible_with"
  const INIT_ARGS: string := "init_args"

  function HookNamed(hook: string): EntryPoint -> bool {
    (ep: EntryPoint) => ep.name == hook
  }

  /** Loading `ep` as an `is_compatible_with` hook and calling it on `name` returns true. */
  predicate Accepts(ep: EntryPoint, name: string, isCompatible: (EntryPoint, string) -> bool) {
    HookNamed(IS_COMPATIBLE_WITH)(ep) && isCompatible(ep, name)
  }

  /** `eps[k]` is the first entry point whose `is_compatible_with` hook accepts `name`. */
  ghost predicate FirstAccepting(eps: seq<EntryPoint>, name: string, isCompatible: (EntryPoint, string) -> bool, k: int) {
    0 <= k < |eps| && Accepts(eps[k], name, isCompatible) &&
    forall j :: 0 <= j < k ==> !Accepts(eps[j], name, isCompatible)
  }

  /** get_compatible_module: `eps` stands for `iter_entry_points('regice')`, and
      `isCompatible(ep, name)` for calling the loaded hook of `ep` on `name`.
      The result is the module imported, named by its module name. `loaded` is
      the sequence of hooks loaded and called, in order. */
  method GetCompatibleModule(eps: seq<EntryPoint>, name: string, isCompatible: (EntryPoint, string) -> bool)
    returns (m: Option<string>, ghost loaded: seq<EntryPoint>)
    ensures m.None? <==> forall k :: 0 <= k < |eps| ==> !Accepts(eps[k], name, isCompatible)
    ensures m.None? ==> loaded == Filter(eps, HookNamed(IS_COMPATIBLE_WITH))
    ensures m.Some? ==> exists k :: FirstAccepting(eps, name, isCompatible, k) &&
                          m.value == eps[k].moduleName &&
                          loaded == Filter(eps[..k + 1], HookNamed(IS_COMPATIBLE_WITH))
  {
    loaded := [];
    var i := 0;
    while i < |eps|
      invariant 0 <= i <= |eps|
      invariant forall j :: 0 <= j < i ==> !Accepts(eps[j], name, isCompatible)
      invariant loaded == Filter(eps[..i], HookNamed(IS_COMPATIBLE_WITH))
    {
      var ep := eps[i];
      FilterStep(eps, i, HookNamed(IS_COMPATIBLE_WITH));
      if ep.name == IS_COMPATIBLE_WITH {
        loaded := loaded + [ep];
        if isCompatible(ep, name) {
          m := Some(ep.moduleName);
          assert FirstAccepting(eps, name, isCompatible, i);
          return;
        }
      }
      i := i + 1;
    }
    assert eps[..i] == eps;
    m := None;
  }

  /** The hooks init_modules_args invokes for the requested `modules`: the
      `init_args` entry points whose module's top-level name is requested. */
  function WantedInitArgs(modules: seq<string>): EntryPoint -> bool {
    (ep: EntryPoint) => ep.name == INIT_ARGS && TopLevel(ep.moduleName) in modules
  }

  /** The selection rule stated without computing the top-level name: an entry
      point is wanted iff it is named `init_args` and some requested name is a
      prefix of its module name that holds no '.' and is either the whole module
      name or is followed there by a '.'. */
  lemma InitArgsSelectionRule(modules: seq<string>, ep: EntryPoint)
    ensures WantedInitArgs(modules)(ep) <==>
              ep.name == INIT_ARGS &&
              exists t :: t in modules && t <= ep.moduleName && '.' !in t &&
                (|t| < |ep.moduleName| ==> ep.moduleName[|t|] == '.')
  {
    if exists t :: t in modules && t <= ep.moduleName && '.' !in t &&
         (|t| < |ep.moduleName| ==> ep.moduleName[|t|] == '.') {
      var t :| t in modules && t <= ep.moduleName && '.' !in t &&
                (|t| < |ep.moduleName| ==> ep.moduleName[|t|] == '.');
      TopLevelUnique(ep.moduleName, t);
    }
    var top := TopLevel(ep.moduleName);
    assert top <= ep.moduleName && '.' !in top && (|top| < |ep.moduleName| ==> ep.moduleName[|top|] == '.');
  }

  /** The argument parser, seen through the `init_args` hooks applied to it. */
  class ArgumentParser {
    /** The hooks that have added their arguments to this parser, in order. */
    var contributions: seq<EntryPoint>

    constructor ()
      ensures contributions == []
    {
      contributions := [];
    }

    /** Calling the loaded `init_args` hook of `ep` on this parser. */
    method ApplyHook(ep: EntryPoint)
      modifies this
      ensures contributions == old(contributions) + [ep]
    {
      contributions := contributions + [ep];
    }
  }

  /** init_modules_args: `eps` stands for `iter_entry_points('regice')` and
      `modules` for the requested module list (None or empty: nothing to do). */
  method InitModulesArgs(parser: ArgumentParser, eps: seq<EntryPoint>, modules: Option<seq<string>>)
    modifies parser
    ensures (modules.None? || modules.value == []) ==> parser.contributions == old(parser.contributions)
    ensures modules.Some? ==>
      parser.contributions == old(parser.contributions) + Filter(eps, WantedInitArgs(modules.value))
  {
    if modules.None? || modules.value == [] {
      if modules.Some? {
        InitArgsNoModules(eps);
      }
      return;
    }
    var wanted := modules.value;
    var i := 0;
    while i < |eps|
      invariant 0 <= i <= |eps|
      invariant parser.contributions == old(parser.contributions) + Filter(eps[..i], WantedInitArgs(wanted))
    {
      var ep := eps[i];
      var moduleName := TopLevel(ep.moduleName);
      FilterStep(eps, i, WantedInitArgs(wanted));
      if ep.name == INIT_ARGS && moduleName in wanted {
        parser.ApplyHook(ep);
      }
      i := i + 1;
    }
    assert eps[..i] == eps;
  }

  /** With no module requested no hook is invoked. */
  lemma {:induction false} InitArgsNoModules(eps: seq<EntryPoint>)
    ensures Filter(eps, WantedInitArgs([])) == []
  {
    if eps != [] {
      InitArgsNoModules(eps[1..]);
    }
  }

  /** The hooks invoked are exactly the wanted `init_args` entry points, and no
      other entry point. */
  lemma InitArgsExactlyWanted(eps: seq<EntryPoint>, modules: seq<string>, ep: EntryPoint)
    ensures ep in Filter(eps, WantedInitArgs(modules)) <==>
      ep in eps && ep.name == INIT_ARGS && TopLevel(ep.moduleName) in modules
  {
    if ep in eps && ep.name == INIT_ARGS && TopLevel(ep.moduleName) in modules {
      var i :| 0 <= i < |eps| && eps[i] == ep;
      assert WantedInitArgs(modules)(eps[i]);
    }
  }

  /** Each wanted hook is invoked as often as it is enumerated: once, for an
      entry point enumerated once. */
  lemma InitArgsOncePerEntry(eps: seq<EntryPoint>, modules: seq<string>, ep: EntryPoint)
    requires ep.name == INIT_ARGS && TopLevel(ep.moduleName) in modules
    ensures multiset(Filter(eps, WantedInitArgs(modules)))[ep] == multiset(eps)[ep]
  {
    FilterMultiset(eps, WantedInitArgs(modules), ep);
  }

  /** Hooks are invoked in enumeration order: the hooks of an earlier part of the
      enumeration all come before those of a later part. */
  lemma InitArgsInOrder(a: seq<EntryPoint>, b: seq<EntryPoint>, modules: seq<string>)
    ensures Filter(a + b, WantedInitArgs(modules)) == Filter(a, WantedInitArgs(modules)) + Filter(b, WantedInitArgs(modules))
  {
    FilterConcat(a, b, WantedInitArgs(modules));
  }

  /** A requested name that no entry point's module carries changes nothing. */
  lemma {:induction false} InitArgsIgnoresUnknown(eps: seq<EntryPoint>, modules: seq<string>, extra: string)
    requires forall k :: 0 <= k < |eps| ==> TopLevel(eps[k].moduleName) != extra
    ensures Filter(eps, WantedInitArgs(modules + [extra])) == Filter(eps, WantedInitArgs(modules))
  {
    if eps != [] {
      assert TopLevel(eps[0].moduleName) in modules + [extra] <==> TopLevel(eps[0].moduleName) in modules;
      InitArgsIgnoresUnknown(eps[1..], modules, extra);
    }
  }
}
