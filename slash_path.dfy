/** relativeFrom (4_path_param.go) and the slash-path arithmetic it rests on:
    filepath.IsAbs, filepath.Dir, filepath.Abs and filepath.Rel on '/'-separated
    paths. A cleaned absolute path is the list of names below the root; the
    working directory that filepath.Abs consults is a parameter. */
module SlashPath {
  import opened Text

  /** A cleaned absolute path: the names from the root down. */
  type Names = seq<string>

  predicate IsAbs(p: string) {
    |p| > 0 && p[0] == '/'
  }

  /** A name that survives cleaning. */
  predicate Plain(n: string) {
    n != "" && n != "." && n != ".." && '/' !in n
  }

  predicate AllPlain(ns: Names) {
    forall i :: 0 <= i < |ns| ==> Plain(ns[i])
  }

  predicate NoSep(es: seq<string>) {
    forall i :: 0 <= i < |es| ==> '/' !in es[i]
  }

  /** One element of path.Clean on a rooted path: "" and "." vanish, ".." drops
      the last name and stays put at the root, any other name is appended. */
  function Step(acc: Names, e: string): (r: Names)
    ensures e == "" || e == "." ==> r == acc
    ensures e == ".." ==> r == if acc == [] then [] else acc[..|acc| - 1]
    ensures Plain(e) ==> r == acc + [e]
  {
    if e == "" || e == "." then acc
    else if e == ".." then (if acc == [] then [] else acc[..|acc| - 1])
    else acc + [e]
  }

  /** Cleaning the elements es, left to right, starting from the names acc. */
  function Resolve(acc: Names, es: seq<string>): Names
    decreases |es|
  {
    if es == [] then acc else Resolve(Step(acc, es[0]), es[1..])
  }

  /** Cleaning leaves only plain names. */
  lemma {:induction false} ResolveKeepsPlain(acc: Names, es: seq<string>)
    requires AllPlain(acc) && NoSep(es)
    ensures AllPlain(Resolve(acc, es))
    decreases |es|
  {
    if es != [] {
      var e := es[0];
      assert '/' !in e;
      var next := Step(acc, e);
      assert AllPlain(next) by {
        if !(e == "" || e == "." || e == "..") {
          assert next == acc + [e];
        }
      }
      ResolveKeepsPlain(next, es[1..]);
    }
  }

  /** filepath.Abs followed by the cleaning it does: a rooted path is cleaned from
      the root, any other one from the working directory cwd. */
  function Abs(cwd: Names, p: string): (r: Names)
    requires AllPlain(cwd)
    ensures AllPlain(r)
  {
    var start := if IsAbs(p) then [] else cwd;
    ResolveKeepsPlain(start, Split(p, '/'));
    Resolve(start, Split(p, '/'))
  }

  /** strings.LastIndexByte. */
  function LastIndex(s: string, c: char): (r: int)
    ensures -1 <= r < |s|
    ensures r >= 0 ==> s[r] == c
    ensures forall i :: r < i < |s| ==> s[i] != c
  {
    if s == [] then -1
    else if s[|s| - 1] == c then |s| - 1
    else LastIndex(s[..|s| - 1], c)
  }

  /** filepath.Dir before its final Clean: everything up to and including the
      last '/', or "" (which cleans to ".") when there is none. Abs does the
      cleaning. */
  function DirOf(p: string): (r: string)
    ensures |r| <= |p| && r == p[..|r|]
    ensures r == [] || r[|r| - 1] == '/'
    ensures forall i :: |r| <= i < |p| ==> p[i] != '/'
  {
    p[..LastIndex(p, '/') + 1]
  }

  /** k times "..". */
  function Ups(k: nat): (r: Names)
    ensures |r| == k && forall i :: 0 <= i < k ==> r[i] == ".."
  {
    seq(k, _ => "..")
  }

  /** The number of leading names a and b share. */
  function CommonPrefix(a: Names, b: Names): (n: nat)
    ensures n <= |a| && n <= |b| && a[..n] == b[..n]
    ensures n < |a| && n < |b| ==> a[n] != b[n]
  {
    if a == [] || b == [] || a[0] != b[0] then 0
    else
      var n := CommonPrefix(a[1..], b[1..]);
      assert a[..n + 1] == [a[0]] + a[1..][..n];
      assert b[..n + 1] == [b[0]] + b[1..][..n];
      n + 1
  }

  /** The elements of filepath.Rel(base, targ): one ".." per name of base below
      the shared prefix, then the rest of targ. */
  function RelNames(base: Names, targ: Names): (r: Names)
  {
    var n := CommonPrefix(base, targ);
    Ups(|base| - n) + targ[n..]
  }

  /** filepath.Rel on two cleaned absolute paths; "." when they are equal. */
  function Rel(base: Names, targ: Names): string {
    var ps := RelNames(base, targ);
    if ps == [] then "." else Join(ps, "/")
  }

  /** relativeFrom(targetLink, srcPage): a link that is not absolute is kept, an
      absolute one is made relative to the directory of the source page; the
      result is never absolute. */
  function RelativeFrom(cwd: Names, target: string, src: string): (r: string)
    requires AllPlain(cwd)
    ensures !IsAbs(r)
  {
    if !IsAbs(target) then target
    else
      RelRoundTrip(Abs(cwd, DirOf(src)), Abs(cwd, target));
      Rel(Abs(cwd, DirOf(src)), Abs(cwd, target))
  }

  // ------------------------------------------------------------ cleaning

  lemma {:induction false} ResolveAppend(acc: Names, a: seq<string>, b: seq<string>)
    ensures Resolve(acc, a + b) == Resolve(Resolve(acc, a), b)
    decreases |a|
  {
    if a != [] {
      assert (a + b)[1..] == a[1..] + b;
      ResolveAppend(Step(acc, a[0]), a[1..], b);
    } else {
      assert a + b == b;
    }
  }

  /** Plain names are appended as they are. */
  lemma {:induction false} ResolvePlain(acc: Names, ps: Names)
    requires AllPlain(ps)
    ensures Resolve(acc, ps) == acc + ps
    decreases |ps|
  {
    if ps != [] {
      ResolvePlain(acc + [ps[0]], ps[1..]);
      assert acc + [ps[0]] + ps[1..] == acc + ps;
    }
  }

  /** Each ".." drops one name. */
  lemma {:induction false} ResolveUps(acc: Names, k: nat)
    requires k <= |acc|
    ensures Resolve(acc, Ups(k)) == acc[..|acc| - k]
    decreases k
  {
    if k > 0 {
      assert Ups(k)[1..] == Ups(k - 1);
      ResolveUps(acc[..|acc| - 1], k - 1);
      assert acc[..|acc| - 1][..|acc| - 1 - (k - 1)] == acc[..|acc| - k];
    }
  }

  // ------------------------------------------------------------ Rel

  lemma RelNamesShape(base: Names, targ: Names)
    requires AllPlain(base) && AllPlain(targ)
    ensures var ps := RelNames(base, targ);
      NoSep(ps) && forall i :: 0 <= i < |ps| ==> ps[i] != ""
  {
  }

  /** Joining the result of Rel onto base and cleaning gives targ back, and the
      result is never an absolute path. */
  lemma RelRoundTrip(base: Names, targ: Names)
    requires AllPlain(base) && AllPlain(targ)
    ensures Resolve(base, Split(Rel(base, targ), '/')) == targ
    ensures !IsAbs(Rel(base, targ))
  {
    if RelNames(base, targ) == [] {
      RelSame(base, targ);
    } else {
      RelJoined(base, targ);
    }
  }

  lemma RelSame(base: Names, targ: Names)
    requires AllPlain(base) && AllPlain(targ) && RelNames(base, targ) == []
    ensures Rel(base, targ) == "." && base == targ
    ensures Split(".", '/') == ["."] && Resolve(base, ["."]) == base
  {
    var n := CommonPrefix(base, targ);
    assert |base| == n && |targ| == n;
    assert base == base[..n] && targ == targ[..n];
    assert Join(["."], ['/']) == ".";
    SplitJoin(["."], '/');
  }

  lemma RelJoined(base: Names, targ: Names)
    requires AllPlain(base) && AllPlain(targ) && RelNames(base, targ) != []
    ensures Resolve(base, Split(Rel(base, targ), '/')) == targ
    ensures !IsAbs(Rel(base, targ))
  {
    var ps := RelNames(base, targ);
    RelNamesShape(base, targ);
    SplitJoin(ps, '/');
    RelResolves(base, targ);
    JoinHead(ps, "/");
  }

  /** Cleaning the elements of Rel from base gives targ. */
  lemma RelResolves(base: Names, targ: Names)
    requires AllPlain(targ)
    ensures Resolve(base, RelNames(base, targ)) == targ
  {
    var n := CommonPrefix(base, targ);
    var k := |base| - n;
    PlainParts(targ, n);
    ResolveAppend(base, Ups(k), targ[n..]);
    ResolveUps(base, k);
    ResolvePlain(base[..n], targ[n..]);
    Reassemble(base, targ, n);
  }

  lemma PlainParts(ns: Names, n: nat)
    requires AllPlain(ns) && n <= |ns|
    ensures AllPlain(ns[..n]) && AllPlain(ns[n..])
  {
  }

  lemma Reassemble(base: Names, targ: Names, n: nat)
    requires n <= |base| && n <= |targ| && base[..n] == targ[..n]
    ensures base[..n] + targ[n..] == targ
  {
    assert targ[..n] + targ[n..] == targ;
  }

  /** A join of non-empty parts starts with the first part's first character. */
  lemma JoinHead(ps: seq<string>, sep: string)
    requires ps != [] && ps[0] != ""
    ensures Join(ps, sep) != [] && Join(ps, sep)[0] == ps[0][0]
  {
  }

  /** When targ lies below base, the result does not climb at all: it is the
      rest of targ, or "." for base itself. */
  lemma RelBelow(base: Names, targ: Names)
    requires AllPlain(base) && AllPlain(targ)
    requires |base| <= |targ| && targ[..|base|] == base
    ensures Rel(base, targ) == (if |targ| == |base| then "." else Join(targ[|base|..], "/"))
  {
    BelowCommon(base, targ);
    assert RelNames(base, targ) == targ[|base|..];
  }

  lemma {:induction false} BelowCommon(base: Names, targ: Names)
    requires |base| <= |targ| && targ[..|base|] == base
    ensures CommonPrefix(base, targ) == |base|
  {
    if base != [] {
      assert base[0] == targ[0];
      assert targ[1..][..|base| - 1] == base[1..];
      BelowCommon(base[1..], targ[1..]);
    }
  }

  /** Otherwise it climbs out of base exactly as far as it has to: one ".."
      for each name of base outside the prefix base shares with targ. */
  lemma RelClimbs(base: Names, targ: Names)
    requires AllPlain(base) && AllPlain(targ)
    ensures var n := CommonPrefix(base, targ);
      n < |base| ==> Rel(base, targ) == Join(Ups(|base| - n) + targ[n..], "/")
  {
  }

  // ------------------------------------------------------------ relativeFrom

  /** A link that is not absolute is returned as it is. */
  lemma RelativeFromRelative(cwd: Names, target: string, src: string)
    requires AllPlain(cwd) && !IsAbs(target)
    ensures RelativeFrom(cwd, target, src) == target
  {
  }

  /** An absolute link becomes a relative one that, resolved against the
      directory of the source page, names the same file. */
  lemma RelativeFromRoundTrip(cwd: Names, target: string, src: string)
    requires AllPlain(cwd) && IsAbs(target)
    ensures var r := RelativeFrom(cwd, target, src);
      !IsAbs(r) &&
      Resolve(Abs(cwd, DirOf(src)), Split(r, '/')) == Abs(cwd, target)
  {
    RelRoundTrip(Abs(cwd, DirOf(src)), Abs(cwd, target));
  }

  // ------------------------------------------------------------ examples

  /** A rooted path written name by name cleans to those names. */
  lemma AbsRooted(cwd: Names, ns: Names)
    requires AllPlain(cwd) && AllPlain(ns) && ns != []
    ensures Abs(cwd, "/" + Join(ns, "/")) == ns
  {
    var p := "/" + Join(ns, "/");
    assert p == Join([""] + ns, "/");
    assert NoSep([""] + ns);
    SplitJoin([""] + ns, '/');
    assert ([""] + ns)[1..] == ns;
    ResolvePlain([], ns);
  }

  /** The directory of a rooted file path cleans to the names above the file. */
  lemma DirRooted(cwd: Names, ns: Names, f: string)
    requires AllPlain(cwd) && AllPlain(ns) && Plain(f)
    ensures Abs(cwd, DirOf("/" + Join(ns + [f], "/"))) == ns
  {
    if ns == [] {
      assert ns + [f] == [f];
      DirTop(cwd, f);
    } else {
      DirNested(cwd, ns, f);
    }
  }

  lemma DirNested(cwd: Names, ns: Names, f: string)
    requires AllPlain(cwd) && AllPlain(ns) && Plain(f) && ns != []
    ensures Abs(cwd, DirOf("/" + Join(ns + [f], "/"))) == ns
  {
    RootedSnoc(ns, f);
    DirOfAfter("/" + Join(ns, "/"), f);
    AbsDir(cwd, ns);
  }

  lemma RootedSnoc(ns: Names, f: string)
    requires ns != []
    ensures "/" + Join(ns + [f], "/") == "/" + Join(ns, "/") + "/" + f
  {
    JoinSnoc(ns, f, "/");
  }

  lemma DirTop(cwd: Names, f: string)
    requires AllPlain(cwd) && Plain(f)
    ensures Abs(cwd, DirOf("/" + Join([f], "/"))) == []
  {
    var p := "/" + f;
    assert Join([f], "/") == f;
    DirOfAfter("", f);
    assert "" + "/" + f == p;
    assert Join(["", ""], ['/']) == "/";
    SplitJoin(["", ""], '/');
  }

  /** Everything up to the last '/' is the directory part. */
  lemma DirOfAfter(a: string, f: string)
    requires '/' !in f
    ensures DirOf(a + "/" + f) == a + "/"
  {
    LastIndexAfter(a, f);
    assert (a + "/" + f)[..|a| + 1] == a + "/";
  }

  /** A rooted directory path with a trailing '/' cleans to its names. */
  lemma AbsDir(cwd: Names, ns: Names)
    requires AllPlain(cwd) && AllPlain(ns) && ns != []
    ensures Abs(cwd, "/" + Join(ns, "/") + "/") == ns
  {
    var es := [""] + ns + [""];
    assert "/" + Join(ns, "/") + "/" == Join(es, "/") by {
      JoinSnoc([""] + ns, "", "/");
      assert "/" + Join(ns, "/") == Join([""] + ns, "/");
    }
    assert NoSep(es);
    SplitJoin(es, '/');
    ResolveEdges(ns);
  }

  lemma ResolveEdges(ns: Names)
    requires AllPlain(ns)
    ensures Resolve([], [""] + ns + [""]) == ns
  {
    assert ([""] + ns + [""])[1..] == ns + [""];
    ResolvePlain([], ns);
    ResolveAppend([], ns, [""]);
  }

  lemma JoinSnoc(ps: seq<string>, x: string, sep: string)
    requires ps != []
    ensures Join(ps + [x], sep) == Join(ps, sep) + sep + x
  {
    if |ps| > 1 {
      assert (ps + [x])[1..] == ps[1..] + [x];
      JoinSnoc(ps[1..], x, sep);
    }
  }

  lemma {:induction false} LastIndexAfter(a: string, f: string)
    requires '/' !in f
    ensures LastIndex(a + "/" + f, '/') == |a|
    decreases |f|
  {
    var p := a + "/" + f;
    if f == [] {
      assert p == a + "/";
    } else {
      var g := f[..|f| - 1];
      assert p[|p| - 1] == f[|f| - 1];
      assert p[..|p| - 1] == a + "/" + g;
      LastIndexAfter(a, g);
    }
  }

  /** relativeFrom on two rooted paths written name by name. */
  lemma RelativeFromRooted(cwd: Names, ts: Names, ds: Names, f: string)
    requires AllPlain(cwd) && AllPlain(ts) && ts != [] && AllPlain(ds) && Plain(f)
    ensures RelativeFrom(cwd, "/" + Join(ts, "/"), "/" + Join(ds + [f], "/")) == Rel(ds, ts)
  {
    AbsRooted(cwd, ts);
    DirRooted(cwd, ds, f);
  }

  lemma PlainExamples()
    ensures Plain("a.png") && Plain("dir1") && Plain("dir2") && Plain("dir3") && Plain("index.html")
  {
  }

  lemma RelUp()
    ensures Rel(["dir1"], ["a.png"]) == "../a.png"
  {
    assert CommonPrefix(["dir1"], ["a.png"]) == 0;
    assert RelNames(["dir1"], ["a.png"]) == ["..", "a.png"];
  }

  lemma RelAcross()
    ensures Rel(["dir1"], ["dir2", "a.png"]) == "../dir2/a.png"
  {
    assert CommonPrefix(["dir1"], ["dir2", "a.png"]) == 0;
    assert RelNames(["dir1"], ["dir2", "a.png"]) == ["..", "dir2", "a.png"];
  }

  lemma RelSameDir()
    ensures Rel(["dir1"], ["dir1", "a.png"]) == "a.png"
  {
    PlainExamples();
    RelBelow(["dir1"], ["dir1", "a.png"]);
    assert ["dir1", "a.png"][1..] == ["a.png"];
  }

  lemma RelDown()
    ensures Rel(["dir1"], ["dir1", "dir3", "a.png"]) == "dir3/a.png"
  {
    PlainExamples();
    RelBelow(["dir1"], ["dir1", "dir3", "a.png"]);
    assert ["dir1", "dir3", "a.png"][1..] == ["dir3", "a.png"];
  }

  lemma SourcePath()
    ensures "/dir1/index.html" == "/" + Join(["dir1"] + ["index.html"], "/")
  {
    assert ["dir1"] + ["index.html"] == ["dir1", "index.html"];
  }

  /** The page-relative links of the project's own examples, for any working
      directory: up to the root, across to a sibling directory, within the same
      directory, down into a subdirectory, and a link that is already relative. */
  lemma RelativeFromUp(cwd: Names)
    requires AllPlain(cwd)
    ensures RelativeFrom(cwd, "/a.png", "/dir1/index.html") == "../a.png"
  {
    PlainExamples();
    SourcePath();
    assert "/a.png" == "/" + Join(["a.png"], "/");
    RelativeFromRooted(cwd, ["a.png"], ["dir1"], "index.html");
    RelUp();
  }

  lemma RelativeFromAcross(cwd: Names)
    requires AllPlain(cwd)
    ensures RelativeFrom(cwd, "/dir2/a.png", "/dir1/index.html") == "../dir2/a.png"
  {
    PlainExamples();
    SourcePath();
    assert "/dir2/a.png" == "/" + Join(["dir2", "a.png"], "/");
    RelativeFromRooted(cwd, ["dir2", "a.png"], ["dir1"], "index.html");
    RelAcross();
  }

  lemma RelativeFromSameDir(cwd: Names)
    requires AllPlain(cwd)
    ensures RelativeFrom(cwd, "/dir1/a.png", "/dir1/index.html") == "a.png"
  {
    PlainExamples();
    SourcePath();
    assert "/dir1/a.png" == "/" + Join(["dir1", "a.png"], "/");
    RelativeFromRooted(cwd, ["dir1", "a.png"], ["dir1"], "index.html");
    RelSameDir();
  }

  lemma RelativeFromDown(cwd: Names)
    requires AllPlain(cwd)
    ensures RelativeFrom(cwd, "/dir1/dir3/a.png", "/dir1/index.html") == "dir3/a.png"
  {
    PlainExamples();
    SourcePath();
    assert "/dir1/dir3/a.png" == "/" + Join(["dir1", "dir3", "a.png"], "/");
    RelativeFromRooted(cwd, ["dir1", "dir3", "a.png"], ["dir1"], "index.html");
    RelDown();
  }

  lemma RelativeFromKept(cwd: Names)
    requires AllPlain(cwd)
    ensures RelativeFrom(cwd, "a.png", "/dir1/index.html") == "a.png"
  {
  }

  /** filepath.Ext: the suffix from the last '.' of the last path element, or
      "" when that element has none. */
  function Ext(path: string): (r: string)
    ensures HasSuffix(path, r)
    ensures r == "" || (r[0] == '.' && '/' !in r)
  {
    if path == [] then ""
    else
      var c := path[|path| - 1];
      if c == '/' then ""
      else if c == '.' then "."
      else
        var e := Ext(path[..|path| - 1]);
        if e == "" then "" else e + [c]
  }

  /** A last element with a '.' has the extension from its last '.'. */
  lemma {:induction false} ExtOf(base: string, ext: string)
    requires '.' !in ext && '/' !in ext
    ensures Ext(base + "." + ext) == "." + ext
    decreases |ext|
  {
    if ext == [] {
      assert base + "." + ext == base + ".";
    } else {
      var front := ext[..|ext| - 1];
      var full := base + "." + ext;
      assert full[..|full| - 1] == base + "." + front;
      ExtOf(base, front);
      assert "." + front + [ext[|ext| - 1]] == "." + ext;
    }
  }

  /** A last element without a '.' has no extension. */
  lemma {:induction false} ExtNone(dir: string, name: string)
    requires '.' !in name && '/' !in name
    ensures Ext(dir + "/" + name) == ""
    decreases |name|
  {
    if name == [] {
      assert dir + "/" + name == dir + "/";
    } else {
      var front := name[..|name| - 1];
      var full := dir + "/" + name;
      assert full[..|full| - 1] == dir + "/" + front;
      ExtNone(dir, front);
    }
  }
}
