/** The module loader of 5_loader.go: the search of package.path for the file
    of a required module, and the loader function that pushes either the
    compiled chunk or the message explaining why nothing was found. The file
    system is an oracle: stat tells whether a path exists (or why it could not
    be looked at), read gives a file's contents, and compile stands for the
    interpreter's LoadString, giving a chunk handle or a syntax error. */
module Loader {
  import opened Wrappers
  import opened Text
  import opened SlashPath
  import opened LuaState

  /** What fs.Stat says about a path. */
  datatype StatResult = Found | NotExist | StatFailed(msg: string)

  type Stat = string -> StatResult

  // ------------------------------------------------------------ path.Clean

  /** One element of path.Clean: "" and "." vanish; ".." drops the last name,
      stays put at the root of a rooted path and is kept at the front of a
      relative one; any other name is appended. */
  function CleanStep(rooted: bool, acc: seq<string>, e: string): seq<string> {
    if e == "" || e == "." then acc
    else if e == ".." then
      (if acc != [] && acc[|acc| - 1] != ".." then acc[..|acc| - 1]
       else if rooted then acc
       else acc + [".."])
    else acc + [e]
  }

  function CleanElems(rooted: bool, acc: seq<string>, es: seq<string>): seq<string>
    decreases |es|
  {
    if es == [] then acc else CleanElems(rooted, CleanStep(rooted, acc, es[0]), es[1..])
  }

  /** path.Clean: never empty; "." when a relative path cleans away entirely. */
  function Clean(p: string): (r: string)
    ensures r != ""
  {
    var rooted := IsAbs(p);
    var ns := CleanElems(rooted, [], Split(p, '/'));
    if rooted then "/" + Join(ns, "/")
    else if ns == [] then "."
    else
      assert Join(ns, "/") != "" by { CleanElemsNonEmpty(rooted, [], Split(p, '/')); }
      Join(ns, "/")
  }

  /** Cleaning appends only non-empty names. */
  lemma {:induction false} CleanElemsNonEmpty(rooted: bool, acc: seq<string>, es: seq<string>)
    requires forall i :: 0 <= i < |acc| ==> acc[i] != ""
    ensures var r := CleanElems(rooted, acc, es);
      (forall i :: 0 <= i < |r| ==> r[i] != "") && (r != [] ==> Join(r, "/") != "")
    decreases |es|
  {
    if es != [] {
      CleanElemsNonEmpty(rooted, CleanStep(rooted, acc, es[0]), es[1..]);
    }
  }

  /** Names that are already clean pass through cleaning unchanged. */
  lemma {:induction false} CleanElemsPlain(rooted: bool, acc: seq<string>, ns: seq<string>)
    requires AllPlain(ns)
    ensures CleanElems(rooted, acc, ns) == acc + ns
    decreases |ns|
  {
    if ns == [] {
      assert acc + ns == acc;
    } else {
      assert CleanStep(rooted, acc, ns[0]) == acc + [ns[0]];
      CleanElemsPlain(rooted, acc + [ns[0]], ns[1..]);
      assert acc + [ns[0]] + ns[1..] == acc + ns;
    }
  }

  /** A relative path made of plain names is already clean. */
  lemma CleanOfPlain(ns: seq<string>)
    requires ns != [] && AllPlain(ns)
    ensures Clean(Join(ns, "/")) == Join(ns, "/")
  {
    var p := Join(ns, "/");
    SplitJoin(ns, '/');
    assert !IsAbs(p) by {
      if |ns| > 1 {
        assert p == ns[0] + "/" + Join(ns[1..], "/");
      }
      assert p[0] == ns[0][0];
    }
    CleanElemsPlain(false, [], ns);
    assert [] + ns == ns;
  }

  // ------------------------------------------------------------ the search

  /** The file name a module name stands for: every '.' becomes a separator. */
  function FileOf(name: string): (r: string)
    ensures '.' !in r && |r| == |name|
    ensures forall i :: 0 <= i < |name| && name[i] != '.' ==> r[i] == name[i]
  {
    ReplaceChar(name, '.', '/')
  }

  /** The candidate one pattern yields: every '?' replaced by the file name,
      the result cleaned. */
  function Candidate(pattern: string, file: string): (r: string)
    ensures r != ""
  {
    Clean(ReplaceWith(pattern, '?', file))
  }

  /** A pattern with one '?' puts the file name in its place. */
  lemma {:induction false} ReplaceOne(pre: string, post: string, file: string)
    requires '?' !in pre && '?' !in post
    ensures ReplaceWith(pre + "?" + post, '?', file) == pre + file + post
    decreases |pre|
  {
    if pre == [] {
      assert ("" + "?" + post)[1..] == post;
      ReplaceNone(post, file);
    } else {
      assert (pre + "?" + post)[1..] == pre[1..] + "?" + post;
      ReplaceOne(pre[1..], post, file);
      assert [pre[0]] + (pre[1..] + file + post) == pre + file + post;
    }
  }

  /** A text without '?' is left alone. */
  lemma {:induction false} ReplaceNone(s: string, file: string)
    requires '?' !in s
    ensures ReplaceWith(s, '?', file) == s
    decreases |s|
  {
    if s != [] {
      ReplaceNone(s[1..], file);
      assert [s[0]] + s[1..] == s;
    }
  }

  /** The candidate of a pattern with a single '?' is that pattern with the
      file name in place of the '?', cleaned. */
  lemma CandidateOf(pre: string, post: string, file: string)
    requires '?' !in pre && '?' !in post
    ensures Candidate(pre + "?" + post, file) == Clean(pre + file + post)
  {
    ReplaceOne(pre, post, file);
  }

  /** The candidate path of each pattern of package.path, in order. */
  function Candidates(patterns: seq<string>, file: string): (cs: seq<string>)
    ensures |cs| == |patterns|
    ensures forall k :: 0 <= k < |cs| ==> cs[k] == Candidate(patterns[k], file) && cs[k] != ""
  {
    if patterns == [] then [] else [Candidate(patterns[0], file)] + Candidates(patterns[1..], file)
  }

  /** Walking the candidates in order: the first that stats is the path
      found, and later ones are not consulted; along the way the messages of
      stat failures other than "does not exist" are collected. A path found is
      one of the candidates, and there is at most one message per candidate. */
  function Search(cands: seq<string>, stat: Stat): (r: (string, seq<string>))
    ensures r.0 == "" || r.0 in cands
    ensures |r.1| <= |cands|
  {
    if cands == [] then ("", [])
    else
      var c := cands[0];
      match stat(c)
      case Found => (c, [])
      case NotExist => Search(cands[1..], stat)
      case StatFailed(m) =>
        var rest := Search(cands[1..], stat);
        (rest.0, [m] + rest.1)
  }

  /** The messages of every failed stat of every candidate, in order. */
  function Failures(cands: seq<string>, stat: Stat): seq<string>
  {
    if cands == [] then []
    else
      var rest := Failures(cands[1..], stat);
      match stat(cands[0])
      case StatFailed(m) => [m] + rest
      case _ => rest
  }

  /** The result of loFindFile on the candidates of package.path: the path
      found with an empty message, or "" with the collected messages joined
      by "\n\t". */
  function FindResult(cands: seq<string>, stat: Stat): (string, string) {
    var s := Search(cands, stat);
    if s.0 != "" then (s.0, "") else ("", Join(s.1, "\n\t"))
  }

  /** No candidate path is empty. */
  predicate NonEmpty(cands: seq<string>) {
    forall k :: 0 <= k < |cands| ==> cands[k] != ""
  }

  /** The search finds nothing exactly when no candidate stats. */
  lemma {:induction false} SearchNone(cs: seq<string>, stat: Stat)
    requires NonEmpty(cs)
    ensures Search(cs, stat).0 == "" <==> forall k :: 0 <= k < |cs| ==> stat(cs[k]) != Found
  {
    if cs != [] {
      var rest := cs[1..];
      SearchNone(rest, stat);
      if forall k :: 0 <= k < |cs| ==> stat(cs[k]) != Found {
        forall k | 0 <= k < |rest| ensures stat(rest[k]) != Found {
          assert rest[k] == cs[k + 1];
        }
      }
      if stat(cs[0]) != Found && forall k :: 0 <= k < |rest| ==> stat(rest[k]) != Found {
        forall k | 0 <= k < |cs| ensures stat(cs[k]) != Found {
          if k > 0 {
            assert cs[k] == rest[k - 1];
          }
        }
      }
    }
  }

  /** What the search finds is the first candidate that stats. */
  lemma {:induction false} SearchHit(cs: seq<string>, stat: Stat) returns (k: nat)
    requires Search(cs, stat).0 != ""
    ensures k < |cs| && Search(cs, stat).0 == cs[k] && stat(cs[k]) == Found
    ensures forall j :: 0 <= j < k ==> stat(cs[j]) != Found
  {
    SearchHead(cs, stat);
    if stat(cs[0]) == Found {
      k := 0;
    } else {
      var rest := cs[1..];
      var k' := SearchHit(rest, stat);
      k := k' + 1;
      forall j | 1 <= j < k ensures stat(cs[j]) != Found {
        assert cs[j] == rest[j - 1];
      }
    }
  }

  /** The search finds the first candidate if it stats, else what the rest finds. */
  lemma SearchHead(cs: seq<string>, stat: Stat)
    requires Search(cs, stat).0 != ""
    ensures cs != []
    ensures Search(cs, stat).0 == if stat(cs[0]) == Found then cs[0] else Search(cs[1..], stat).0
  {
  }

  /** When nothing is found, the messages are those of every failed stat. */
  lemma {:induction false} SearchFailures(cs: seq<string>, stat: Stat)
    requires NonEmpty(cs) && Search(cs, stat).0 == ""
    ensures Search(cs, stat).1 == Failures(cs, stat)
  {
    if cs != [] {
      SearchFailures(cs[1..], stat);
    }
  }

  /** Candidates after the first hit change nothing. */
  lemma {:induction false} SearchStopsAtHit(cs: seq<string>, more: seq<string>, stat: Stat)
    requires Search(cs, stat).0 != ""
    ensures Search(cs + more, stat) == Search(cs, stat)
  {
    assert (cs + more)[0] == cs[0];
    if stat(cs[0]) != Found {
      assert (cs + more)[1..] == cs[1..] + more;
      SearchStopsAtHit(cs[1..], more, stat);
    }
  }

  /** The search from candidate i on, in terms of the search from i + 1 on. */
  lemma SearchStep(cs: seq<string>, i: nat, stat: Stat)
    requires i < |cs|
    ensures var next := Search(cs[i + 1..], stat);
      Search(cs[i..], stat) ==
        match stat(cs[i])
        case Found => (cs[i], [])
        case NotExist => next
        case StatFailed(m) => (next.0, [m] + next.1)
  {
    assert cs[i..][0] == cs[i] && cs[i..][1..] == cs[i + 1..];
  }

  /** Passing over a candidate that does not stat keeps the message of a
      failed stat. */
  lemma SearchAdvance(cs: seq<string>, i: nat, messages: seq<string>, stat: Stat)
    requires i < |cs| && stat(cs[i]) != Found
    requires Search(cs, stat) == (Search(cs[i..], stat).0, messages + Search(cs[i..], stat).1)
    ensures var kept := if stat(cs[i]).StatFailed? then messages + [stat(cs[i]).msg] else messages;
      Search(cs, stat) == (Search(cs[i + 1..], stat).0, kept + Search(cs[i + 1..], stat).1)
  {
    var here := Search(cs[i..], stat);
    var next := Search(cs[i + 1..], stat);
    SearchStep(cs, i, stat);
    match stat(cs[i])
    case NotExist =>
      assert here == next;
    case StatFailed(m) =>
      assert here == (next.0, [m] + next.1);
      assert messages + here.1 == (messages + [m]) + next.1;
  }

  /** The error raised when package.path is not a string. */
  const PathNotString: string := "package.path must be a string"

  /** loFindFile: looks the module name up along package.path. */
  method LoFindFile(pathValue: Value, name: string, stat: Stat) returns (r: Result<(string, string)>)
    ensures !pathValue.Str? ==> r == Err(PathNotString)
    ensures pathValue.Str? ==> r == Ok(FindResult(Candidates(Split(pathValue.s, ';'), FileOf(name)), stat))
  {
    var file := FileOf(name);
    if !pathValue.Str? {
      return Err(PathNotString);
    }
    var path, messages := SearchPath(Split(pathValue.s, ';'), file, stat);
    if path != "" {
      return Ok((path, ""));
    }
    return Ok(("", Join(messages, "\n\t")));
  }

  /** The loop of loFindFile over the patterns: the first candidate that
      stats, or "" and the messages of the failed stats. */
  method SearchPath(patterns: seq<string>, file: string, stat: Stat) returns (path: string, messages: seq<string>)
    ensures path == Search(Candidates(patterns, file), stat).0
    ensures path == "" ==> messages == Search(Candidates(patterns, file), stat).1
  {
    ghost var cands := Candidates(patterns, file);
    messages := [];
    var i := 0;
    assert cands[i..] == cands;
    assert messages + Search(cands, stat).1 == Search(cands, stat).1;
    while i < |patterns|
      invariant 0 <= i <= |patterns|
      invariant Search(cands, stat) == (Search(cands[i..], stat).0, messages + Search(cands[i..], stat).1)
    {
      var luapath := Candidate(patterns[i], file);
      assert luapath == cands[i];
      var st := stat(luapath);
      if st.Found? {
        SearchStep(cands, i, stat);
        return luapath, messages;
      }
      SearchAdvance(cands, i, messages, stat);
      if st.StatFailed? {
        messages := messages + [st.msg];
      }
      i := i + 1;
    }
    assert cands[i..] == [];
    assert messages + [] == messages;
    return "", messages;
  }

  // ------------------------------------------------------------ the loader

  /** What the loader function leaves: a pushed value, or a raised error. */
  datatype Outcome = Pushed(v: Value) | Raised(msg: string)

  /** LoadFile: read is fs.ReadFile on the site's file system, compile is the
      interpreter's LoadString, giving a chunk handle or the syntax error. */
  method LoadFile(pathValue: Value, name: string, stat: Stat,
                  read: string -> Result<string>, compile: string -> Result<nat>) returns (r: Outcome)
    ensures !pathValue.Str? ==> r == Raised(PathNotString)
    ensures pathValue.Str? ==>
      var (p, msg) := FindResult(Candidates(Split(pathValue.s, ';'), FileOf(name)), stat);
      if p == "" then r == Pushed(Str(msg))
      else if read(p).Err? then r == Pushed(Str(""))
      else if compile(read(p).value).Err? then r == Raised(compile(read(p).value).msg)
      else r == Pushed(Object(compile(read(p).value).value))
  {
    var found := LoFindFile(pathValue, name, stat);
    if found.Err? {
      return Raised(found.msg);
    }
    var (path, msg) := found.value;
    if |path| == 0 {
      return Pushed(Str(msg));
    }
    var bytes := read(path);
    if bytes.Err? {
      return Pushed(Str(msg));
    }
    var fn := compile(bytes.value);
    if fn.Err? {
      return Raised(fn.msg);
    }
    return Pushed(Object(fn.value));
  }

  /** When no candidate exists, the loader pushes the message (never a chunk,
      never an error), and the message lists exactly the failed stats. */
  lemma NotFoundPushesMessage(path: string, name: string, stat: Stat)
    requires forall k :: 0 <= k < |Split(path, ';')| ==> stat(Candidate(Split(path, ';')[k], FileOf(name))) != Found
    ensures var cs := Candidates(Split(path, ';'), FileOf(name));
      FindResult(cs, stat) == ("", Join(Failures(cs, stat), "\n\t"))
  {
    var cs := Candidates(Split(path, ';'), FileOf(name));
    forall k | 0 <= k < |cs| ensures stat(cs[k]) != Found {
    }
    SearchNone(cs, stat);
    SearchFailures(cs, stat);
  }

  /** When some candidate exists, the loader reads the first one that does:
      the candidate of pattern i, where no earlier pattern's candidate stats. */
  lemma FoundIsFirst(path: string, name: string, stat: Stat, k: nat)
    requires k < |Split(path, ';')| && stat(Candidate(Split(path, ';')[k], FileOf(name))) == Found
    ensures var (p, msg) := FindResult(Candidates(Split(path, ';'), FileOf(name)), stat);
      msg == "" && stat(p) == Found &&
      exists i :: 0 <= i <= k && p == Candidate(Split(path, ';')[i], FileOf(name)) &&
        forall j :: 0 <= j < i ==> stat(Candidate(Split(path, ';')[j], FileOf(name))) != Found
  {
    var cs := Candidates(Split(path, ';'), FileOf(name));
    SearchNone(cs, stat);
    var i := SearchHit(cs, stat);
    assert i <= k;
  }
}
