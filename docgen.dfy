/** The documentation extractor of docgen.go: a Lua module's text is cut into
    lines, each line is classified (a doc line marked with "---" at its start
    or end, or a line defining a function of the module), and the kept lines
    are assembled under a header that names the module. Reading the file is a
    parameter: its contents, or the error reading it failed with. */
module Docgen {
  import opened Wrappers
  import opened Text
  import opened SlashPath

  // ------------------------------------------------------------ lines

  /** The text the pieces make when put back together. */
  function Concat(ls: seq<string>): string {
    if ls == [] then "" else ls[0] + Concat(ls[1..])
  }

  /** A line: not empty, with no '\n' before its last character. */
  predicate Piece(x: string) {
    x != "" && '\n' !in x[..|x| - 1]
  }

  /** A line that ends with its '\n'. */
  predicate Ended(x: string) {
    x != "" && x[|x| - 1] == '\n'
  }

  /** The length of the first line of s: up to and including the first '\n',
      or all of s. */
  function LineLength(s: string): (n: nat)
    requires s != []
    ensures 0 < n <= |s| && Piece(s[..n])
    ensures n < |s| ==> Ended(s[..n])
    decreases |s|
  {
    if s[0] == '\n' || |s| == 1 then 1
    else
      var k := LineLength(s[1..]);
      assert s[..k + 1][1..] == s[1..][..k];
      assert s[..k + 1][..k] == [s[0]] + s[1..][..k - 1];
      k + 1
  }

  /** The first line is the only prefix of that shape. */
  lemma {:induction false} LineLengthIs(s: string, k: nat)
    requires 0 < k <= |s| && Piece(s[..k]) && (k == |s| || Ended(s[..k]))
    ensures LineLength(s) == k
    decreases |s|
  {
    if k > 1 {
      assert s[0] == s[..k][..k - 1][0];
      assert s[1..][..k - 1] == s[..k][1..];
      assert s[1..][..k - 1][..k - 2] == s[..k][..k - 1][1..];
      LineLengthIs(s[1..], k - 1);
    }
  }

  /** The lines of s, each with its '\n' (the last one may lack it). */
  function Lines(s: string): seq<string>
    decreases |s|
  {
    if s == [] then []
    else
      var n := LineLength(s);
      [s[..n]] + Lines(s[n..])
  }

  /** A well-formed cut of s into lines: the pieces make s again, each is a
      line, and only the last may lack its '\n'. */
  predicate LinesOf(ls: seq<string>, s: string) {
    Concat(ls) == s &&
    (forall i :: 0 <= i < |ls| ==> Piece(ls[i])) &&
    (forall i :: 0 <= i < |ls| - 1 ==> Ended(ls[i]))
  }

  /** Lines cuts s well; empty text has no lines. */
  lemma {:induction false} LinesSpec(s: string)
    ensures LinesOf(Lines(s), s)
    ensures Lines(s) == [] <==> s == []
    decreases |s|
  {
    if s != [] {
      var n := LineLength(s);
      var rest := s[n..];
      LinesSpec(rest);
      var ls := Lines(s);
      assert ls == [s[..n]] + Lines(rest);
      assert ls[1..] == Lines(rest);
      assert s == s[..n] + rest;
      assert forall i :: 1 <= i < |ls| ==> ls[i] == Lines(rest)[i - 1];
    }
  }

  /** Where the line starting at a ends: just past the first '\n' at or after
      a, or at the end of s. */
  method LineEnd(s: string, a: nat) returns (b: nat)
    requires a < |s|
    ensures a < b <= |s|
    ensures Lines(s[a..]) == [s[a..b]] + Lines(s[b..])
  {
    b := a;
    while b < |s| && s[b] != '\n'
      invariant a <= b <= |s| && '\n' !in s[a..b]
    {
      b := b + 1;
    }
    if b < |s| {
      b := b + 1;
    }
    var t := s[a..];
    assert t[..b - a] == s[a..b] && t[b - a..] == s[b..];
    assert t[..b - a][..b - a - 1] == s[a..b - 1];
    LineLengthIs(t, b - a);
  }

  /** getLines: the nested index loops of the iterator, collecting what it
      yields. */
  method GetLines(s: string) returns (lines: seq<string>)
    ensures lines == Lines(s)
  {
    lines := [];
    var a := 0;
    assert s[0..] == s;
    while a < |s|
      invariant 0 <= a <= |s|
      invariant lines + Lines(s[a..]) == Lines(s)
      decreases |s| - a
    {
      var b := LineEnd(s, a);
      assert lines + [s[a..b]] + Lines(s[b..]) == lines + ([s[a..b]] + Lines(s[b..]));
      lines := lines + [s[a..b]];
      a := b;
    }
    assert s[a..] == [];
    assert lines + [] == lines;
  }

  // ------------------------------------------------------------ module name

  /** filepath.Base on a '/'-separated path: the last element after trailing
      separators are dropped; "." for an empty path and "/" for the root. */
  function Base(p: string): (r: string)
    ensures r != ""
  {
    if p == "" then "."
    else
      var q := DropSlashes(p);
      if q == "" then "/" else q[LastIndex(q, '/') + 1..]
  }

  /** The path without its trailing separators. */
  function DropSlashes(p: string): (r: string)
    ensures r <= p && (r == "" || r[|r| - 1] != '/')
  {
    if p != "" && p[|p| - 1] == '/' then DropSlashes(p[..|p| - 1]) else p
  }

  /** The module a Lua file documents: its base name without the extension, so
      the base name is the module name followed by the extension. */
  function ModuleName(filename: string): (r: string)
    ensures r + Ext(Base(filename)) == Base(filename)
  {
    var b := Base(filename);
    TrimSuffix(b, Ext(b))
  }

  /** The last element of a path is its base name. */
  lemma BaseOf(dir: string, name: string)
    requires name != "" && '/' !in name
    ensures Base(dir + "/" + name) == name
  {
    var p := dir + "/" + name;
    assert p[|p| - 1] == name[|name| - 1];
    LastIndexAfter(dir, name);
    assert p[|dir| + 1..] == name;
  }

  /** A name stem.ext has no separator when neither part has one. */
  lemma NoSlash(stem: string, ext: string)
    requires '/' !in stem && '/' !in ext
    ensures '/' !in stem + "." + ext
  {
    var name := stem + "." + ext;
    assert forall i :: 0 <= i < |stem| ==> name[i] == stem[i];
    assert forall i :: |stem| < i < |name| ==> name[i] == ext[i - |stem| - 1];
  }

  /** dir/stem.ext documents the module stem. */
  lemma ModuleNameOf(dir: string, stem: string, ext: string)
    requires stem != "" && '/' !in stem
    requires '.' !in ext && '/' !in ext
    ensures ModuleName(dir + "/" + stem + "." + ext) == stem
  {
    BaseAndExt(dir, stem, ext);
    ModuleNameFrom(dir + "/" + stem + "." + ext, stem, "." + ext);
  }

  /** The base name of dir/stem.ext, and its extension. */
  lemma BaseAndExt(dir: string, stem: string, ext: string)
    requires stem != "" && '/' !in stem
    requires '.' !in ext && '/' !in ext
    ensures Base(dir + "/" + stem + "." + ext) == stem + ("." + ext)
    ensures Ext(stem + ("." + ext)) == "." + ext
  {
    var name := stem + "." + ext;
    assert dir + "/" + stem + "." + ext == dir + "/" + name;
    assert stem + ("." + ext) == name;
    NoSlash(stem, ext);
    BaseOf(dir, name);
    ExtOf(stem, ext);
  }

  /** A base name stem + x whose extension is x names the module stem. */
  lemma ModuleNameFrom(path: string, stem: string, x: string)
    requires Base(path) == stem + x && Ext(stem + x) == x
    ensures ModuleName(path) == stem
  {
    TrimExt(stem, x);
  }

  /** Trimming a suffix that is there leaves what came before it. */
  lemma TrimExt(stem: string, x: string)
    ensures TrimSuffix(stem + x, x) == stem
  {
    var name := stem + x;
    assert name[|name| - |x|..] == x;
    assert name[..|stem|] == stem;
  }

  // ------------------------------------------------------------ classifying

  const Marker: string := "---"

  predicate IsWordChar(c: char) {
    ('a' <= c <= 'z') || ('A' <= c <= 'Z') || ('0' <= c <= '9') || c == '_'
  }

  /** The pattern `function <module>\.\w+`: somewhere in t, "function ", the
      module name, a '.', and a word character. */
  predicate DefinesFunction(t: string, m: string) {
    exists i :: 0 <= i < |t| && MatchAt(t, i, "function " + m + ".")
  }

  /** pat occurs in t at i and is followed by a word character. */
  predicate MatchAt(t: string, i: nat, pat: string) {
    i + |pat| < |t| && t[i..i + |pat|] == pat && IsWordChar(t[i + |pat|])
  }

  /** What one line puts in the body: None when it is left out, otherwise the
      text written before its '\n'. A line of whitespace only is left out. */
  function DocLine(line: string, m: string): (r: Option<string>)
    ensures Trim(line) == "" ==> r.None?
  {
    var t := Trim(line);
    if Marker <= t then
      var rest := t[|Marker|..];
      if rest == "" then Some("  | ")
      else if IsSpace(rest[0]) then Some("  | " + rest[1..])
      else Some(rest)
    else if HasSuffix(t, Marker) then Some(t[..|t| - |Marker|])
    else if DefinesFunction(t, m) then Some(t)
    else None
  }

  /** A string with some character other than whitespace. */
  predicate NonBlank(s: string) {
    exists i :: 0 <= i < |s| && !IsSpace(s[i])
  }

  /** A kept line is never blank, so the body is non-empty exactly when some
      line is kept. */
  lemma DocLineNonBlank(line: string, m: string)
    requires DocLine(line, m).Some?
    ensures NonBlank(DocLine(line, m).value)
  {
    var t := Trim(line);
    TrimShape(line, ' ');
    var x := DocLine(line, m).value;
    if Marker <= t {
      var rest := t[|Marker|..];
      if rest == "" || IsSpace(rest[0]) {
        assert x[2] == '|';
      } else {
        assert !IsSpace(x[0]);
      }
    } else if HasSuffix(t, Marker) {
      assert t != Marker;
      assert t[0..] == t;
      assert x[0] == t[0];
    } else {
      assert t != "";
      assert x[0] == t[0];
    }
  }

  /** "--- text" is kept as "  | text". */
  lemma MarkedLine(x: string, m: string)
    requires x != "" && !IsSpace(x[|x| - 1])
    ensures DocLine("--- " + x, m) == Some("  | " + x)
  {
    var line := "--- " + x;
    assert Trimmed(line);
    TrimOfTrimmed(line);
    assert Marker <= line;
    assert line[|Marker|..] == " " + x;
    assert (" " + x)[1..] == x;
  }

  /** A bare "---" is kept as "  | ". */
  lemma BareMarker(m: string)
    ensures DocLine(Marker, m) == Some("  | ")
  {
    assert Trimmed(Marker);
    TrimOfTrimmed(Marker);
    assert Marker[|Marker|..] == "";
  }

  /** "text ---" is kept with the marker removed. */
  lemma TrailingMarker(x: string, m: string)
    requires x != "" && !IsSpace(x[0])
    requires !(Marker <= x + Marker)
    ensures DocLine(x + Marker, m) == Some(x)
  {
    var line := x + Marker;
    assert Trimmed(line);
    TrimOfTrimmed(line);
    assert line[|line| - |Marker|..] == Marker;
    assert line[..|line| - |Marker|] == x;
  }

  // ------------------------------------------------------------ the body

  /** The body the loop writes for lines, given whether the line before them
      was kept: a kept line and its '\n'; the first left-out line after a kept
      one writes a lone '\n', and later ones nothing. */
  function Body(lines: seq<string>, m: string, includeLast: bool): string
    decreases |lines|
  {
    if lines == [] then ""
    else
      var d := DocLine(lines[0], m);
      Written(d, includeLast) + Body(lines[1..], m, d.Some?)
  }

  /** What one line writes, given whether the line before it was kept. */
  function Written(d: Option<string>, includeLast: bool): string {
    if d.Some? then d.value + "\n" else if includeLast then "\n" else ""
  }

  /** A run of left-out lines writes one '\n' after a kept line, else nothing. */
  lemma {:induction false} BodyLeftOut(lines: seq<string>, m: string, includeLast: bool)
    requires forall i :: 0 <= i < |lines| ==> DocLine(lines[i], m).None?
    ensures Body(lines, m, includeLast) == if includeLast && lines != [] then "\n" else ""
    decreases |lines|
  {
    if lines != [] {
      BodyLeftOut(lines[1..], m, false);
      assert DocLine(lines[0], m).None?;
    }
  }

  /** A concatenation is non-blank exactly when one of its parts is. */
  lemma NonBlankConcat(a: string, b: string)
    ensures NonBlank(a + b) <==> NonBlank(a) || NonBlank(b)
  {
    if NonBlank(a) {
      var k :| 0 <= k < |a| && !IsSpace(a[k]);
      assert (a + b)[k] == a[k];
    }
    if NonBlank(b) {
      var k :| 0 <= k < |b| && !IsSpace(b[k]);
      assert (a + b)[|a| + k] == b[k];
    }
    if NonBlank(a + b) {
      var k :| 0 <= k < |a + b| && !IsSpace((a + b)[k]);
      if k < |a| {
        assert a[k] == (a + b)[k];
      } else {
        assert b[k - |a|] == (a + b)[k];
      }
    }
  }

  /** What a line writes is non-blank exactly when the line is kept. */
  lemma WrittenNonBlank(line: string, m: string, includeLast: bool)
    ensures NonBlank(Written(DocLine(line, m), includeLast)) <==> DocLine(line, m).Some?
  {
    var d := DocLine(line, m);
    if d.Some? {
      DocLineNonBlank(line, m);
      NonBlankConcat(d.value, "\n");
    } else {
      assert forall i :: 0 <= i < |Written(d, includeLast)| ==> Written(d, includeLast)[i] == '\n';
    }
  }

  /** The body has text other than whitespace exactly when some line is kept. */
  lemma {:induction false} BodyNonBlank(lines: seq<string>, m: string, includeLast: bool)
    ensures NonBlank(Body(lines, m, includeLast)) <==>
      exists i :: 0 <= i < |lines| && DocLine(lines[i], m).Some?
    decreases |lines|
  {
    if lines != [] {
      var rest := lines[1..];
      var d := DocLine(lines[0], m);
      BodyNonBlank(rest, m, d.Some?);
      WrittenNonBlank(lines[0], m, includeLast);
      NonBlankConcat(Written(d, includeLast), Body(rest, m, d.Some?));
      assert forall i :: 1 <= i < |lines| ==> lines[i] == rest[i - 1];
    }
  }

  /** Trimming whitespace on the right leaves nothing exactly when the text is
      all whitespace. */
  lemma TrimRightEmpty(s: string)
    ensures TrimRight(s) == "" <==> !NonBlank(s)
  {
    TrimRightShape(s);
    var r := TrimRight(s);
    if r != "" {
      assert s[|r| - 1] == r[|r| - 1];
    }
  }

  /** The header put before the body. */
  function Header(m: string): string {
    "--------------------[ module: " + m + "]--------------------\n\n"
  }

  /** The body of the lines from i on starts with what line i writes, after
      whatever the buffer already holds. */
  lemma BodyStep(lines: seq<string>, i: nat, m: string, includeLast: bool, buf: string)
    requires i < |lines|
    ensures var d := DocLine(lines[i], m);
      buf + Body(lines[i..], m, includeLast) == (buf + Written(d, includeLast)) + Body(lines[i + 1..], m, d.Some?)
  {
    assert lines[i..][1..] == lines[i + 1..];
  }

  /** One turn of the loop of extractDocumentation: a kept line is written
      with its '\n'; a left-out line right after a kept one writes a '\n'. */
  method WriteLine(buf: string, d: Option<string>, includeLast: bool) returns (out: string)
    ensures out == buf + Written(d, includeLast)
  {
    out := buf;
    if d.Some? {
      out := out + d.value + "\n";
    } else if includeLast {
      out := out + "\n";
    }
  }

  /** The loop of extractDocumentation: the buffer it fills from the lines. */
  method WriteBody(lines: seq<string>, m: string) returns (buf: string)
    ensures buf == Body(lines, m, false)
  {
    buf := "";
    var includeLast := false;
    var i := 0;
    assert lines[0..] == lines;
    while i < |lines|
      invariant 0 <= i <= |lines|
      invariant buf + Body(lines[i..], m, includeLast) == Body(lines, m, false)
    {
      var d := DocLine(lines[i], m);
      BodyStep(lines, i, m, includeLast, buf);
      buf := WriteLine(buf, d, includeLast);
      includeLast := d.Some?;
      i := i + 1;
    }
    assert lines[i..] == [];
    assert buf + "" == buf;
  }

  /** extractDocumentation: contents is what reading filename gave. The body
      is right-trimmed; the flag says whether any of it is left. */
  method ExtractDocumentation(filename: string, contents: Result<string>) returns (r: Result<(string, bool)>)
    ensures contents.Err? ==> r == Err(contents.msg)
    ensures contents.Ok? ==>
      var m := ModuleName(filename);
      var result := TrimRight(Body(Lines(contents.value), m, false) + "\n");
      r == Ok((Header(m) + result, result != ""))
  {
    if contents.Err? {
      return Err(contents.msg);
    }
    var moduleName := ModuleName(filename);
    var lines := GetLines(contents.value);
    var buf := WriteBody(lines, moduleName);
    buf := buf + "\n";
    var result := TrimRight(buf);
    return Ok((Header(moduleName) + result, result != ""));
  }

  /** The flag is true exactly when some line of the file is kept. */
  lemma DocumentedIff(text: string, m: string)
    ensures TrimRight(Body(Lines(text), m, false) + "\n") != "" <==>
      exists i :: 0 <= i < |Lines(text)| && DocLine(Lines(text)[i], m).Some?
  {
    var b := Body(Lines(text), m, false);
    BodyNonBlank(Lines(text), m, false);
    TrimRightEmpty(b + "\n");
    if NonBlank(b) {
      var k :| 0 <= k < |b| && !IsSpace(b[k]);
      assert (b + "\n")[k] == b[k];
    }
    if NonBlank(b + "\n") {
      var k :| 0 <= k < |b + "\n"| && !IsSpace((b + "\n")[k]);
      assert k < |b|;
    }
  }
}
