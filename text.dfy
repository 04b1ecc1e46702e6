/** The string library calls the core relies on (strings.TrimSpace, strings.Index,
    strings.Split, strings.Join, strings.ReplaceAll, sort.Strings), written out on
    `string` = seq<char>. Whitespace is ASCII whitespace, and strings compare by
    character code, which for the ASCII names used here is Go's byte order. */
module Text {

  /** unicode.IsSpace on the ASCII range. */
  predicate IsSpace(c: char) {
    c == ' ' || c == '\t' || c == '\n' || c == '\r' || c == '\U{0B}' || c == '\U{0C}'
  }

  function TrimLeft(s: string): (r: string)
    ensures |r| <= |s|
  {
    if s != [] && IsSpace(s[0]) then TrimLeft(s[1..]) else s
  }

  /** strings.TrimRightFunc(s, unicode.IsSpace). */
  function TrimRight(s: string): (r: string)
    ensures |r| <= |s|
  {
    if s != [] && IsSpace(s[|s| - 1]) then TrimRight(s[..|s| - 1]) else s
  }

  /** strings.TrimSpace. */
  function Trim(s: string): string {
    TrimRight(TrimLeft(s))
  }

  /** A string with no whitespace at either end. */
  predicate Trimmed(t: string) {
    t == [] || (!IsSpace(t[0]) && !IsSpace(t[|t| - 1]))
  }

  /** TrimLeft drops a whitespace prefix. */
  lemma {:induction false} TrimLeftShape(s: string)
    ensures var r := TrimLeft(s);
      r == s[|s| - |r|..] && (r == [] || !IsSpace(r[0]))
  {
    if s != [] && IsSpace(s[0]) {
      TrimLeftShape(s[1..]);
      assert s[1..][|s| - 1 - |TrimLeft(s)|..] == s[|s| - |TrimLeft(s)|..];
    }
  }

  /** TrimRight drops a whitespace suffix, and nothing else. */
  lemma TrimRightShape(s: string)
    ensures var r := TrimRight(s);
      r == s[..|r|] && (r == [] || !IsSpace(r[|r| - 1])) &&
      forall i :: |r| <= i < |s| ==> IsSpace(s[i])
  {
    if s != [] && IsSpace(s[|s| - 1]) {
      TrimRightShape(s[..|s| - 1]);
    }
  }

  /** Trimming leaves no whitespace at the ends and introduces no character. */
  lemma TrimShape(s: string, c: char)
    ensures Trimmed(Trim(s))
    ensures c !in s ==> c !in Trim(s)
  {
    TrimEnds(s);
    if c !in s {
      TrimNotIn(s, c);
    }
  }

  lemma TrimEnds(s: string)
    ensures Trimmed(Trim(s))
  {
    var l := TrimLeft(s);
    TrimLeftShape(s);
    TrimRightShape(l);
    var r := TrimRight(l);
    if r != [] {
      assert r[0] == l[0];
    }
  }

  lemma TrimNotIn(s: string, c: char)
    requires c !in s
    ensures c !in Trim(s)
  {
    var l := TrimLeft(s);
    TrimLeftShape(s);
    TrimRightShape(l);
    var r := TrimRight(l);
    forall i | 0 <= i < |r| ensures r[i] != c {
      assert r[i] == l[i];
      assert l[i] == s[|s| - |l| + i];
    }
  }

  /** Whitespace padding around a non-empty trimmed string is all that Trim removes. */
  lemma TrimPadded(l: string, a: string, r: string)
    requires forall i :: 0 <= i < |l| ==> IsSpace(l[i])
    requires forall i :: 0 <= i < |r| ==> IsSpace(r[i])
    requires a != [] && Trimmed(a)
    ensures Trim(l + a + r) == a
  {
    assert l + a + r == l + (a + r);
    assert (a + r)[0] == a[0];
    TrimLeftSpaces(l, a + r);
    TrimRightSpaces(a, r);
  }

  lemma {:induction false} TrimLeftSpaces(l: string, t: string)
    requires forall i :: 0 <= i < |l| ==> IsSpace(l[i])
    requires t != [] && !IsSpace(t[0])
    ensures TrimLeft(l + t) == t
  {
    if l == [] {
      assert l + t == t;
    } else {
      assert (l + t)[1..] == l[1..] + t;
      TrimLeftSpaces(l[1..], t);
    }
  }

  lemma {:induction false} TrimRightSpaces(t: string, r: string)
    requires forall i :: 0 <= i < |r| ==> IsSpace(r[i])
    requires t != [] && !IsSpace(t[|t| - 1])
    ensures TrimRight(t + r) == t
  {
    if r == [] {
      assert t + r == t;
    } else {
      var n := |r| - 1;
      assert (t + r)[..|t + r| - 1] == t + r[..n];
      TrimRightSpaces(t, r[..n]);
    }
  }

  lemma TrimOfTrimmed(t: string)
    requires Trimmed(t)
    ensures Trim(t) == t
  {
  }

  /** strings.Index(s, string(c)): the first position of c, or -1. */
  function Index(s: string, c: char): (r: int)
    ensures -1 <= r < |s|
    ensures r >= 0 ==> s[r] == c && c !in s[..r]
    ensures r == -1 <==> c !in s
  {
    if s == [] then -1
    else if s[0] == c then 0
    else
      var k := Index(s[1..], c);
      if k < 0 then -1
      else
        assert s[..k + 1] == [s[0]] + s[1..][..k];
        k + 1
  }

  /** strings.Split(s, string(c)): always at least one piece, none containing c. */
  function Split(s: string, c: char): (r: seq<string>)
    ensures |r| >= 1
    ensures forall i :: 0 <= i < |r| ==> c !in r[i]
  {
    if s == [] then [""]
    else
      var r := Split(s[1..], c);
      if s[0] == c then [""] + r else [[s[0]] + r[0]] + r[1..]
  }

  /** Splitting introduces no character. */
  lemma {:induction false} SplitNotIn(s: string, c: char, d: char)
    requires d !in s
    ensures forall p :: p in Split(s, c) ==> d !in p
  {
    if s != [] {
      var t := s[1..];
      assert forall x :: x in t ==> x in s;
      SplitNotIn(t, c, d);
      var r := Split(t, c);
      assert r[0] in r;
      assert d !in [s[0]] + r[0];
      assert forall p :: p in r[1..] ==> p in r;
    }
  }

  /** A string without the separator is one piece. */
  lemma {:induction false} SplitNone(s: string, c: char)
    requires c !in s
    ensures Split(s, c) == [s]
  {
    if s != [] {
      SplitNone(s[1..], c);
      assert s == [s[0]] + s[1..];
    }
  }

  /** strings.Join(parts, sep). */
  function Join(parts: seq<string>, sep: string): string {
    if parts == [] then ""
    else if |parts| == 1 then parts[0]
    else parts[0] + sep + Join(parts[1..], sep)
  }

  lemma JoinNotIn(parts: seq<string>, sep: string, c: char)
    requires c !in sep
    requires forall i :: 0 <= i < |parts| ==> c !in parts[i]
    ensures c !in Join(parts, sep)
  {
    if |parts| > 1 {
      JoinNotIn(parts[1..], sep, c);
    }
  }

  /** Splitting a join at its one-character separator gives the parts back. */
  lemma {:induction false} SplitJoin(parts: seq<string>, c: char)
    requires |parts| >= 1
    requires forall i :: 0 <= i < |parts| ==> c !in parts[i]
    ensures Split(Join(parts, [c]), c) == parts
  {
    SplitNone(parts[0], c);
    if |parts| > 1 {
      var rest := Join(parts[1..], [c]);
      SplitJoin(parts[1..], c);
      SplitConcat(parts[0], rest, c);
      assert parts == [parts[0]] + parts[1..];
    }
  }

  /** Splitting at a separator placed between a and b splits a and b apart. */
  lemma {:induction false} SplitConcat(a: string, b: string, c: char)
    ensures Split(a + [c] + b, c) == Split(a, c) + Split(b, c)
  {
    var s := a + [c] + b;
    if a == [] {
      assert s[0] == c && s[1..] == b;
      assert Split(a, c) == [""];
    } else {
      assert s[0] == a[0] && s[1..] == a[1..] + [c] + b;
      SplitConcat(a[1..], b, c);
      var x := Split(a[1..], c);
      var y := Split(b, c);
      assert Split(s[1..], c) == x + y;
      if a[0] == c {
        assert Split(s, c) == [""] + (x + y);
        assert Split(a, c) == [""] + x;
      } else {
        PushFront(a[0], x, y);
      }
    }
  }

  /** A character put in front of the first piece of x + y. */
  lemma PushFront(ch: char, x: seq<string>, y: seq<string>)
    requires |x| >= 1
    ensures [[ch] + (x + y)[0]] + (x + y)[1..] == ([[ch] + x[0]] + x[1..]) + y
  {
    assert (x + y)[0] == x[0] && (x + y)[1..] == x[1..] + y;
  }

  /** Split cuts at the first separator, or keeps s whole when there is none. */
  lemma {:induction false} SplitIndex(s: string, c: char)
    ensures var i := Index(s, c);
      Split(s, c) == if i < 0 then [s] else [s[..i]] + Split(s[i + 1..], c)
  {
    if s != [] && s[0] != c {
      var t := s[1..];
      SplitIndex(t, c);
      var k := Index(t, c);
      if k < 0 {
        assert s == [s[0]] + t;
      } else {
        assert Index(s, c) == k + 1;
        assert s[..k + 1] == [s[0]] + t[..k];
        assert s[k + 2..] == t[k + 1..];
      }
    }
  }

  /** Index is the first occurrence. */
  lemma IndexFirst(s: string, c: char, i: nat)
    requires i < |s| && s[i] == c && c !in s[..i]
    ensures Index(s, c) == i
  {
    var k := Index(s, c);
    assert s[i] == c;
  }

  lemma IndexOfPrefix(a: string, rest: string, c: char)
    requires c !in a
    ensures Index(a + [c] + rest, c) == |a|
  {
    if a != [] {
      assert (a + [c] + rest)[1..] == a[1..] + [c] + rest;
      IndexOfPrefix(a[1..], rest, c);
    }
  }

  /** strings.ReplaceAll(s, string(a), string(b)). */
  function ReplaceChar(s: string, a: char, b: char): (r: string)
    ensures |r| == |s|
    ensures forall i :: 0 <= i < |s| ==> r[i] == (if s[i] == a then b else s[i])
  {
    if s == [] then [] else [if s[0] == a then b else s[0]] + ReplaceChar(s[1..], a, b)
  }

  /** strings.Replace(s, string(c), with, -1). */
  function ReplaceWith(s: string, c: char, with: string): string {
    if s == [] then [] else (if s[0] == c then with else [s[0]]) + ReplaceWith(s[1..], c, with)
  }

  /** strings.HasSuffix. */
  predicate HasSuffix(s: string, x: string) {
    |x| <= |s| && s[|s| - |x|..] == x
  }

  /** strings.TrimPrefix: drops p once when s starts with it. */
  function TrimPrefix(s: string, p: string): (r: string)
    ensures p <= s ==> s == p + r
    ensures !(p <= s) ==> r == s
  {
    if p <= s then s[|p|..] else s
  }

  /** strings.TrimSuffix: drops x once when s ends with it. */
  function TrimSuffix(s: string, x: string): (r: string)
    ensures HasSuffix(s, x) ==> s == r + x
    ensures !HasSuffix(s, x) ==> r == s
  {
    if HasSuffix(s, x) then s[..|s| - |x|] else s
  }

  // ---------------------------------------------------------------- ordering

  /** Go's string comparison: lexicographic by character. */
  predicate Less(a: string, b: string) {
    if a == [] then b != []
    else if b == [] then false
    else a[0] < b[0] || (a[0] == b[0] && Less(a[1..], b[1..]))
  }

  lemma LessIrreflexive(a: string)
    ensures !Less(a, a)
  {
    if a != [] {
      LessIrreflexive(a[1..]);
    }
  }

  lemma LessTransitive(a: string, b: string, c: string)
    requires Less(a, b) && Less(b, c)
    ensures Less(a, c)
  {
    if a != [] && b != [] && c != [] && a[0] == b[0] == c[0] {
      LessTransitive(a[1..], b[1..], c[1..]);
    }
  }

  lemma LessTotal(a: string, b: string)
    requires a != b
    ensures Less(a, b) || Less(b, a)
  {
    if a != [] && b != [] && a[0] == b[0] {
      assert a == [a[0]] + a[1..] && b == [b[0]] + b[1..];
      LessTotal(a[1..], b[1..]);
    }
  }

  lemma LessAsymmetric(a: string, b: string)
    requires Less(a, b)
    ensures !Less(b, a)
  {
    if Less(b, a) {
      LessTransitive(a, b, a);
      LessIrreflexive(a);
    }
  }

  function Elems<T>(s: seq<T>): set<T> {
    set x | x in s
  }

  /** Strictly ascending, hence free of duplicates. */
  predicate Sorted(s: seq<string>) {
    forall i, j :: 0 <= i < j < |s| ==> Less(s[i], s[j])
  }

  /** Inserts x into its place in an ascending sequence. */
  function Insert(x: string, s: seq<string>): (r: seq<string>)
    requires Sorted(s) && x !in s
    ensures Sorted(r) && Elems(r) == Elems(s) + {x} && |r| == |s| + 1
  {
    if s == [] then [x]
    else if Less(x, s[0]) then
      assert forall j :: 0 <= j < |s| ==> Less(x, s[j]) by {
        forall j | 0 < j < |s| ensures Less(x, s[j]) { LessTransitive(x, s[0], s[j]); }
      }
      [x] + s
    else
      LessTotal(x, s[0]);
      var t := Insert(x, s[1..]);
      assert Elems(t) == Elems(s[1..]) + {x};
      forall z | z in t ensures Less(s[0], z) {
        if z != x {
          assert z in Elems(s[1..]);
          var k :| 0 <= k < |s[1..]| && s[1..][k] == z;
          assert Less(s[0], s[k + 1]);
        }
      }
      assert Elems(s) == {s[0]} + Elems(s[1..]);
      [s[0]] + t
  }

  /** The keys of a set in ascending order, as sort.Strings leaves them. */
  ghost function SortedSeq(S: set<string>): (r: seq<string>)
    ensures Sorted(r) && Elems(r) == S && |r| == |S|
  {
    if S == {} then []
    else
      var x :| x in S;
      Insert(x, SortedSeq(S - {x}))
  }

  /** An ascending sequence is determined by its elements. */
  lemma {:induction false} SortedUnique(a: seq<string>, b: seq<string>)
    requires Sorted(a) && Sorted(b) && Elems(a) == Elems(b)
    ensures a == b
  {
    ElemsEmpty(a);
    ElemsEmpty(b);
    if a != [] {
      assert a[0] == b[0] by {
        assert a[0] in Elems(b);
        assert b[0] in Elems(a);
        var i :| 0 <= i < |b| && b[i] == a[0];
        var j :| 0 <= j < |a| && a[j] == b[0];
        if i > 0 && j > 0 {
          LessAsymmetric(a[0], a[j]);
        } else if i > 0 {
          LessIrreflexive(b[0]);
        } else if j > 0 {
          LessIrreflexive(a[0]);
        }
      }
      forall z | z in a[1..] ensures z != a[0] {
        var k :| 0 <= k < |a[1..]| && a[1..][k] == z;
        assert Less(a[0], a[k + 1]);
        LessIrreflexive(a[0]);
      }
      forall z | z in b[1..] ensures z != b[0] {
        var k :| 0 <= k < |b[1..]| && b[1..][k] == z;
        assert Less(b[0], b[k + 1]);
        LessIrreflexive(b[0]);
      }
      assert Elems(a) == {a[0]} + Elems(a[1..]);
      assert Elems(b) == {b[0]} + Elems(b[1..]);
      assert Elems(a[1..]) == Elems(a) - {a[0]};
      assert Elems(b[1..]) == Elems(b) - {b[0]};
      SortedUnique(a[1..], b[1..]);
      assert a == [a[0]] + a[1..] && b == [b[0]] + b[1..];
    }
  }

  lemma ElemsEmpty(s: seq<string>)
    ensures Elems(s) == {} <==> s == []
  {
    if s != [] {
      assert s[0] in Elems(s);
    }
  }

  /** A sequence of distinct strings. */
  predicate Distinct<T(==)>(s: seq<T>) {
    forall i, j :: 0 <= i < j < |s| ==> s[i] != s[j]
  }

  lemma Snoc<T>(s: seq<T>, x: T)
    ensures Elems(s + [x]) == Elems(s) + {x}
    ensures Distinct(s) && x !in s ==> Distinct(s + [x])
  {
    assert forall i :: 0 <= i < |s| ==> (s + [x])[i] == s[i];
  }

  lemma Cons<T>(x: T, s: seq<T>)
    ensures Elems([x] + s) == {x} + Elems(s)
    ensures Distinct(s) && x !in s ==> Distinct([x] + s)
  {
    assert forall i :: 0 <= i < |s| ==> ([x] + s)[i + 1] == s[i];
  }

  /** Iterating over a set of keys (a Go map or a Lua table) in whatever order
      the runtime yields them: every key exactly once. */
  method Enumerate<T>(S: set<T>) returns (r: seq<T>)
    ensures Elems(r) == S && Distinct(r)
  {
    r := [];
    var left := S;
    while left != {}
      invariant left <= S
      invariant Elems(r) + left == S && Elems(r) !! left
      invariant Distinct(r)
      decreases |left|
    {
      var k :| k in left;
      assert k !in Elems(r);
      Snoc(r, k);
      r := r + [k];
      left := left - {k};
    }
  }
}
