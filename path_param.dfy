/** The path-parameter codec of 4_path_param.go: dynamic page names carry their
    parameters in a bracket group, `/post[x=1,y=2].html`. The Go code finds the
    group with the regular expression `\[.*?\]` (where `.` does not match a
    newline), so the group is the leftmost '[' whose first following ']' comes
    before any newline. */
module PathParam {
  import opened Wrappers
  import opened Text

  type Params = map<string, string>

  /** One match of `\[.*?\]`: s[start..stop], from the '[' to the ']' included. */
  datatype Group = Group(start: nat, stop: nat)

  // ------------------------------------------------------------- the regex

  /** The index in t of the ']' that ends a lazy `.*?\]`, when one comes before a newline. */
  function CloseAt(t: string): (r: Option<nat>)
    ensures r.Some? ==> r.value < |t| && t[r.value] == ']' && ']' !in t[..r.value] && '\n' !in t[..r.value]
    ensures r.None? ==> forall j :: 0 <= j < |t| && t[j] == ']' ==> '\n' in t[..j]
  {
    if t == [] then None
    else if t[0] == ']' then Some(0)
    else if t[0] == '\n' then
      assert forall j :: 0 < j < |t| ==> t[0] in t[..j];
      None
    else
      match CloseAt(t[1..])
      case None =>
        assert forall j :: 1 <= j < |t| ==> t[1..][..j - 1] == t[1..j];
        None
      case Some(k) =>
        assert t[..k + 1] == [t[0]] + t[1..][..k];
        Some(k + 1)
  }

  /** `\[.*?\]` can match starting at position i. */
  predicate OpensAt(s: string, i: nat)
    requires i < |s|
  {
    s[i] == '[' && CloseAt(s[i + 1..]).Some?
  }

  /** g spans a `[`, then text with no ']' and no newline, then a `]`. */
  predicate IsGroup(s: string, g: Group) {
    g.start + 2 <= g.stop <= |s| && s[g.start] == '[' && s[g.stop - 1] == ']' &&
    ']' !in s[g.start + 1..g.stop - 1] && '\n' !in s[g.start + 1..g.stop - 1]
  }

  /** re.FindString(s) for `\[.*?\]`: the leftmost group, if any (FindGroupLeftmost). */
  function FindGroup(s: string): (r: Option<Group>)
    ensures r.Some? ==> IsGroup(s, r.value)
  {
    if s == [] then None
    else
      var c := CloseAt(s[1..]);
      if s[0] == '[' && c.Some? then
        GroupAtStart(s, c.value);
        Some(Group(0, c.value + 2))
      else
        match FindGroup(s[1..])
        case None => None
        case Some(g) =>
          GroupShift(s, g);
          Some(Group(g.start + 1, g.stop + 1))
  }

  lemma GroupAtStart(s: string, k: nat)
    requires s != [] && s[0] == '[' && CloseAt(s[1..]) == Some(k)
    ensures IsGroup(s, Group(0, k + 2))
  {
    assert s[1..][..k] == s[1..k + 1];
  }

  lemma GroupShift(s: string, g: Group)
    requires s != [] && IsGroup(s[1..], g)
    ensures IsGroup(s, Group(g.start + 1, g.stop + 1))
  {
    assert s[1..][g.start + 1..g.stop - 1] == s[g.start + 2..g.stop];
  }

  lemma OpensShift(s: string, i: int)
    requires 1 <= i < |s|
    ensures OpensAt(s[1..], i - 1) <==> OpensAt(s, i)
  {
    assert s[1..][i..] == s[i + 1..];
  }

  /** The group found is the leftmost place the pattern can match, and there is
      none when no place can. */
  lemma {:induction false} FindGroupLeftmost(s: string)
    ensures FindGroup(s).Some? ==>
      OpensAt(s, FindGroup(s).value.start) &&
      forall i :: 0 <= i < FindGroup(s).value.start ==> !OpensAt(s, i)
    ensures FindGroup(s).None? ==> forall i :: 0 <= i < |s| ==> !OpensAt(s, i)
  {
    if s != [] && !OpensAt(s, 0) {
      var r := FindGroup(s[1..]);
      FindGroupLeftmost(s[1..]);
      FindGroupNext(s);
      forall i | 1 <= i < |s| ensures OpensAt(s[1..], i - 1) <==> OpensAt(s, i) {
        OpensShift(s, i);
      }
    }
  }

  /** Where no group opens at 0, the search goes on from position 1. */
  lemma FindGroupNext(s: string)
    requires s != [] && !OpensAt(s, 0)
    ensures FindGroup(s[1..]).None? ==> FindGroup(s).None?
    ensures FindGroup(s[1..]).Some? ==>
      FindGroup(s) == Some(Group(FindGroup(s[1..]).value.start + 1, FindGroup(s[1..]).value.stop + 1))
  {
    var c := CloseAt(s[1..]);
    assert !(s[0] == '[' && c.Some?);
    match FindGroup(s[1..])
    case None =>
    case Some(g) =>
  }

  /** The text between the brackets of a group. */
  function Inner(s: string, g: Group): string
    requires g.start + 2 <= g.stop <= |s|
  {
    s[g.start + 1..g.stop - 1]
  }

  /** re.ReplaceAllString(s, ""): every group removed, scanning left to right. */
  function Strip(s: string): (r: string)
    ensures |r| <= |s|
    decreases |s|
  {
    match FindGroup(s)
    case None => s
    case Some(g) => s[..g.start] + Strip(s[g.stop..])
  }

  // ------------------------------------------------------------ parsing

  /** The map the parse loop builds from the comma-separated entries, in order:
      an entry is split at its first '=', key and value are trimmed, an entry
      without '=' is skipped and a later key overwrites an earlier one. */
  function ParseEntries(es: seq<string>): Params {
    if es == [] then map[] else ApplyEntry(ParseEntries(es[..|es| - 1]), es[|es| - 1])
  }

  /** One step of the parse loop. */
  function ApplyEntry(m: Params, e: string): Params {
    var i := Index(e, '=');
    if i < 0 then m else m[Trim(e[..i]) := Trim(e[i + 1..])]
  }

  /** getPathParams(filename) as a value. */
  function ParamsOf(s: string): Params {
    match FindGroup(s)
    case None => map[]
    case Some(g) => ParseEntries(Split(Inner(s, g), ','))
  }

  /** The loop shared by getPathParams, extractPathParams and SetPathParams. */
  method ParseEntryList(entries: seq<string>) returns (result: Params)
    ensures result == ParseEntries(entries)
  {
    result := map[];
    var n := 0;
    while n < |entries|
      invariant 0 <= n <= |entries|
      invariant result == ParseEntries(entries[..n])
    {
      var s := entries[n];
      assert entries[..n + 1][..n] == entries[..n];
      assert ParseEntries(entries[..n + 1]) == ApplyEntry(result, s);
      var i := Index(s, '=');
      assert i < |s|;
      if i >= 0 {
        var key := Trim(s[..i]);
        var value := Trim(s[i + 1..]);
        result := result[key := value];
      }
      n := n + 1;
    }
    assert entries[..n] == entries;
  }

  /** getPathParams: the parameters of the first group; none without a group. */
  method GetPathParams(filename: string) returns (result: Params)
    ensures result == ParamsOf(filename)
    ensures FindGroup(filename).None? ==> result == map[]
  {
    var matched := FindGroup(filename);
    if matched.None? {
      return map[];
    }
    result := ParseEntryList(Split(Inner(filename, matched.value), ','));
  }

  /** extractPathParams: the parameters, and the name with every group removed
      (the name itself when it has no group). */
  method ExtractPathParams(filename: string) returns (result: Params, name: string)
    ensures result == ParamsOf(filename)
    ensures name == Strip(filename)
    ensures FindGroup(filename).None? ==> name == filename
  {
    var matched := FindGroup(filename);
    if matched.None? {
      return map[], filename;
    }
    result := ParseEntryList(Split(Inner(filename, matched.value), ','));
    name := Strip(filename);
  }

  // -------------------------------------------------------- serialising

  /** The `k=v` entries for the given keys. */
  function Entries(keys: seq<string>, m: Params): (r: seq<string>)
    requires forall k :: k in keys ==> k in m
    ensures |r| == |keys|
  {
    seq(|keys|, i requires 0 <= i < |keys| => keys[i] + "=" + m[keys[i]])
  }

  /** The position SetPathParams inserts the group at: the first '.', or the end. */
  function DotIndex(s: string): (d: nat)
    ensures d <= |s|
    ensures '.' !in s[..d]
    ensures d < |s| ==> s[d] == '.'
  {
    var i := Index(s, '.');
    if i < 0 then |s| else i
  }

  /** The name with one group holding m's entries in ascending key order,
      inserted before the first '.' (appended when there is none). */
  ghost function Compose(name: string, m: Params): string {
    Place(name, Body(m))
  }

  /** The name with the group `[j]` inserted before its first '.'. */
  function Place(name: string, j: string): string {
    var d := DotIndex(name);
    name[..d] + "[" + j + "]" + name[d..]
  }

  /** The text of the group: the entries in ascending key order, comma-separated. */
  ghost function Body(m: Params): string {
    Join(Entries(SortedSeq(m.Keys), m), ",")
  }

  /** SetPathParams as a value: the input itself for an empty map; otherwise the
      old groups are removed and one group holds the old parameters overridden
      by the new ones. */
  ghost function SetParams(filename: string, params: Params): string {
    if |params| == 0 then filename
    else Compose(Strip(filename), ParamsOf(filename) + params)
  }

  /** sort.Strings on the collected keys. */
  method SortStrings(ks: seq<string>) returns (r: seq<string>)
    requires Distinct(ks)
    ensures Sorted(r) && Elems(r) == Elems(ks)
  {
    r := [];
    for i := 0 to |ks|
      invariant Sorted(r) && Elems(r) == Elems(ks[..i])
    {
      assert ks[i] !in Elems(ks[..i]);
      assert ks[..i + 1] == ks[..i] + [ks[i]];
      r := Insert(ks[i], r);
    }
    assert ks[..|ks|] == ks;
  }

  /** `for k, v := range params { tmp[k] = v }`: the new values override. */
  method MergeParams(tmp: Params, params: Params) returns (merged: Params)
    ensures merged == tmp + params
  {
    merged := tmp;
    var rest := params.Keys;
    while rest != {}
      invariant rest <= params.Keys
      invariant merged == tmp + map k | k in params.Keys - rest :: params[k]
      decreases |rest|
    {
      var k :| k in rest;
      merged := merged[k := params[k]];
      rest := rest - {k};
    }
  }

  /** `for _, k := range keys { buf = append(buf, k+"="+tmp[k]) }`. */
  method EntryList(keys: seq<string>, tmp: Params) returns (buf: seq<string>)
    requires forall k :: k in keys ==> k in tmp
    ensures buf == Entries(keys, tmp)
  {
    buf := [];
    for i := 0 to |keys|
      invariant buf == Entries(keys[..i], tmp)
    {
      buf := buf + [keys[i] + "=" + tmp[keys[i]]];
    }
    assert keys[..|keys|] == keys;
  }

  /** The keys of tmp collected and then sorted: the ascending key sequence. */
  method SortedKeys(tmp: Params) returns (keys: seq<string>)
    ensures keys == SortedSeq(tmp.Keys)
  {
    keys := Enumerate(tmp.Keys);
    keys := SortStrings(keys);
    SortedUnique(keys, SortedSeq(tmp.Keys));
  }

  /** `"[" + strings.Join(buf, ",") + "]"` without the brackets: the group text. */
  method GroupText(tmp: Params) returns (body: string)
    ensures body == Body(tmp)
  {
    var keys := SortedKeys(tmp);
    var buf := EntryList(keys, tmp);
    body := Join(buf, ",");
  }

  /** The tail of SetPathParams: sort the keys, join the entries and insert the
      group before the first '.'. */
  method ComposeName(name: string, tmp: Params) returns (result: string)
    ensures result == Compose(name, tmp)
  {
    var body := GroupText(tmp);
    var paramsStr := "[" + body + "]";
    var dotIndex := Index(name, '.');
    if dotIndex < 0 {
      dotIndex := |name|;
    }
    result := name[0..dotIndex] + paramsStr + name[dotIndex..];
    PlaceAt(name, body, dotIndex);
  }

  lemma PlaceAt(name: string, j: string, d: int)
    requires d == DotIndex(name)
    ensures name[0..d] + ("[" + j + "]") + name[d..] == Place(name, j)
  {
  }

  /** SetPathParams: an empty map leaves the name alone; otherwise every group is
      removed and one group with the merged parameters is put back. */
  method SetPathParams(filename: string, params: Params) returns (result: string)
    ensures result == SetParams(filename, params)
  {
    if |params| == 0 {
      return filename;
    }
    var matched := FindGroup(filename);
    var stripped := Strip(filename);
    var tmp: Params := map[];
    if matched.Some? {
      tmp := ParseEntryList(Split(Inner(filename, matched.value), ','));
    }
    tmp := MergeParams(tmp, params);
    result := ComposeName(stripped, tmp);
  }

  // ----------------------------------------------------------- detecting

  /** hasPathParams: `\[.+?\]` matches somewhere in s, which then holds both
      brackets. */
  predicate HasPathParams(s: string)
    ensures HasPathParams(s) ==> '[' in s && ']' in s
  {
    |s| >= 3 &&
    ((s[0] == '[' && s[1] != '\n' && CloseAt(s[2..]).Some?) || HasPathParams(s[1..]))
  }

  /** A '[' at i and a ']' at j, at least one character apart, with no newline between. */
  predicate Pair(s: string, i: int, j: int) {
    0 <= i && i + 2 <= j < |s| && s[i] == '[' && s[j] == ']' && '\n' !in s[i + 1..j]
  }

  lemma PairShift(s: string, i: int, j: int)
    requires 1 <= i < j < |s|
    ensures Pair(s, i, j) <==> Pair(s[1..], i - 1, j - 1)
  {
    if i + 2 <= j {
      assert s[1..][i..j - 1] == s[i + 1..j];
    }
  }

  /** A pair starting at 0 is what the first disjunct of HasPathParams tests. */
  lemma PairAtStart(s: string)
    requires |s| >= 3
    ensures (s[0] == '[' && s[1] != '\n' && CloseAt(s[2..]).Some?) <==> exists j :: Pair(s, 0, j)
  {
    if s[0] == '[' && s[1] != '\n' && CloseAt(s[2..]).Some? {
      var k := CloseAt(s[2..]).value;
      assert s[1..k + 2] == [s[1]] + s[2..][..k];
      assert Pair(s, 0, k + 2);
    }
    if exists j :: Pair(s, 0, j) {
      var j :| Pair(s, 0, j);
      assert s[1] in s[1..j];
      assert s[2..][j - 2] == ']';
      assert s[2..][..j - 2] == s[2..j];
    }
  }

  /** hasPathParams holds exactly when some '[' is followed, at least one
      character later and with no newline in between, by a ']'. */
  lemma {:induction false} HasPathParamsIff(s: string)
    ensures HasPathParams(s) <==> exists i, j :: Pair(s, i, j)
  {
    if |s| >= 3 {
      HasPathParamsIff(s[1..]);
      PairAtStart(s);
      if exists i, j :: Pair(s[1..], i, j) {
        var i, j :| Pair(s[1..], i, j);
        PairShift(s, i + 1, j + 1);
      }
      if exists i, j :: Pair(s, i, j) {
        var i, j :| Pair(s, i, j);
        if i > 0 {
          PairShift(s, i, j);
        }
      }
    }
  }

  // ------------------------------------------------------------ round trip

  /** A key the parser gives back unchanged from a `k=v` entry. */
  predicate KeyToken(k: string) {
    Trimmed(k) && ',' !in k && '=' !in k && ']' !in k && '\n' !in k
  }

  /** A value the parser gives back unchanged from a `k=v` entry. */
  predicate ValueToken(v: string) {
    Trimmed(v) && ',' !in v && ']' !in v && '\n' !in v
  }

  predicate CleanParams(m: Params) {
    forall k :: k in m ==> KeyToken(k) && ValueToken(m[k])
  }

  /** A name with no '[' holds no group, and Strip leaves it alone. */
  lemma NoOpenNoGroup(s: string)
    requires '[' !in s
    ensures FindGroup(s).None? && Strip(s) == s
  {
  }

  lemma {:induction false} CloseAtEnd(j: string, rest: string)
    requires ']' !in j && '\n' !in j
    ensures CloseAt(j + "]" + rest) == Some(|j|)
  {
    if j != [] {
      assert (j + "]" + rest)[1..] == j[1..] + "]" + rest;
      CloseAtEnd(j[1..], rest);
    }
  }

  /** A group placed after text without '[' is the one found, and its inner
      text is what was placed. */
  lemma GroupAt(a: string, j: string, rest: string)
    requires '[' !in a && ']' !in j && '\n' !in j
    ensures FindGroup(a + "[" + j + "]" + rest) == Some(Group(|a|, |a| + |j| + 2))
    ensures Inner(a + "[" + j + "]" + rest, Group(|a|, |a| + |j| + 2)) == j
  {
    var t := "[" + j + "]" + rest;
    assert a + "[" + j + "]" + rest == a + t;
    GroupFirst(j, rest);
    FindGroupPrefix(a, t);
    InnerAt(a, t, j);
  }

  lemma InnerAt(a: string, t: string, j: string)
    requires |t| >= |j| + 2 && t[1..|j| + 1] == j
    ensures Inner(a + t, Group(|a|, |a| + |j| + 2)) == j
  {
    assert (a + t)[|a| + 1..|a| + |j| + 1] == t[1..|j| + 1];
  }

  /** A group found further on, moved d positions to the right. */
  function Shift(r: Option<Group>, d: nat): Option<Group> {
    match r
    case None => None
    case Some(g) => Some(Group(g.start + d, g.stop + d))
  }

  /** Text without '[' in front only shifts the group found. */
  lemma {:induction false} FindGroupPrefix(a: string, t: string)
    requires '[' !in a
    ensures FindGroup(a + t) == Shift(FindGroup(t), |a|)
  {
    if a == [] {
      assert a + t == t;
    } else {
      var u := a + t;
      var v := a[1..] + t;
      assert u[1..] == v;
      assert !OpensAt(u, 0) by {
        assert u[0] == a[0];
      }
      FindGroupPrefix(a[1..], t);
      FindGroupStep(u);
      ShiftTwice(FindGroup(t), |a| - 1);
      calc {
        FindGroup(u);
        Shift(FindGroup(v), 1);
        Shift(Shift(FindGroup(t), |a| - 1), 1);
        Shift(FindGroup(t), |a|);
      }
    }
  }

  lemma ShiftTwice(r: Option<Group>, d: nat)
    ensures Shift(Shift(r, d), 1) == Shift(r, d + 1)
  {
  }

  /** Where no group opens at 0, the group is the one found from position 1. */
  lemma FindGroupStep(s: string)
    requires s != [] && !OpensAt(s, 0)
    ensures FindGroup(s) == Shift(FindGroup(s[1..]), 1)
  {
    FindGroupNext(s);
  }

  lemma GroupFirst(j: string, rest: string)
    requires ']' !in j && '\n' !in j
    ensures FindGroup("[" + j + "]" + rest) == Some(Group(0, |j| + 2))
    ensures ("[" + j + "]" + rest)[1..|j| + 1] == j
  {
    var c := "[" + j + "]" + rest;
    assert c[1..] == j + "]" + rest;
    assert c[1..|j| + 1] == j;
    CloseAtEnd(j, rest);
  }

  /** One `k=v` entry of a clean key and value binds k to v. */
  lemma ApplyCleanEntry(acc: Params, k: string, v: string)
    requires KeyToken(k) && ValueToken(v)
    ensures ApplyEntry(acc, k + "=" + v) == acc[k := v]
  {
    var e := k + "=" + v;
    assert e == k + ['='] + v;
    IndexOfPrefix(k, v, '=');
    assert e[..|k|] == k && e[|k| + 1..] == v;
    TrimOfTrimmed(k);
    TrimOfTrimmed(v);
  }

  /** m cut down to the keys in S. */
  function Restrict(m: Params, S: set<string>): (r: Params)
    requires S <= m.Keys
    ensures r.Keys == S && forall k :: k in r ==> r[k] == m[k]
  {
    map k | k in S :: m[k]
  }

  lemma RestrictAdd(m: Params, S: set<string>, k: string)
    requires S <= m.Keys && k in m
    ensures Restrict(m, S)[k := m[k]] == Restrict(m, S + {k})
  {
  }

  lemma RestrictAll(m: Params)
    ensures Restrict(m, m.Keys) == m
  {
  }

  lemma EntriesPrefix(ks: seq<string>, m: Params, n: nat)
    requires n <= |ks| && forall k :: k in ks ==> k in m
    ensures Entries(ks, m)[..n] == Entries(ks[..n], m)
  {
  }

  lemma ElemsSnoc(ks: seq<string>)
    requires ks != []
    ensures Elems(ks) == Elems(ks[..|ks| - 1]) + {ks[|ks| - 1]}
  {
    assert ks == ks[..|ks| - 1] + [ks[|ks| - 1]];
  }

  /** Parsing the entries of clean keys gives back their bindings (a repeated
      key binds the same value again). */
  lemma {:induction false} ParseEntriesOf(ks: seq<string>, m: Params)
    requires (forall k :: k in ks ==> k in m) && CleanParams(m)
    ensures Elems(ks) <= m.Keys
    ensures ParseEntries(Entries(ks, m)) == Restrict(m, Elems(ks))
  {
    if ks != [] {
      var n := |ks| - 1;
      var k := ks[n];
      EntriesPrefix(ks, m, n);
      ParseEntriesOf(ks[..n], m);
      ElemsSnoc(ks);
      ApplyCleanEntry(Restrict(m, Elems(ks[..n])), k, m[k]);
      RestrictAdd(m, Elems(ks[..n]), k);
    }
  }

  /** Every entry of a clean map is free of the characters that end a group or an entry. */
  lemma EntriesClean(ks: seq<string>, m: Params)
    requires (forall k :: k in ks ==> k in m) && CleanParams(m)
    ensures forall i :: 0 <= i < |ks| ==>
      ',' !in Entries(ks, m)[i] && ']' !in Entries(ks, m)[i] && '\n' !in Entries(ks, m)[i]
  {
  }

  /** The group text of clean parameters holds no ']' or newline, and parses
      back to those parameters. */
  lemma BodyRoundTrip(m: Params)
    requires |m| > 0 && CleanParams(m)
    ensures ']' !in Body(m) && '\n' !in Body(m)
    ensures ParseEntries(Split(Body(m), ',')) == m
  {
    var ks := SortedSeq(m.Keys);
    var es := Entries(ks, m);
    EntriesClean(ks, m);
    JoinNotIn(es, ",", ']');
    JoinNotIn(es, ",", '\n');
    ElemsEmpty(ks);
    SplitJoin(es, ',');
    ParseEntriesOf(ks, m);
    RestrictAll(m);
  }

  /** Stripping `a[j]rest` removes the group, when a holds no '[' and j no ']' or newline. */
  lemma StripAt(a: string, j: string, rest: string)
    requires '[' !in a && ']' !in j && '\n' !in j
    ensures Strip(a + "[" + j + "]" + rest) == a + Strip(rest)
  {
    var c := a + "[" + j + "]" + rest;
    GroupAt(a, j, rest);
    assert c[..|a|] == a;
    assert c[|a| + |j| + 2..] == rest;
  }

  /** In a name without '[', the inserted group is the one found. */
  lemma PlaceGroup(b: string, j: string)
    requires '[' !in b && ']' !in j && '\n' !in j
    ensures FindGroup(Place(b, j)) == Some(Group(DotIndex(b), DotIndex(b) + |j| + 2))
    ensures Inner(Place(b, j), Group(DotIndex(b), DotIndex(b) + |j| + 2)) == j
  {
    var d := DotIndex(b);
    NoOpenParts(b, d);
    GroupAt(b[..d], j, b[d..]);
  }

  /** Stripping the inserted group gives the name back. */
  lemma PlaceStrip(b: string, j: string)
    requires '[' !in b && ']' !in j && '\n' !in j
    ensures Strip(Place(b, j)) == b
  {
    var d := DotIndex(b);
    NoOpenParts(b, d);
    StripAt(b[..d], j, b[d..]);
    NoOpenNoGroup(b[d..]);
  }

  lemma NoOpenParts(b: string, d: nat)
    requires '[' !in b && d <= |b|
    ensures '[' !in b[..d] && '[' !in b[d..] && b[..d] + b[d..] == b
  {
  }

  /** The parameters read back from a composed name are the ones composed. */
  lemma ComposeParams(b: string, m: Params)
    requires '[' !in b && |m| > 0 && CleanParams(m)
    ensures ParamsOf(Compose(b, m)) == m
  {
    BodyRoundTrip(m);
    PlaceGroup(b, Body(m));
  }

  /** Composing a name without '[' with clean parameters can be undone: the
      group holds exactly those parameters and stripping it gives the name back. */
  lemma ComposeRoundTrip(b: string, m: Params)
    requires '[' !in b && |m| > 0 && CleanParams(m)
    ensures ParamsOf(Compose(b, m)) == m
    ensures Strip(Compose(b, m)) == b
  {
    ComposeParams(b, m);
    BodyRoundTrip(m);
    PlaceStrip(b, Body(m));
  }

  /** What the parser yields is always a clean parameter map. */
  lemma {:induction false} ParseEntriesClean(es: seq<string>)
    requires forall i :: 0 <= i < |es| ==> ',' !in es[i] && ']' !in es[i] && '\n' !in es[i]
    ensures CleanParams(ParseEntries(es))
  {
    if es != [] {
      var n := |es| - 1;
      ParseEntriesClean(es[..n]);
      var e := es[n];
      var i := Index(e, '=');
      if i >= 0 {
        var a, b := e[..i], e[i + 1..];
        assert forall c :: c in a ==> c in e;
        assert forall c :: c in b ==> c in e;
        TrimShape(a, ',');
        TrimShape(a, '=');
        TrimShape(a, ']');
        TrimShape(a, '\n');
        TrimShape(b, ',');
        TrimShape(b, ']');
        TrimShape(b, '\n');
      }
    }
  }

  lemma ParamsOfClean(s: string)
    ensures CleanParams(ParamsOf(s))
  {
    match FindGroup(s)
    case None =>
    case Some(g) =>
      var inner := Inner(s, g);
      SplitNotIn(inner, ',', ']');
      SplitNotIn(inner, ',', '\n');
      ParseEntriesClean(Split(inner, ','));
  }

  /** A name with a non-empty group inserted matches `\[.+?\]`. */
  lemma PlaceHasParams(b: string, j: string)
    requires '[' !in b && ']' !in j && '\n' !in j && j != []
    ensures HasPathParams(Place(b, j))
  {
    var c := Place(b, j);
    var d := DotIndex(b);
    assert c[d] == '[' && c[d + |j| + 1] == ']';
    assert c[d + 1..d + |j| + 1] == j;
    assert Pair(c, d, d + |j| + 1);
    HasPathParamsIff(c);
  }

  /** The group text of a non-empty map is not empty. */
  lemma BodyNonEmpty(m: Params)
    requires |m| > 0
    ensures Body(m) != []
  {
    var ks := SortedSeq(m.Keys);
    ElemsEmpty(ks);
    var es := Entries(ks, m);
    assert es[0] == ks[0] + "=" + m[ks[0]];
    if |es| > 1 {
      assert Body(m) == es[0] + "," + Join(es[1..], ",");
    }
  }

  /** The composed name matches `\[.+?\]`. */
  lemma ComposeHasParams(b: string, m: Params)
    requires '[' !in b && |m| > 0 && CleanParams(m)
    ensures HasPathParams(Compose(b, m))
  {
    BodyRoundTrip(m);
    BodyNonEmpty(m);
    PlaceHasParams(b, Body(m));
    assert Compose(b, m) == Place(b, Body(m));
  }

  /** Clean parameters merged over what a name already holds are clean. */
  lemma MergedClean(x: string, p: Params)
    requires |p| > 0 && CleanParams(p)
    ensures |ParamsOf(x) + p| > 0 && CleanParams(ParamsOf(x) + p)
  {
    ParamsOfClean(x);
    var k :| k in p;
    assert k in ParamsOf(x) + p;
  }

  /** SetPathParams keeps the old parameters it is not given, overrides the
      ones it is given and keeps the rest of the name. */
  lemma SetParamsOverride(x: string, p: Params)
    requires |p| > 0 && CleanParams(p) && '[' !in Strip(x)
    ensures ParamsOf(SetParams(x, p)) == ParamsOf(x) + p
    ensures Strip(SetParams(x, p)) == Strip(x)
  {
    MergedClean(x, p);
    ComposeRoundTrip(Strip(x), ParamsOf(x) + p);
  }

  /** hasPathParams holds of what SetPathParams returns for a non-empty map. */
  lemma SetParamsHasParams(x: string, p: Params)
    requires |p| > 0 && CleanParams(p) && '[' !in Strip(x)
    ensures HasPathParams(SetParams(x, p))
  {
    MergedClean(x, p);
    ComposeHasParams(Strip(x), ParamsOf(x) + p);
  }

  /** Setting the same parameters twice is the same as setting them once. */
  lemma SetParamsIdempotent(x: string, p: Params)
    requires |p| > 0 && CleanParams(p) && '[' !in Strip(x)
    ensures SetParams(SetParams(x, p), p) == SetParams(x, p)
  {
    var m := ParamsOf(x) + p;
    SetParamsOverride(x, p);
    var y := SetParams(x, p);
    MergeTwice(ParamsOf(x), p);
    SetParamsFrom(y, p, Strip(x), m);
  }

  lemma MergeTwice(a: Params, p: Params)
    ensures a + p + p == a + p
  {
  }

  /** SetParams is determined by the stripped name and the merged parameters. */
  lemma SetParamsFrom(y: string, p: Params, b: string, m: Params)
    requires |p| > 0 && Strip(y) == b && ParamsOf(y) + p == m
    ensures SetParams(y, p) == Compose(b, m)
  {
  }

  // ------------------------------------------------------------ examples
  // Names from the test suite of getPathParams and SetPathParams, written as
  // the concatenation of the name, its group and its extension.

  lemma SortedOne(a: string)
    ensures SortedSeq({a}) == [a]
  {
    assert Elems([a]) == {a};
    SortedUnique([a], SortedSeq({a}));
  }

  lemma SortedTwo(a: string, b: string)
    requires Less(a, b)
    ensures SortedSeq({a, b}) == [a, b]
  {
    assert Sorted([a, b]) by {
      forall i, j | 0 <= i < j < 2 ensures Less([a, b][i], [a, b][j]) {
        assert i == 0 && j == 1;
      }
    }
    assert Elems([a, b]) == {a, b};
    SortedUnique([a, b], SortedSeq({a, b}));
  }

  lemma ExampleTokens()
    ensures KeyToken("x") && KeyToken("y") && KeyToken("aa") && KeyToken("cc")
    ensures ValueToken("1") && ValueToken("2") && ValueToken("3")
    ensures ValueToken("bb") && ValueToken("dddd")
    ensures Less("x", "y")
  {
  }

  /** The parameters of a name with one group are those its entries parse to. */
  lemma ParamsOfPlaced(a: string, j: string, rest: string)
    requires '[' !in a && ']' !in j && '\n' !in j
    ensures ParamsOf(a + "[" + j + "]" + rest) == ParseEntries(Split(j, ','))
  {
    GroupAt(a, j, rest);
  }

  lemma ParseOne(e: string)
    ensures ParseEntries([e]) == ApplyEntry(map[], e)
  {
    assert [e][..0] == [];
  }

  lemma ParseTwo(e1: string, e2: string)
    ensures ParseEntries([e1, e2]) == ApplyEntry(ApplyEntry(map[], e1), e2)
  {
    assert [e1, e2][..1] == [e1];
    ParseOne(e1);
  }

  lemma EntriesOne(k: string, v: string)
    requires KeyToken(k) && ValueToken(v)
    ensures ParseEntries(Split(k + "=" + v, ',')) == map[k := v]
  {
    var e := k + "=" + v;
    assert Join([e], [',']) == e;
    SplitJoin([e], ',');
    ParseOne(e);
    ApplyCleanEntry(map[], k, v);
  }

  lemma EntriesTwo(k1: string, v1: string, k2: string, v2: string)
    requires KeyToken(k1) && ValueToken(v1) && KeyToken(k2) && ValueToken(v2)
    ensures ParseEntries(Split((k1 + "=" + v1) + "," + (k2 + "=" + v2), ',')) == map[k1 := v1, k2 := v2]
  {
    var e1, e2 := k1 + "=" + v1, k2 + "=" + v2;
    assert e1 + "," + e2 == Join([e1, e2], [',']);
    SplitJoin([e1, e2], ',');
    ParseTwo(e1, e2);
    ApplyCleanEntry(map[], k1, v1);
    ApplyCleanEntry(map[k1 := v1], k2, v2);
  }

  /** A group of one clean entry holds that one parameter. */
  lemma ParamsOfOneEntry(a: string, k: string, v: string, rest: string)
    requires '[' !in a && KeyToken(k) && ValueToken(v)
    ensures ParamsOf(a + "[" + (k + "=" + v) + "]" + rest) == map[k := v]
  {
    ParamsOfPlaced(a, k + "=" + v, rest);
    EntriesOne(k, v);
  }

  /** A group of two clean entries holds those two parameters. */
  lemma ParamsOfTwoEntries(a: string, k1: string, v1: string, k2: string, v2: string, rest: string)
    requires '[' !in a && KeyToken(k1) && ValueToken(v1) && KeyToken(k2) && ValueToken(v2)
    ensures ParamsOf(a + "[" + ((k1 + "=" + v1) + "," + (k2 + "=" + v2)) + "]" + rest) == map[k1 := v1, k2 := v2]
  {
    ParamsOfPlaced(a, (k1 + "=" + v1) + "," + (k2 + "=" + v2), rest);
    EntriesTwo(k1, v1, k2, v2);
  }

  lemma ParamsOfOne()
    ensures ParamsOf("/test[x=1].html") == map["x" := "1"]
  {
    ExampleTokens();
    assert "/test[x=1].html" == "/test" + "[" + ("x" + "=" + "1") + "]" + ".html";
    ParamsOfOneEntry("/test", "x", "1", ".html");
  }

  lemma ParamsOfTwo()
    ensures ParamsOf("/test[aa=bb,cc=dddd].html") == map["aa" := "bb", "cc" := "dddd"]
  {
    ExampleTokens();
    assert "/test[aa=bb,cc=dddd].html" == "/test" + "[" + (("aa" + "=" + "bb") + "," + ("cc" + "=" + "dddd")) + "]" + ".html";
    ParamsOfTwoEntries("/test", "aa", "bb", "cc", "dddd", ".html");
  }

  lemma SpacedTokens()
    ensures Trim("key   ") == "key" && Trim(" value ") == "value"
    ensures Trim(" a ") == "a" && Trim(" 123") == "123"
    ensures '=' !in "key   " && '=' !in " a "
  {
    assert "key   " == "" + "key" + "   " && " value " == " " + "value" + " ";
    assert " a " == " " + "a" + " " && " 123" == " " + "123" + "";
    TrimPadded("", "key", "   ");
    TrimPadded(" ", "value", " ");
    TrimPadded(" ", "a", " ");
    TrimPadded(" ", "123", "");
  }

  lemma ApplySpaced(acc: Params, k: string, v: string)
    requires '=' !in k
    ensures ApplyEntry(acc, k + "=" + v) == acc[Trim(k) := Trim(v)]
  {
    var e := k + "=" + v;
    IndexOfPrefix(k, v, '=');
    assert e[..|k|] == k && e[|k| + 1..] == v;
  }

  /** Two entries with '=' only as their separators parse to their trimmed
      keys and values. */
  lemma EntriesTrimmed(k1: string, v1: string, k2: string, v2: string)
    requires '=' !in k1 && '=' !in k2 && ',' !in k1 + v1 && ',' !in k2 + v2
    ensures ParseEntries(Split((k1 + "=" + v1) + "," + (k2 + "=" + v2), ','))
      == map[Trim(k1) := Trim(v1)][Trim(k2) := Trim(v2)]
  {
    var e1, e2 := k1 + "=" + v1, k2 + "=" + v2;
    assert e1 + "," + e2 == Join([e1, e2], [',']);
    assert ',' !in e1 && ',' !in e2;
    SplitJoin([e1, e2], ',');
    ParseTwo(e1, e2);
    ApplySpaced(map[], k1, v1);
    ApplySpaced(map[Trim(k1) := Trim(v1)], k2, v2);
  }

  lemma EntriesSpaced()
    ensures ParseEntries(Split(("key   " + "=" + " value ") + "," + (" a " + "=" + " 123"), ','))
      == map["key" := "value", "a" := "123"]
  {
    SpacedTokens();
    EntriesTrimmed("key   ", " value ", " a ", " 123");
  }

  /** Keys and values are trimmed. */
  lemma ParamsOfSpaced()
    ensures ParamsOf("/test[key   = value , a = 123].html") == map["key" := "value", "a" := "123"]
  {
    var j := "key   = value , a = 123";
    SpacedName();
    SpacedGroup();
    ParamsOfPlaced("/test", j, ".html");
    EntriesSpaced();
  }

  lemma SpacedName()
    ensures "/test[key   = value , a = 123].html" == "/test" + "[" + "key   = value , a = 123" + "]" + ".html"
  {
  }

  lemma SpacedGroup()
    ensures "key   = value , a = 123" == ("key   " + "=" + " value ") + "," + (" a " + "=" + " 123")
    ensures '[' !in "/test" && ']' !in "key   = value , a = 123" && '\n' !in "key   = value , a = 123"
  {
  }

  /** An empty group and no group both give no parameters. */
  lemma ParamsOfEmptyGroup()
    ensures ParamsOf("/test[].html") == map[]
    ensures ParamsOf("/test.html") == map[]
  {
    assert "/test[].html" == "/test" + "[" + "" + "]" + ".html";
    ParamsOfPlaced("/test", "", ".html");
    assert Split("", ',') == [""];
    ParseOne("");
    NoOpenNoGroup("/test.html");
  }

  lemma BodyOne(k: string, v: string)
    ensures Body(map[k := v]) == k + "=" + v
  {
    assert map[k := v].Keys == {k};
    SortedOne(k);
    assert Entries([k], map[k := v]) == [k + "=" + v];
  }

  lemma EntriesPair(k1: string, k2: string, m: Params)
    requires k1 in m && k2 in m
    ensures Entries([k1, k2], m) == [k1 + "=" + m[k1], k2 + "=" + m[k2]]
  {
  }

  lemma BodyTwo(k1: string, v1: string, k2: string, v2: string)
    requires Less(k1, k2)
    ensures Body(map[k1 := v1, k2 := v2]) == (k1 + "=" + v1) + "," + (k2 + "=" + v2)
  {
    var m := map[k1 := v1, k2 := v2];
    LessIrreflexive(k1);
    assert m.Keys == {k1, k2};
    SortedTwo(k1, k2);
    EntriesPair(k1, k2, m);
    var es := [k1 + "=" + v1, k2 + "=" + v2];
    assert Join(es, ",") == es[0] + "," + es[1];
  }

  /** Without a '.', the group goes at the end. */
  lemma PlaceAtEnd(b: string, j: string)
    requires '.' !in b
    ensures Place(b, j) == b + "[" + j + "]" + ""
  {
    assert b[..|b|] == b && b[|b|..] == [];
  }

  /** The group goes just before the first '.'. */
  lemma PlaceBeforeDot(a: string, rest: string, j: string)
    requires '.' !in a && rest != [] && rest[0] == '.'
    ensures Place(a + rest, j) == a + "[" + j + "]" + rest
  {
    assert a + rest == a + ['.'] + rest[1..];
    IndexOfPrefix(a, rest[1..], '.');
    assert (a + rest)[..|a|] == a && (a + rest)[|a|..] == rest;
  }

  /** SetPathParams on a name without any group. */
  lemma SetParamsOfPlain(b: string, p: Params)
    requires '[' !in b && |p| > 0
    ensures SetParams(b, p) == Place(b, Body(p))
  {
    NoOpenNoGroup(b);
    assert map[] + p == p;
  }

  /** SetPathParams on a name with one group. */
  lemma SetParamsOfPlaced(a: string, j: string, rest: string, p: Params)
    requires '[' !in a && ']' !in j && '\n' !in j && '[' !in rest && |p| > 0
    ensures SetParams(a + "[" + j + "]" + rest, p) == Place(a + rest, Body(ParseEntries(Split(j, ',')) + p))
  {
    ParamsOfPlaced(a, j, rest);
    StripAt(a, j, rest);
    NoOpenNoGroup(rest);
  }

  /** The group goes where SetPathParams puts it: before the first '.' of
      rest, which is empty or starts with one. */
  lemma PlaceInto(a: string, rest: string, j: string)
    requires '.' !in a && (rest == [] || rest[0] == '.')
    ensures Place(a + rest, j) == a + "[" + j + "]" + rest
  {
    if rest == [] {
      assert a + rest == a;
      PlaceAtEnd(a, j);
    } else {
      PlaceBeforeDot(a, rest, j);
    }
  }

  /** A name without a group gets one, at its end when it has no '.'. */
  lemma SetParamsNew(b: string, k: string, v: string)
    requires '[' !in b && '.' !in b
    ensures SetParams(b, map[k := v]) == b + "[" + (k + "=" + v) + "]" + ""
  {
    SetParamsOfPlain(b, map[k := v]);
    BodyOne(k, v);
    PlaceAtEnd(b, k + "=" + v);
  }

  lemma OverrideOne(k: string, v1: string, v2: string)
    ensures map[k := v1] + map[k := v2] == map[k := v2]
  {
  }

  lemma OverrideFirst(k1: string, v1: string, k2: string, v2: string, v3: string)
    requires k1 != k2
    ensures map[k1 := v1, k2 := v2] + map[k1 := v3] == map[k1 := v3, k2 := v2]
  {
  }

  /** SetPathParams on a name with one group, once the merged parameters
      and their group text are known. */
  lemma SetParamsPlacedTo(a: string, j: string, rest: string, p: Params, m: Params, out: string)
    requires '[' !in a && '.' !in a && '[' !in rest && (rest == [] || rest[0] == '.')
    requires ']' !in j && '\n' !in j && |p| > 0
    requires ParseEntries(Split(j, ',')) + p == m && Body(m) == out
    ensures SetParams(a + "[" + j + "]" + rest, p) == a + "[" + out + "]" + rest
  {
    SetParamsOfPlaced(a, j, rest, p);
    PlaceInto(a, rest, out);
  }

  /** A one-entry group gets its value replaced. */
  lemma SetParamsReplaceOne(a: string, rest: string, k: string, v1: string, v2: string)
    requires '[' !in a && '.' !in a && '[' !in rest && (rest == [] || rest[0] == '.')
    requires KeyToken(k) && ValueToken(v1) && ValueToken(v2)
    ensures SetParams(a + "[" + (k + "=" + v1) + "]" + rest, map[k := v2]) == a + "[" + (k + "=" + v2) + "]" + rest
  {
    EntriesOne(k, v1);
    OverrideOne(k, v1, v2);
    BodyOne(k, v2);
    SetParamsPlacedTo(a, k + "=" + v1, rest, map[k := v2], map[k := v2], k + "=" + v2);
  }

  /** In a two-entry group, the entry given is replaced and the other kept. */
  lemma SetParamsReplaceFirst(a: string, rest: string, k1: string, v1: string, k2: string, v2: string, v3: string)
    requires '[' !in a && '.' !in a && '[' !in rest && (rest == [] || rest[0] == '.')
    requires KeyToken(k1) && ValueToken(v1) && KeyToken(k2) && ValueToken(v2) && ValueToken(v3)
    requires Less(k1, k2)
    ensures SetParams(a + "[" + ((k1 + "=" + v1) + "," + (k2 + "=" + v2)) + "]" + rest, map[k1 := v3])
      == a + "[" + ((k1 + "=" + v3) + "," + (k2 + "=" + v2)) + "]" + rest
  {
    var j := (k1 + "=" + v1) + "," + (k2 + "=" + v2);
    PairClean(k1, v1, k2, v2);
    MergeFirst(k1, v1, k2, v2, v3);
    BodyTwo(k1, v3, k2, v2);
    SetParamsPlacedTo(a, j, rest, map[k1 := v3], map[k1 := v3, k2 := v2], (k1 + "=" + v3) + "," + (k2 + "=" + v2));
  }

  lemma PairClean(k1: string, v1: string, k2: string, v2: string)
    requires KeyToken(k1) && ValueToken(v1) && KeyToken(k2) && ValueToken(v2)
    ensures ']' !in (k1 + "=" + v1) + "," + (k2 + "=" + v2)
    ensures '\n' !in (k1 + "=" + v1) + "," + (k2 + "=" + v2)
  {
  }

  lemma MergeFirst(k1: string, v1: string, k2: string, v2: string, v3: string)
    requires KeyToken(k1) && ValueToken(v1) && KeyToken(k2) && ValueToken(v2)
    requires Less(k1, k2)
    ensures ParseEntries(Split((k1 + "=" + v1) + "," + (k2 + "=" + v2), ',')) + map[k1 := v3] == map[k1 := v3, k2 := v2]
  {
    EntriesTwo(k1, v1, k2, v2);
    LessIrreflexive(k1);
    OverrideFirst(k1, v1, k2, v2, v3);
  }

  lemma SetParamsAppend()
    ensures SetParams("", map[]) == ""
    ensures SetParams("/test", map[]) == "/test"
    ensures SetParams("/test", map["x" := "2"]) == "/test[x=2]"
  {
    assert "/test[x=2]" == "/test" + "[" + ("x" + "=" + "2") + "]" + "";
    SetParamsNew("/test", "x", "2");
  }

  lemma SetParamsReplaceAtEnd()
    ensures SetParams("/test[x=1]", map["x" := "2"]) == "/test[x=2]"
  {
    ExampleTokens();
    assert "/test[x=1]" == "/test" + "[" + ("x" + "=" + "1") + "]" + "";
    assert "/test[x=2]" == "/test" + "[" + ("x" + "=" + "2") + "]" + "";
    SetParamsReplaceOne("/test", "", "x", "1", "2");
  }

  lemma SetParamsReplace()
    ensures SetParams("/test[x=1].html", map["x" := "2"]) == "/test[x=2].html"
  {
    ExampleTokens();
    assert "/test[x=1].html" == "/test" + "[" + ("x" + "=" + "1") + "]" + ".html";
    assert "/test[x=2].html" == "/test" + "[" + ("x" + "=" + "2") + "]" + ".html";
    SetParamsReplaceOne("/test", ".html", "x", "1", "2");
  }

  lemma SetParamsKeepOthers()
    ensures SetParams("/test[x=1,y=2].html", map["x" := "3"]) == "/test[x=3,y=2].html"
  {
    ExampleTokens();
    assert "/test[x=1,y=2].html" == "/test" + "[" + (("x" + "=" + "1") + "," + ("y" + "=" + "2")) + "]" + ".html";
    assert "/test[x=3,y=2].html" == "/test" + "[" + (("x" + "=" + "3") + "," + ("y" + "=" + "2")) + "]" + ".html";
    SetParamsReplaceFirst("/test", ".html", "x", "1", "y", "2", "3");
  }
}
