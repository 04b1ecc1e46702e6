/** The per-interpreter bookkeeping of 5_state.go: the registry entries the site
    generator keeps under the "moontpl." prefix (internal variables and the
    per-state cache), the recursion guard and caching policy of env.getPages,
    and the Lua search path that AddLuaPath extends. The interpreter itself is
    not modelled: a state is its _LOADED table, its string-keyed registry
    entries and its dependency table. */
module LuaState {
  import opened Wrappers
  import opened Text
  import opened Deps

  /** The Lua values this bookkeeping stores. A list is a table built by
      luarFromArray; anything else is an opaque object. */
  datatype Value = Nil | Bool(b: bool) | Str(s: string) | List(items: seq<Value>) | Object(id: nat)

  type Table = map<string, Value>

  const RegistryPrefix: string := "moontpl."
  const CachePrefix: string := "cache."
  const RecursedVar: string := "recursed"
  const PagesCacheKey: string := "GetPages"

  /** RawSetString: storing nil removes the key. */
  function RawSet(t: Table, k: string, v: Value): (r: Table)
    ensures v == Nil ==> k !in r
    ensures v != Nil ==> k in r && r[k] == v
    ensures forall j :: j != k ==> (j in r <==> j in t) && (j in r ==> r[j] == t[j])
  {
    if v == Nil then t - {k} else t[k := v]
  }

  /** RawGetString: a missing key reads as nil. */
  function RawGet(t: Table, k: string): Value {
    if k in t then t[k] else Nil
  }

  /** The registry key of an internal variable. */
  function InternalKey(key: string): (r: string)
    ensures |r| == |RegistryPrefix| + |key| && r[|RegistryPrefix|..] == key
  {
    RegistryPrefix + key
  }

  /** The internal variable behind getStateCache/setStateCache. */
  function CacheVar(key: string): (r: string)
    ensures |r| == |CachePrefix| + |key| && r[|CachePrefix|..] == key
  {
    CachePrefix + key
  }

  /** GetInternalVar(k) after SetInternalVar(k, v) gives v, and reading any other
      internal variable gives what it gave before. */
  lemma InternalVarRoundTrip(t: Table, k: string, v: Value, j: string)
    ensures RawGet(RawSet(t, InternalKey(k), v), InternalKey(j)) ==
      if j == k then v else RawGet(t, InternalKey(j))
  {
    if j != k {
      assert InternalKey(j) != InternalKey(k) by {
        if |j| == |k| {
          assert InternalKey(j)[|RegistryPrefix|..] != InternalKey(k)[|RegistryPrefix|..];
        }
      }
    }
  }

  /** The state cache never touches the recursion guard. */
  lemma CacheApart(key: string)
    ensures CacheVar(key) != RecursedVar
  {
    assert CacheVar(key)[0] == 'c';
  }

  /** The value getPages pushes when computing is skipped: a fresh empty table. */
  const EmptyList: Value := List([])

  /** What getPages reads and writes: the state's registry and the process-wide
      cachedPages of build mode. */
  datatype PagesState = PagesState(registry: Table, cached: Option<seq<Value>>)

  /** The outcome of one getPages call: what it pushes (or the panic it raises),
      the state afterwards, and whether it ran GetPages. */
  datatype PagesCall = PagesCall(result: Result<Value>, after: PagesState, computed: bool)

  /** One call of env.getPages. pages is what GetPages(L) would return (or the
      error it would fail with); it is consulted only when the guard is clear
      and nothing is cached. The call fails only with the error of GetPages,
      and computed pages are what it pushes. */
  function GetPagesStep(s: PagesState, build: bool, pages: Result<seq<Value>>): (r: PagesCall)
    ensures r.computed ==> RawGet(s.registry, InternalKey(RecursedVar)) == Nil && (build ==> s.cached.None?)
    ensures r.result.Err? ==> r.computed && pages.Err? && r.result == Err(pages.msg)
    ensures r.computed && pages.Ok? ==> r.result == Ok(List(pages.value))
  {
    var recursedKey := InternalKey(RecursedVar);
    if RawGet(s.registry, recursedKey) != Nil then PagesCall(Ok(EmptyList), s, false)
    else
      var guarded := RawSet(s.registry, recursedKey, Bool(true));
      if build then
        if s.cached.Some? then
          PagesCall(Ok(List(s.cached.value)), PagesState(RawSet(guarded, recursedKey, Nil), s.cached), false)
        else if pages.Err? then
          PagesCall(Err(pages.msg), PagesState(RawSet(guarded, recursedKey, Nil), s.cached), true)
        else
          PagesCall(Ok(List(pages.value)), PagesState(RawSet(guarded, recursedKey, Nil), Some(pages.value)), true)
      else
        var cacheKey := InternalKey(CacheVar(PagesCacheKey));
        var hit := RawGet(guarded, cacheKey);
        if hit != Nil then
          PagesCall(Ok(hit), PagesState(RawSet(guarded, recursedKey, Nil), s.cached), false)
        else if pages.Err? then
          PagesCall(Err(pages.msg), PagesState(RawSet(guarded, recursedKey, Nil), s.cached), true)
        else
          var cachedReg := RawSet(guarded, cacheKey, List(pages.value));
          PagesCall(Ok(List(pages.value)), PagesState(RawSet(cachedReg, recursedKey, Nil), s.cached), true)
  }

  /** Re-entered while the guard is set, getPages pushes an empty table and
      changes nothing. */
  lemma GetPagesGuard(s: PagesState, build: bool, pages: Result<seq<Value>>)
    requires RawGet(s.registry, InternalKey(RecursedVar)) != Nil
    ensures GetPagesStep(s, build, pages) == PagesCall(Ok(EmptyList), s, false)
  {
  }

  /** Otherwise the guard is cleared again afterwards, whether or not GetPages
      failed, and no registry entry other than the guard and the state cache of
      the pages changes. */
  lemma GetPagesClearsGuard(s: PagesState, build: bool, pages: Result<seq<Value>>)
    requires RawGet(s.registry, InternalKey(RecursedVar)) == Nil
    ensures var after := GetPagesStep(s, build, pages).after.registry;
      RawGet(after, InternalKey(RecursedVar)) == Nil &&
      forall k :: k != InternalKey(RecursedVar) && k != InternalKey(CacheVar(PagesCacheKey)) ==>
        RawGet(after, k) == RawGet(s.registry, k)
  {
    CacheApart(PagesCacheKey);
    InternalVarRoundTrip(s.registry, RecursedVar, Nil, CacheVar(PagesCacheKey));
  }

  /** GetPages runs at most once: once a call has succeeded, the next one (in
      the same mode, on the same state) pushes the same pages without running it. */
  lemma GetPagesOnce(s: PagesState, build: bool, p1: Result<seq<Value>>, p2: Result<seq<Value>>)
    requires RawGet(s.registry, InternalKey(RecursedVar)) == Nil
    requires GetPagesStep(s, build, p1).result.Ok?
    ensures var first := GetPagesStep(s, build, p1);
      var second := GetPagesStep(first.after, build, p2);
      !second.computed && second.result == first.result
  {
    CacheApart(PagesCacheKey);
    InternalVarRoundTrip(s.registry, RecursedVar, Nil, CacheVar(PagesCacheKey));
    var recursedKey := InternalKey(RecursedVar);
    var cacheKey := InternalKey(CacheVar(PagesCacheKey));
    var guarded := RawSet(s.registry, recursedKey, Bool(true));
    if !build {
      InternalVarRoundTrip(guarded, CacheVar(PagesCacheKey), List([]), RecursedVar);
    }
  }

  /** The process-wide pages cache of build mode (cachedPages). */
  class PagesCache {
    var cached: Option<seq<Value>>

    constructor ()
      ensures cached == None
    {
      cached := None;
    }
  }

  /** One interpreter state. */
  class State {
    /** package.loaded: the modules this state has loaded. */
    var loaded: Table
    /** The registry's string-keyed entries. */
    var registry: Table
    /** The dependency table a DependencyTracker registers, if any. */
    var deps: DepTable?

    constructor ()
      ensures loaded == map[] && registry == map[] && deps == null
    {
      loaded := map[];
      registry := map[];
      deps := null;
    }

    /** The registry entry "moontpl." + key; a missing entry reads as nil. */
    function GetInternalVar(key: string): (r: Value)
      reads this
      ensures "moontpl." + key !in registry ==> r == Nil
      ensures r != Nil ==> "moontpl." + key in registry && registry["moontpl." + key] == r
    {
      RawGet(registry, InternalKey(key))
    }

    method SetInternalVar(key: string, val: Value)
      modifies this
      ensures registry == RawSet(old(registry), InternalKey(key), val)
      ensures loaded == old(loaded) && deps == old(deps)
    {
      registry := RawSet(registry, InternalKey(key), val);
    }

    /** The registry entry "moontpl.cache." + key; a missing entry reads as nil. */
    function GetStateCache(key: string): (r: Value)
      reads this
      ensures "moontpl.cache." + key !in registry ==> r == Nil
      ensures r != Nil ==> "moontpl.cache." + key in registry && registry["moontpl.cache." + key] == r
    {
      assert InternalKey(CacheVar(key)) == "moontpl.cache." + key;
      GetInternalVar(CacheVar(key))
    }

    method SetStateCache(key: string, val: Value)
      modifies this
      ensures registry == RawSet(old(registry), InternalKey(CacheVar(key)), val)
      ensures loaded == old(loaded) && deps == old(deps)
    {
      SetInternalVar(CacheVar(key), val);
    }

    /** The env.getPages function: build says whether the command is build,
        pages is what GetPages(L) returns when it is run. */
    method GetPages(build: bool, site: PagesCache, pages: Result<seq<Value>>) returns (r: Result<Value>)
      modifies this, site
      ensures var call := GetPagesStep(PagesState(old(registry), old(site.cached)), build, pages);
        r == call.result && registry == call.after.registry && site.cached == call.after.cached
      ensures loaded == old(loaded) && deps == old(deps)
    {
      if GetInternalVar(RecursedVar) != Nil {
        r := Ok(EmptyList);
        return;
      }
      SetInternalVar(RecursedVar, Bool(true));
      if build {
        if site.cached.None? {
          if pages.Err? {
            r := Err(pages.msg);
            SetInternalVar(RecursedVar, Nil);
            return;
          }
          site.cached := Some(pages.value);
        }
        r := Ok(List(site.cached.value));
      } else {
        var hit := GetStateCache(PagesCacheKey);
        if hit != Nil {
          r := Ok(hit);
        } else if pages.Err? {
          r := Err(pages.msg);
        } else {
          var lv := List(pages.value);
          SetStateCache(PagesCacheKey, lv);
          r := Ok(lv);
        }
      }
      SetInternalVar(RecursedVar, Nil);
    }
  }

  // ------------------------------------------------------------ package.path

  /** The search path after AddLuaPath(pathStr): the trimmed old path, a ';'
      unless it is empty or already ends with one, then pathStr. */
  function ExtendedPath(current: string, pathStr: string): string {
    var path := Trim(current);
    var sep := if |path| > 0 && path[|path| - 1] != ';' then ";" else "";
    path + sep + pathStr
  }

  /** The entries of a search path, leaving out the empty one a trailing ';'
      leaves. */
  function PathEntries(path: string): seq<string> {
    if |path| > 0 && path[|path| - 1] == ';' then Split(path[..|path| - 1], ';')
    else Split(path, ';')
  }

  /** A blank path becomes exactly pathStr; otherwise the old entries keep their
      order and pathStr becomes the last one. */
  lemma ExtendedPathEntries(current: string, pathStr: string)
    requires ';' !in pathStr
    ensures Trim(current) == [] ==> ExtendedPath(current, pathStr) == pathStr
    ensures Trim(current) != [] ==>
      Split(ExtendedPath(current, pathStr), ';') == PathEntries(Trim(current)) + [pathStr]
  {
    var path := Trim(current);
    SplitNone(pathStr, ';');
    if path != [] {
      if path[|path| - 1] == ';' {
        var front := path[..|path| - 1];
        assert path == front + [';'];
        assert path + "" + pathStr == front + [';'] + pathStr;
        SplitConcat(front, pathStr, ';');
      } else {
        assert path + ";" + pathStr == path + [';'] + pathStr;
        SplitConcat(path, pathStr, ';');
      }
    }
  }

  /** lua.LuaPathDefault, the package.path new states start with. */
  class LuaPath {
    var path: string

    constructor (initial: string)
      ensures path == initial
    {
      path := initial;
    }

    method AddLuaPath(pathStr: string)
      modifies this
      ensures path == ExtendedPath(old(path), pathStr)
    {
      var sep := "";
      var p := Trim(path);
      if |p| > 0 {
        if p[|p| - 1] == ';' {
          sep := "";
        } else {
          sep := ";";
        }
      }
      path := p + sep + pathStr;
    }
  }
}
