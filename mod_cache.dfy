/** The module cache of 4_modcache.go: the names modules are tracked under, the
    DependencyTracker that records who required whom while modules load, and the
    pool of idle interpreter states whose cached modules are forgotten, together
    with everything that depends on them, when a module file changes. */
module ModCache {
  import opened Wrappers
  import opened Text
  import opened Deps
  import opened LuaState

  // ------------------------------------------------------------ module names

  /** getModuleName: the site directory, the ".lua" suffix and one leading '/'
      are dropped and the remaining '/' become '.'. An empty remainder makes the
      source index out of range; that panic is the error here. A module name
      never holds a '/', and the name fails exactly when nothing is left. */
  function GetModuleName(siteDir: string, modpath: string): (r: Result<string>)
    ensures r.Ok? ==> '/' !in r.value
    ensures r.Err? <==> TrimSuffix(TrimPrefix(modpath, siteDir), ".lua") == []
  {
    var rest := TrimSuffix(TrimPrefix(modpath, siteDir), ".lua");
    if rest == [] then Err("index out of range")
    else
      var rel := if rest[0] == '/' then rest[1..] else rest;
      var name := ReplaceChar(rel, '/', '.');
      assert forall i :: 0 <= i < |name| ==> name[i] != '/';
      Ok(name)
  }

  /** A name that is already dotted (no site directory in front, no ".lua" at
      the end, no '/') comes back unchanged. */
  lemma ModuleNameDotted(siteDir: string, name: string)
    requires name != [] && '/' !in name && !HasSuffix(name, ".lua")
    requires siteDir == [] || !(siteDir <= name)
    ensures GetModuleName(siteDir, name) == Ok(name)
  {
    ReplaceCharAbsent(name, '/', '.');
  }

  lemma ReplaceCharAbsent(s: string, a: char, b: char)
    requires a !in s
    ensures ReplaceChar(s, a, b) == s
  {
    assert forall i :: 0 <= i < |s| ==> s[i] != a;
  }

  /** The module file rel (a path below the site directory) is tracked under
      rel with '/' turned into '.'. */
  lemma ModuleNameOf(siteDir: string, rel: string)
    requires rel != []
    ensures GetModuleName(siteDir, siteDir + "/" + rel + ".lua") == Ok(ReplaceChar(rel, '/', '.'))
  {
    var modpath := siteDir + "/" + rel + ".lua";
    assert modpath == siteDir + ("/" + rel + ".lua");
    var afterDir := TrimPrefix(modpath, siteDir);
    assert afterDir == ("/" + rel) + ".lua";
    assert HasSuffix(afterDir, ".lua");
    var rest := TrimSuffix(afterDir, ".lua");
    assert rest == "/" + rel;
    assert rest[1..] == rel;
  }

  /** The loader, turning the '.' of a module name back into '/', finds the
      file the name was made from. */
  lemma ModuleNameOfFile(siteDir: string, rel: string)
    requires rel != [] && '.' !in rel
    ensures GetModuleName(siteDir, siteDir + "/" + rel + ".lua").Ok?
    ensures ReplaceChar(GetModuleName(siteDir, siteDir + "/" + rel + ".lua").value, '.', '/') == rel
  {
    ModuleNameOf(siteDir, rel);
    var back := ReplaceChar(ReplaceChar(rel, '/', '.'), '.', '/');
    assert forall i :: 0 <= i < |rel| ==> back[i] == rel[i];
  }

  // ------------------------------------------------------------ tracking

  /** One require as the tracking wrapper sees it: the path it is called with,
      its second argument (track), the requires the loaded module makes in turn,
      and whether the module raises an error after them. */
  datatype Load = Load(path: string, track: bool, nested: seq<Load>, fails: bool)

  /** The dependency table after a load and whether it raised. */
  datatype Outcome = Outcome(edges: Edges, raised: bool)

  /** The effect of one wrapped require issued while lineage is the stack of
      modules being loaded. No module loses its entry in the table, and a
      module that raises makes its require raise. */
  function RunLoad(E: Edges, lineage: seq<string>, ld: Load, siteDir: string, poolDisabled: bool): (r: Outcome)
    ensures E.Keys <= r.edges.Keys
    ensures ld.fails ==> r.raised
    decreases ld
  {
    if !poolDisabled && ld.track then
      var name := GetModuleName(siteDir, ld.path);
      if name.Err? then Outcome(E, true)
      else
        var E1 := if |lineage| >= 1 then WithDependent(E, name.value, lineage[|lineage| - 1]) else E;
        var inner := RunNested(E1, lineage + [name.value], ld.nested, siteDir, poolDisabled);
        Outcome(inner.edges, inner.raised || ld.fails)
    else
      var inner := RunNested(E, lineage, ld.nested, siteDir, poolDisabled);
      Outcome(inner.edges, inner.raised || ld.fails)
  }

  /** Requires made one after another; the first error stops the rest. */
  function RunNested(E: Edges, lineage: seq<string>, lds: seq<Load>, siteDir: string, poolDisabled: bool): (r: Outcome)
    ensures E.Keys <= r.edges.Keys
    decreases lds
  {
    if lds == [] then Outcome(E, false)
    else
      var before := RunNested(E, lineage, lds[..|lds| - 1], siteDir, poolDisabled);
      if before.raised then before
      else RunLoad(before.edges, lineage, lds[|lds| - 1], siteDir, poolDisabled)
  }

  /** Once a require has raised, later ones are not made. */
  lemma {:induction false} NestedStops(E: Edges, lineage: seq<string>, lds: seq<Load>, more: seq<Load>, siteDir: string, poolDisabled: bool)
    requires RunNested(E, lineage, lds, siteDir, poolDisabled).raised
    ensures RunNested(E, lineage, lds + more, siteDir, poolDisabled) == RunNested(E, lineage, lds, siteDir, poolDisabled)
    decreases |more|
  {
    if more != [] {
      var front := more[..|more| - 1];
      var all := lds + more;
      assert all[..|all| - 1] == lds + front;
      NestedStops(E, lineage, lds, front, siteDir, poolDisabled);
      NestedAfterRaise(E, lineage, all, siteDir, poolDisabled);
    } else {
      assert lds + more == lds;
    }
  }

  /** A require list whose front raised ends where its front ended. */
  lemma NestedAfterRaise(E: Edges, lineage: seq<string>, lds: seq<Load>, siteDir: string, poolDisabled: bool)
    requires lds != [] && RunNested(E, lineage, lds[..|lds| - 1], siteDir, poolDisabled).raised
    ensures RunNested(E, lineage, lds, siteDir, poolDisabled) == RunNested(E, lineage, lds[..|lds| - 1], siteDir, poolDisabled)
  {
  }

  /** The requires up to and including the i-th. */
  lemma NestedNext(E: Edges, lineage: seq<string>, lds: seq<Load>, i: nat, siteDir: string, poolDisabled: bool)
    requires i < |lds| && !RunNested(E, lineage, lds[..i], siteDir, poolDisabled).raised
    ensures RunNested(E, lineage, lds[..i + 1], siteDir, poolDisabled) ==
      RunLoad(RunNested(E, lineage, lds[..i], siteDir, poolDisabled).edges, lineage, lds[i], siteDir, poolDisabled)
  {
    assert lds[..i + 1][..i] == lds[..i];
  }

  /** Stopping after the first i requires, because they raised or because there
      are no more, is running them all. */
  lemma NestedRest(E: Edges, lineage: seq<string>, lds: seq<Load>, i: nat, siteDir: string, poolDisabled: bool)
    requires i <= |lds|
    requires i == |lds| || RunNested(E, lineage, lds[..i], siteDir, poolDisabled).raised
    ensures RunNested(E, lineage, lds, siteDir, poolDisabled) == RunNested(E, lineage, lds[..i], siteDir, poolDisabled)
  {
    if i == |lds| {
      assert lds[..i] == lds;
    } else {
      var front, back := lds[..i], lds[i..];
      assert front + back == lds;
      NestedStops(E, lineage, front, back, siteDir, poolDisabled);
    }
  }

  /** Loading only ever adds dependents. */
  lemma {:induction false} LoadGrows(E: Edges, lineage: seq<string>, ld: Load, siteDir: string, poolDisabled: bool, k: string)
    ensures DependentsIn(E, k) <= DependentsIn(RunLoad(E, lineage, ld, siteDir, poolDisabled).edges, k)
    decreases ld
  {
    if !poolDisabled && ld.track {
      var name := GetModuleName(siteDir, ld.path);
      if name.Ok? {
        var E1 := if |lineage| >= 1 then WithDependent(E, name.value, lineage[|lineage| - 1]) else E;
        assert DependentsIn(E, k) <= DependentsIn(E1, k);
        NestedGrows(E1, lineage + [name.value], ld.nested, siteDir, poolDisabled, k);
      }
    } else {
      NestedGrows(E, lineage, ld.nested, siteDir, poolDisabled, k);
    }
  }

  lemma {:induction false} NestedGrows(E: Edges, lineage: seq<string>, lds: seq<Load>, siteDir: string, poolDisabled: bool, k: string)
    ensures DependentsIn(E, k) <= DependentsIn(RunNested(E, lineage, lds, siteDir, poolDisabled).edges, k)
    decreases lds
  {
    if lds != [] {
      var before := RunNested(E, lineage, lds[..|lds| - 1], siteDir, poolDisabled);
      NestedGrows(E, lineage, lds[..|lds| - 1], siteDir, poolDisabled, k);
      if !before.raised {
        LoadGrows(before.edges, lineage, lds[|lds| - 1], siteDir, poolDisabled, k);
      }
    }
  }

  /** A tracked require made while another module is loading records the loader
      as a dependent of the required module, and that edge survives the
      module's own requires. */
  lemma TrackedRecordsEdge(E: Edges, lineage: seq<string>, ld: Load, siteDir: string, poolDisabled: bool)
    requires !poolDisabled && ld.track && |lineage| >= 1
    requires GetModuleName(siteDir, ld.path).Ok?
    ensures lineage[|lineage| - 1] in
      DependentsIn(RunLoad(E, lineage, ld, siteDir, poolDisabled).edges, GetModuleName(siteDir, ld.path).value)
  {
    var name := GetModuleName(siteDir, ld.path).value;
    var E1 := WithDependent(E, name, lineage[|lineage| - 1]);
    assert lineage[|lineage| - 1] in DependentsIn(E1, name);
    NestedGrows(E1, lineage + [name], ld.nested, siteDir, poolDisabled, name);
  }

  /** With the pool disabled nothing is tracked: however deep the requires
      nest, the table is left as it was. */
  lemma {:induction false} DisabledRecordsNothing(E: Edges, lineage: seq<string>, ld: Load, siteDir: string)
    ensures RunLoad(E, lineage, ld, siteDir, true).edges == E
    decreases ld
  {
    DisabledNested(E, lineage, ld.nested, siteDir);
  }

  lemma {:induction false} DisabledNested(E: Edges, lineage: seq<string>, lds: seq<Load>, siteDir: string)
    ensures RunNested(E, lineage, lds, siteDir, true).edges == E
    decreases lds
  {
    if lds != [] {
      DisabledNested(E, lineage, lds[..|lds| - 1], siteDir);
      DisabledRecordsNothing(E, lineage, lds[|lds| - 1], siteDir);
    }
  }

  /** A require with tracking switched off by its second argument records no
      edge of its own: the requires it makes see the same lineage as it did. */
  lemma UntrackedIsTransparent(E: Edges, lineage: seq<string>, ld: Load, siteDir: string, poolDisabled: bool)
    requires !ld.track
    ensures RunLoad(E, lineage, ld, siteDir, poolDisabled) ==
      var inner := RunNested(E, lineage, ld.nested, siteDir, poolDisabled);
      Outcome(inner.edges, inner.raised || ld.fails)
    ensures ld.nested == [] ==> RunLoad(E, lineage, ld, siteDir, poolDisabled) == Outcome(E, ld.fails)
  {
  }

  /** DependencyTracker: the stack of modules being loaded and the dependency
      table it fills in. */
  class DependencyTracker {
    var level: int
    var lineage: seq<string>
    var dependents: DepTable

    /** The class invariant: level counts the modules on the lineage stack. */
    predicate Valid()
      reads this
    {
      level == |lineage|
    }

    /** newDepdencyTracker: a fresh table, registered in the state. */
    constructor (L: State)
      modifies L
      ensures Valid()
      ensures level == 0 && lineage == [] && fresh(dependents) && dependents.edges == map[]
      ensures L.deps == dependents && L.loaded == old(L.loaded) && L.registry == old(L.registry)
    {
      level := 0;
      lineage := [];
      var table := new DepTable();
      dependents := table;
      L.deps := table;
    }

    /** The wrapped loader, applied to one require. Level and lineage are
        restored on the way out, also when the module raises. */
    method Wrap(ld: Load, siteDir: string, poolDisabled: bool) returns (raised: bool)
      requires Valid()
      modifies this, dependents
      ensures Valid()
      ensures dependents == old(dependents) && lineage == old(lineage) && level == old(level)
      ensures Outcome(dependents.edges, raised) ==
        RunLoad(old(dependents.edges), old(lineage), ld, siteDir, poolDisabled)
      decreases ld
    {
      var tracked := !poolDisabled && ld.track;
      ghost var E0 := dependents.edges;
      ghost var outer := lineage;
      if tracked {
        var name := GetModuleName(siteDir, ld.path);
        if name.Err? {
          raised := true;
          return;
        }
        if |lineage| >= 1 {
          dependents.AddDependentOf(name.value, lineage[|lineage| - 1]);
        }
        level := level + 1;
        lineage := lineage + [name.value];
      }
      ghost var E1 := dependents.edges;
      ghost var inner := lineage;
      assert RunLoad(E0, outer, ld, siteDir, poolDisabled) ==
        var r := RunNested(E1, inner, ld.nested, siteDir, poolDisabled);
        Outcome(r.edges, r.raised || ld.fails);
      raised := WrapNested(ld.nested, siteDir, poolDisabled);
      if tracked {
        level := level - 1;
        assert lineage[..|lineage| - 1] == outer;
        lineage := lineage[..|lineage| - 1];
      }
      raised := raised || ld.fails;
    }

    /** The requires a module makes while it loads, each through Wrap, up to
        the first that raises. */
    method WrapNested(lds: seq<Load>, siteDir: string, poolDisabled: bool) returns (raised: bool)
      requires Valid()
      modifies this, dependents
      ensures Valid()
      ensures dependents == old(dependents) && lineage == old(lineage) && level == old(level)
      ensures Outcome(dependents.edges, raised) ==
        RunNested(old(dependents.edges), old(lineage), lds, siteDir, poolDisabled)
      decreases lds
    {
      ghost var E1 := dependents.edges;
      var i := 0;
      raised := false;
      while i < |lds| && !raised
        invariant 0 <= i <= |lds|
        invariant dependents == old(dependents) && lineage == old(lineage) && Valid()
        invariant Outcome(dependents.edges, raised) == RunNested(E1, lineage, lds[..i], siteDir, poolDisabled)
      {
        NestedNext(E1, lineage, lds, i, siteDir, poolDisabled);
        raised := Wrap(lds[i], siteDir, poolDisabled);
        i := i + 1;
      }
      NestedRest(E1, lineage, lds, i, siteDir, poolDisabled);
    }
  }

  // ------------------------------------------------------------ the pool

  /** Each pooled state is its own interpreter: no state is pooled twice and no
      two states share a dependency table. */
  predicate Separate(saved: seq<State>)
    reads saved
  {
    forall i, j :: 0 <= i < j < |saved| ==>
      saved[i] != saved[j] && (saved[i].deps == null || saved[i].deps != saved[j].deps)
  }

  /** What resetting name forgets in a state with dependency table E. */
  ghost function Forgotten(deps: DepTable?, E: Edges, name: string): set<string> {
    if deps == null then {} else Reach(E, name)
  }

  /** The state of the worklist in resetModuleDependents: what has been visited
      and what is waiting lies within R, the reach of name; name has been
      reached; every dependent of a visited module is visited or waiting. */
  ghost predicate Sweep(E: Edges, name: string, R: set<string>, visited: set<string>, waiting: set<string>) {
    visited <= R && waiting <= R && name in visited + waiting &&
    forall v :: v in visited ==> DependentsIn(E, v) <= visited + waiting
  }

  lemma SweepStart(E: Edges, name: string)
    ensures Sweep(E, name, Reach(E, name), {}, Elems([name]))
  {
    ReachStart(E, name);
    assert name in [name];
  }

  /** Popping a module visited before changes nothing. */
  lemma SweepRevisit(E: Edges, name: string, R: set<string>, visited: set<string>, rest: set<string>, m: string)
    requires m in visited && Sweep(E, name, R, visited, rest + {m})
    ensures Sweep(E, name, R, visited, rest)
  {
    assert visited + (rest + {m}) == visited + rest;
  }

  /** Visiting a new module of the reach queues its dependents, which are in
      the reach as well, and brings the measure down. */
  lemma SweepVisit(E: Edges, name: string, R: set<string>, visited: set<string>, rest: set<string>, m: string)
    requires m !in visited && Sweep(E, name, R, visited, rest + {m})
    requires DependentsIn(E, m) <= R
    ensures Sweep(E, name, R, visited + {m}, rest + DependentsIn(E, m))
    ensures |R - (visited + {m})| < |R - visited|
  {
    assert R - (visited + {m}) == (R - visited) - {m};
  }

  /** With nothing waiting, everything reachable has been visited. */
  lemma SweepDone(E: Edges, name: string, visited: set<string>)
    requires Sweep(E, name, Reach(E, name), visited, {})
    ensures visited == Reach(E, name)
  {
    assert visited + {} == visited;
    assert Closed(E, visited);
    ClosedHoldsReach(E, name, visited);
  }

  lemma DropOne(E: Edges, visited: set<string>, m: string)
    requires m !in visited
    ensures DependentsIn(E - visited, m) == DependentsIn(E, m)
    ensures (E - visited) - {m} == E - (visited + {m})
  {
  }

  lemma MinusOne(M: Table, visited: set<string>, m: string)
    ensures (M - visited) - {m} == M - (visited + {m})
  {
  }

  lemma PopElems(q: seq<string>)
    requires q != []
    ensures Elems(q) == Elems(q[..|q| - 1]) + {q[|q| - 1]}
  {
    assert q == q[..|q| - 1] + [q[|q| - 1]];
    Snoc(q[..|q| - 1], q[|q| - 1]);
  }

  lemma ElemsConcat(a: seq<string>, b: seq<string>)
    ensures Elems(a + b) == Elems(a) + Elems(b)
  {
    assert forall x :: x in b ==> x in a + b;
  }

  /** lStatePool: the idle interpreter states. */
  class StatePool {
    var saved: seq<State>

    /** The class invariant: the idle states are separate interpreters. Each
        state is taken with Get and given back with Put by its one user, so no
        state is idle twice and no two share a dependency table. */
    ghost predicate Valid()
      reads this, saved
    {
      Separate(saved)
    }

    constructor ()
      ensures saved == [] && Valid()
    {
      saved := [];
    }

    /** The most recently put state, or null when the pool is empty. */
    method Get() returns (L: State?)
      requires Valid()
      modifies this
      ensures Valid()
      ensures old(saved) == [] ==> L == null && saved == old(saved)
      ensures old(saved) != [] ==> L == old(saved)[|old(saved)| - 1] && saved == old(saved)[..|old(saved)| - 1]
    {
      var n := |saved|;
      if n == 0 {
        return null;
      }
      L := saved[n - 1];
      saved := saved[..n - 1];
    }

    /** Gives back a state that is not idle already and whose dependency
        table no idle state shares. */
    method Put(L: State)
      requires Valid()
      requires L !in saved && forall S :: S in saved && S.deps != null ==> S.deps != L.deps
      modifies this
      ensures saved == old(saved) + [L]
      ensures Valid()
    {
      saved := saved + [L];
    }

    /** Empties the pool; closing the states is not modelled. */
    method Clear()
      modifies this
      ensures saved == [] && Valid()
    {
      saved := [];
    }

    /** resetModuleDependents: every module that depends on name, directly or
        not, and name itself, is dropped from L's loaded modules and from its
        dependency table; nothing else changes. Without a table it does
        nothing. */
    static method ResetModuleDependents(L: State, name: string)
      modifies L, L.deps
      ensures L.deps == old(L.deps) && L.registry == old(L.registry)
      ensures L.loaded == old(L.loaded) - Forgotten(L.deps, old(if L.deps == null then map[] else L.deps.edges), name)
      ensures L.deps != null ==> L.deps.edges == old(L.deps.edges) - Reach(old(L.deps.edges), name)
    {
      if L.deps == null {
        return;
      }
      var table := L.deps;
      ghost var E0 := table.edges;
      ghost var R := Reach(E0, name);
      var queue := [name];
      var visited: set<string> := {};
      SweepStart(E0, name);
      while queue != []
        invariant L.deps == table && L.registry == old(L.registry)
        invariant Sweep(E0, name, R, visited, Elems(queue))
        invariant table.edges == E0 - visited && L.loaded == old(L.loaded) - visited
        decreases |R - visited|, |queue|
      {
        var m := queue[|queue| - 1];
        ghost var rest := Elems(queue[..|queue| - 1]);
        PopElems(queue);
        queue := queue[..|queue| - 1];
        if m in visited {
          SweepRevisit(E0, name, R, visited, rest, m);
          continue;
        }
        DropOne(E0, visited, m);
        MinusOne(old(L.loaded), visited, m);
        var next := Forget(L, table, m);
        ReachDeps(E0, name, m);
        SweepVisit(E0, name, R, visited, rest, m);
        ElemsConcat(queue, next);
        visited := visited + {m};
        queue := queue + next;
      }
      SweepDone(E0, name, visited);
    }

    /** One turn of the worklist: the dependents of m, which are queued, and
        m dropped from the table and from the loaded modules. */
    static method Forget(L: State, table: DepTable, m: string) returns (next: seq<string>)
      requires L.deps == table
      modifies L, table
      ensures Elems(next) == DependentsIn(old(table.edges), m)
      ensures table.edges == old(table.edges) - {m} && L.loaded == old(L.loaded) - {m}
      ensures L.deps == table && L.registry == old(L.registry)
    {
      next := table.GetDependentsOf(m);
      table.RemoveDependents(m);
      // RawSetString(m, nil) on _LOADED
      L.loaded := L.loaded - {m};
    }

    /** S after a reset of name, given its modules and table before. */
    static ghost predicate WasReset(S: State, loaded0: Table, E0: Edges, name: string)
      reads S, S.deps
    {
      S.loaded == loaded0 - Forgotten(S.deps, E0, name) &&
      (S.deps != null ==> S.deps.edges == E0 - Reach(E0, name))
    }

    /** S as it was: the same modules and the same table. */
    static ghost predicate Untouched(S: State, loaded0: Table, E0: Edges)
      reads S, S.deps
    {
      S.loaded == loaded0 && (S.deps != null ==> S.deps.edges == E0)
    }

    /** resetLoadedPoolModules: the reset above, in every idle state; the pool
        itself is unchanged. */
    method ResetLoadedPoolModules(name: string)
      requires Valid()
      modifies set L | L in saved, set L | L in saved && L.deps != null :: L.deps
      ensures saved == old(saved)
      ensures Valid()
      ensures forall i :: 0 <= i < |saved| ==>
        saved[i].deps == old(saved[i].deps) &&
        saved[i].loaded == old(saved[i].loaded) - Forgotten(saved[i].deps, old(if saved[i].deps == null then map[] else saved[i].deps.edges), name)
      ensures forall i :: 0 <= i < |saved| && saved[i].deps != null ==>
        saved[i].deps.edges == old(saved[i].deps.edges) - Reach(old(saved[i].deps.edges), name)
    {
      var i := 0;
      while i < |saved|
        invariant 0 <= i <= |saved| && saved == old(saved)
        invariant forall j :: 0 <= j < |saved| ==> saved[j].deps == old(saved[j].deps)
        invariant forall j :: 0 <= j < i ==>
          WasReset(saved[j], old(saved[j].loaded), old(if saved[j].deps == null then map[] else saved[j].deps.edges), name)
        invariant forall j :: i <= j < |saved| ==>
          Untouched(saved[j], old(saved[j].loaded), old(if saved[j].deps == null then map[] else saved[j].deps.edges))
      {
        ResetModuleDependents(saved[i], name);
        i := i + 1;
      }
    }
  }
}
