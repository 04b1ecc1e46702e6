/** dependencyTable (4_modcache.go): for every module, the set of modules that
    required it. The Lua table of tables becomes a map from a module name to the
    set of its dependents; storing nil under a key removes the key. */
module Deps {
  import opened Text

  /** module -> the modules that required it. */
  type Edges = map<string, set<string>>

  /** The dependents recorded for m; a missing entry reads as none. */
  function DependentsIn(E: Edges, m: string): set<string> {
    if m in E then E[m] else {}
  }

  /** The table after AddDependentOf(parent, dependent). */
  function WithDependent(E: Edges, parent: string, dependent: string): Edges {
    E[parent := DependentsIn(E, parent) + {dependent}]
  }

  /** The table after ClearParent(m): m is dropped from every dependents set. */
  function WithoutParent(E: Edges, m: string): Edges {
    map k | k in E :: E[k] - {m}
  }

  /** After AddDependentOf(p, d), d is a dependent of p, the other entries are as
      they were, and adding the same edge again changes nothing. */
  lemma AddDependentOfRecords(E: Edges, p: string, d: string)
    ensures DependentsIn(WithDependent(E, p, d), p) == DependentsIn(E, p) + {d}
    ensures forall k :: k != p ==> DependentsIn(WithDependent(E, p, d), k) == DependentsIn(E, k)
    ensures WithDependent(WithDependent(E, p, d), p, d) == WithDependent(E, p, d)
  {
    var F := WithDependent(E, p, d);
    assert DependentsIn(F, p) + {d} == DependentsIn(F, p);
  }

  /** After RemoveDependents(p), p has no dependents and the other entries are
      as they were. */
  lemma RemoveDependentsClears(E: Edges, p: string)
    ensures DependentsIn(E - {p}, p) == {}
    ensures forall k :: k != p ==> DependentsIn(E - {p}, k) == DependentsIn(E, k)
  {
  }

  /** After ClearParent(m), m is nobody's dependent, every other dependent
      stays, and the same modules keep an entry. */
  lemma ClearParentRemoves(E: Edges, m: string)
    ensures WithoutParent(E, m).Keys == E.Keys
    ensures forall k :: DependentsIn(WithoutParent(E, m), k) == DependentsIn(E, k) - {m}
    ensures forall k :: m !in DependentsIn(WithoutParent(E, m), k)
  {
  }

  // ------------------------------------------------------------ reachability

  /** A chain of modules each of which required the one before. */
  ghost predicate Chain(E: Edges, p: seq<string>) {
    |p| >= 1 && forall i :: 0 <= i < |p| - 1 ==> p[i + 1] in DependentsIn(E, p[i])
  }

  ghost predicate Reaches(E: Edges, a: string, b: string) {
    exists p :: Chain(E, p) && p[0] == a && p[|p| - 1] == b
  }

  /** Every name the table mentions as a dependent, and a. */
  function Mentioned(E: Edges, a: string): set<string> {
    {a} + set k, x | k in E && x in E[k] :: x
  }

  /** Everything that depends on a, directly or not, and a itself: what
      resetModuleDependents(L, a) forgets. */
  ghost function Reach(E: Edges, a: string): set<string> {
    set b | b in Mentioned(E, a) && Reaches(E, a, b)
  }

  /** S is closed when the dependents of its members are in it. */
  ghost predicate Closed(E: Edges, S: set<string>) {
    forall v :: v in S ==> DependentsIn(E, v) <= S
  }

  lemma ReachStart(E: Edges, a: string)
    ensures a in Reach(E, a)
  {
    assert Chain(E, [a]);
  }

  /** A dependent of something reachable is reachable. */
  lemma ReachStep(E: Edges, a: string, b: string, c: string)
    requires b in Reach(E, a) && c in DependentsIn(E, b)
    ensures c in Reach(E, a)
  {
    var p :| Chain(E, p) && p[0] == a && p[|p| - 1] == b;
    var q := p + [c];
    assert q[|q| - 2] == b;
    assert Chain(E, q);
    assert c in E[b];
  }

  /** The dependents of something reachable are reachable. */
  lemma ReachDeps(E: Edges, a: string, b: string)
    requires b in Reach(E, a)
    ensures DependentsIn(E, b) <= Reach(E, a)
  {
    forall c | c in DependentsIn(E, b) ensures c in Reach(E, a) {
      ReachStep(E, a, b, c);
    }
  }

  /** A closed set holding a holds everything reachable from a. */
  lemma ClosedHoldsReach(E: Edges, a: string, S: set<string>)
    requires a in S && Closed(E, S)
    ensures Reach(E, a) <= S
  {
    forall b | b in Reach(E, a) ensures b in S {
      var p :| Chain(E, p) && p[0] == a && p[|p| - 1] == b;
      ChainInside(E, p, S);
    }
  }

  lemma {:induction false} ChainInside(E: Edges, p: seq<string>, S: set<string>)
    requires Chain(E, p) && p[0] in S && Closed(E, S)
    ensures p[|p| - 1] in S
    decreases |p|
  {
    if |p| > 1 {
      var q := p[..|p| - 1];
      assert Chain(E, q);
      ChainInside(E, q, S);
      assert p[|p| - 1] in DependentsIn(E, q[|q| - 1]);
    }
  }

  /** Reach is itself closed, so it is the least closed set holding a. */
  lemma ReachClosed(E: Edges, a: string)
    ensures Closed(E, Reach(E, a))
  {
    forall v, c | v in Reach(E, a) && c in DependentsIn(E, v) ensures c in Reach(E, a) {
      ReachStep(E, a, v, c);
    }
  }

  // ------------------------------------------------------------ the table

  class DepTable {
    var edges: Edges

    constructor ()
      ensures edges == map[]
    {
      edges := map[];
    }

    /** GetModules: every module that has an entry, once each. */
    method GetModules() returns (r: seq<string>)
      ensures Elems(r) == edges.Keys && Distinct(r)
    {
      r := Enumerate(edges.Keys);
    }

    method AddDependentOf(parent: string, dependent: string)
      modifies this
      ensures edges == WithDependent(old(edges), parent, dependent)
    {
      var deps: set<string>;
      if parent in edges {
        deps := edges[parent];
      } else {
        deps := {};
        edges := edges[parent := deps];
      }
      edges := edges[parent := deps + {dependent}];
    }

    method RemoveDependents(parent: string)
      modifies this
      ensures edges == old(edges) - {parent}
    {
      edges := edges - {parent};
    }

    /** GetDependentsOf: the dependents of m, once each; none for a module
        without an entry. */
    method GetDependentsOf(m: string) returns (r: seq<string>)
      ensures Elems(r) == DependentsIn(edges, m) && Distinct(r)
    {
      if m !in edges {
        r := [];
        return;
      }
      r := Enumerate(edges[m]);
    }

    method ClearParent(m: string)
      modifies this
      ensures edges == WithoutParent(old(edges), m)
    {
      var left := edges.Keys;
      while left != {}
        invariant left <= edges.Keys && edges.Keys == old(edges).Keys
        invariant forall k :: k in edges ==> edges[k] == if k in left then old(edges)[k] else old(edges)[k] - {m}
        decreases |left|
      {
        var k :| k in left;
        edges := edges[k := edges[k] - {m}];
        left := left - {k};
      }
    }
  }
}
