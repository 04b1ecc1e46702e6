/** isSubDirectory of 6_aux.go: whether a path lies below a base directory,
    decided on the text of the two paths alone. */
module Aux {

  /** The base with exactly one separator at its end, unless it is empty. */
  function DirPrefix(base: string): (r: string)
    ensures base == [] ==> r == []
    ensures base != [] && base[|base| - 1] == '/' ==> r == base
    ensures base != [] && base[|base| - 1] != '/' ==> r == base + "/"
    ensures r != [] ==> r[|r| - 1] == '/'
  {
    if |base| > 0 && base[|base| - 1] != '/' then base + "/" else base
  }

  /** isSubDirectory: sub starts with the base and its separator. A base
      given without a trailing separator is followed in sub by one. */
  predicate IsSubDirectory(base: string, sub: string)
    ensures IsSubDirectory(base, sub) ==> base <= sub
    ensures IsSubDirectory(base, sub) && base != [] && base[|base| - 1] != '/' ==>
      |sub| > |base| && sub[|base|] == '/'
  {
    DirPrefix(base) <= sub
  }

  /** Anything written below the base, after a separator, is a subdirectory. */
  lemma Below(base: string, rest: string)
    requires base != [] && base[|base| - 1] != '/'
    ensures IsSubDirectory(base, base + "/" + rest)
  {
    assert base + "/" <= base + "/" + rest;
  }

  /** A base given without a trailing separator is not its own subdirectory. */
  lemma NotItself(base: string)
    requires base != [] && base[|base| - 1] != '/'
    ensures !IsSubDirectory(base, base)
  {
  }

  /** A sibling whose name merely extends the base's last name is not below it. */
  lemma SiblingNotBelow(base: string, more: string)
    requires base != [] && base[|base| - 1] != '/'
    requires more != [] && more[0] != '/'
    ensures !IsSubDirectory(base, base + more)
  {
    assert (base + more)[|base|] == more[0];
  }

  /** An empty base has every path below it. */
  lemma EmptyBase(sub: string)
    ensures IsSubDirectory("", sub)
  {
  }

  /** ("/a", "/a") and ("/a/b", "/a/bc") are not subdirectory pairs;
      ("/a", "/a/b") is. */
  lemma SubDirectoryExamples()
    ensures !IsSubDirectory("/a", "/a")
    ensures !IsSubDirectory("/a/b", "/a/bc")
    ensures IsSubDirectory("/a", "/a/b")
  {
    NotItself("/a");
    assert "/a/bc" == "/a/b" + "c";
    SiblingNotBelow("/a/b", "c");
    assert "/a/b" == "/a" + "/" + "b";
    Below("/a", "b");
  }
}
