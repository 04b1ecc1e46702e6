/** The site builder of 1_build.go: the queue of links waiting to be built,
    the set of links already built in this pass, and BuildAll, which drains
    the queue (renders may queue more links as they run) and then builds the
    plain Lua files that have an extension. Rendering a page is abstract: a map
    from each link whose page renders to the links its render queues, in order;
    a link missing from the map is a page whose build fails. */
module Build {
  import opened Wrappers
  import opened Text
  import opened SlashPath

  /** link -> the links its render passes to queueLink, in order. */
  type Renders = map<string, seq<string>>

  /** The link with everything from its first '#' removed. */
  function StripHash(link: string): (r: string)
    ensures '#' !in r && r <= link
    ensures '#' !in link ==> r == link
  {
    var i := Index(link, '#');
    if i >= 0 then link[..i] else link
  }

  /** A second strip changes nothing. */
  lemma StripHashIdempotent(link: string)
    ensures StripHash(StripHash(link)) == StripHash(link)
  {
  }

  /** The queue after queueLink for each of links in turn, with done fixed
      while they run: a link is appended iff it is not in done. */
  function Enqueue(queue: seq<string>, done: set<string>, links: seq<string>): (r: seq<string>)
  {
    if links == [] then queue
    else
      var before := Enqueue(queue, done, links[..|links| - 1]);
      var l := links[|links| - 1];
      if l in done then before else before + [l]
  }

  /** The queue keeps its order and contents, and every queued link is either
      done already or now in the queue. */
  lemma {:induction false} EnqueueKeeps(queue: seq<string>, done: set<string>, links: seq<string>)
    ensures queue <= Enqueue(queue, done, links)
    ensures forall l :: l in links ==> l in done || l in Enqueue(queue, done, links)
  {
    if links != [] {
      var front := links[..|links| - 1];
      EnqueueKeeps(queue, done, front);
      assert links == front + [links[|links| - 1]];
    }
  }

  /** The result of draining the queue: the links built (stripped, in order),
      the ones whose source file was missing, the link whose build failed (the
      source panics there), and done and the queue as they are left. */
  datatype Pass = Pass(built: seq<string>, notFound: seq<string>, failed: Option<string>, done: set<string>, queue: seq<string>)

  /** The first loop of BuildAll: take the head of the queue, strip it, skip it
      when done, log it when its source file is missing, build it (its render
      queueing further links) and mark it done. A pass stops early only at a
      link that does not render, and that link is left not done. */
  function Drain(queue: seq<string>, done: set<string>, render: Renders, missing: set<string>): (r: Pass)
    ensures r.failed.None? ==> r.queue == []
    ensures r.failed.Some? ==> r.failed.value !in render && r.failed.value !in r.done
    decreases |render.Keys - done|, |queue|
  {
    if queue == [] then Pass([], [], None, done, [])
    else
      var link := StripHash(queue[0]);
      var rest := queue[1..];
      if link in done then Drain(rest, done, render, missing)
      else
        var log := if link in missing then [link] else [];
        if link !in render then Pass([], log, Some(link), done, rest)
        else
          assert render.Keys - (done + {link}) == (render.Keys - done) - {link};
          var next := Drain(Enqueue(rest, done, render[link]), done + {link}, render, missing);
          Pass([link] + next.built, log + next.notFound, next.failed, next.done, next.queue)
  }

  /** Builds already made, put in front of a pass. */
  function After(built: seq<string>, notFound: seq<string>, p: Pass): Pass {
    Pass(built + p.built, notFound + p.notFound, p.failed, p.done, p.queue)
  }

  lemma DrainSkip(queue: seq<string>, done: set<string>, render: Renders, missing: set<string>)
    requires queue != [] && StripHash(queue[0]) in done
    ensures Drain(queue, done, render, missing) == Drain(queue[1..], done, render, missing)
  {
  }

  lemma DrainFail(queue: seq<string>, done: set<string>, render: Renders, missing: set<string>)
    requires queue != [] && StripHash(queue[0]) !in done && StripHash(queue[0]) !in render
    ensures var link := StripHash(queue[0]);
      Drain(queue, done, render, missing) ==
      After([], if link in missing then [link] else [], Pass([], [], Some(link), done, queue[1..]))
  {
  }

  lemma DrainBuild(queue: seq<string>, done: set<string>, render: Renders, missing: set<string>)
    requires queue != [] && StripHash(queue[0]) !in done && StripHash(queue[0]) in render
    ensures var link := StripHash(queue[0]);
      Drain(queue, done, render, missing) ==
      After([link], if link in missing then [link] else [],
            Drain(Enqueue(queue[1..], done, render[link]), done + {link}, render, missing))
    ensures |render.Keys - (done + {StripHash(queue[0])})| < |render.Keys - done|
  {
    var link := StripHash(queue[0]);
    assert render.Keys - (done + {link}) == (render.Keys - done) - {link};
  }

  /** What is left of a pass after some turns: the rest of the drain, or the
      failure the last turn stopped at. */
  function Remaining(failed: Option<string>, done: set<string>, queue: seq<string>, render: Renders, missing: set<string>): Pass {
    if failed.None? then Drain(queue, done, render, missing) else Pass([], [], failed, done, queue)
  }

  lemma AfterAfter(b1: seq<string>, n1: seq<string>, b2: seq<string>, n2: seq<string>, p: Pass)
    ensures After(b1, n1, After(b2, n2, p)) == After(b1 + b2, n1 + n2, p)
  {
    assert b1 + (b2 + p.built) == (b1 + b2) + p.built;
    assert n1 + (n2 + p.notFound) == (n1 + n2) + p.notFound;
  }

  /** Each link is built at most once per pass, never one that was done
      before, and done ends up holding exactly the links built besides. */
  lemma {:induction false} DrainBuildsOnce(queue: seq<string>, done: set<string>, render: Renders, missing: set<string>)
    ensures var p := Drain(queue, done, render, missing);
      Distinct(p.built) && Elems(p.built) !! done && p.done == done + Elems(p.built)
    decreases |render.Keys - done|, |queue|
  {
    if queue != [] {
      var link := StripHash(queue[0]);
      if link in done {
        DrainBuildsOnce(queue[1..], done, render, missing);
      } else if link in render {
        assert render.Keys - (done + {link}) == (render.Keys - done) - {link};
        var next := Drain(Enqueue(queue[1..], done, render[link]), done + {link}, render, missing);
        DrainBuildsOnce(Enqueue(queue[1..], done, render[link]), done + {link}, render, missing);
        Cons(link, next.built);
      }
    }
  }

  /** Links with no '#', as done holds. */
  predicate Stripped(done: set<string>) {
    forall d :: d in done ==> '#' !in d
  }

  /** A pass that does not fail leaves nothing queued, and every link that
      was queued before it or by one of its renders has been built in it or
      was done before it. */
  lemma {:induction false} DrainCloses(queue: seq<string>, done: set<string>, render: Renders, missing: set<string>)
    requires Stripped(done)
    ensures var p := Drain(queue, done, render, missing);
      p.failed.None? ==>
        p.queue == [] &&
        (forall q :: q in queue ==> StripHash(q) in p.done) &&
        (forall b, l :: b in p.built && b in render && l in render[b] ==> StripHash(l) in p.done)
    decreases |render.Keys - done|, |queue|
  {
    if queue != [] {
      var link := StripHash(queue[0]);
      var rest := queue[1..];
      DrainBuildsOnce(queue, done, render, missing);
      if link in done {
        DrainCloses(rest, done, render, missing);
        assert forall q :: q in queue ==> q == queue[0] || q in rest;
      } else if link in render {
        assert render.Keys - (done + {link}) == (render.Keys - done) - {link};
        var q2 := Enqueue(rest, done, render[link]);
        DrainCloses(q2, done + {link}, render, missing);
        DrainBuildsOnce(q2, done + {link}, render, missing);
        EnqueueKeeps(rest, done, render[link]);
        ClosesStep(queue, done, render, missing);
      }
    }
  }

  /** The step of DrainCloses for a link that is built. */
  lemma ClosesStep(queue: seq<string>, done: set<string>, render: Renders, missing: set<string>)
    requires Stripped(done) && queue != []
    requires StripHash(queue[0]) !in done && StripHash(queue[0]) in render
    requires var link := StripHash(queue[0]);
      var q2 := Enqueue(queue[1..], done, render[link]);
      var next := Drain(q2, done + {link}, render, missing);
      (next.failed.None? ==>
        next.queue == [] &&
        (forall q :: q in q2 ==> StripHash(q) in next.done) &&
        (forall b, l :: b in next.built && b in render && l in render[b] ==> StripHash(l) in next.done)) &&
      next.done == done + {link} + Elems(next.built) &&
      queue[1..] <= q2 &&
      (forall l :: l in render[link] ==> l in done || l in q2)
    ensures var p := Drain(queue, done, render, missing);
      p.failed.None? ==>
        p.queue == [] &&
        (forall q :: q in queue ==> StripHash(q) in p.done) &&
        (forall b, l :: b in p.built && b in render && l in render[b] ==> StripHash(l) in p.done)
  {
    var link := StripHash(queue[0]);
    var q2 := Enqueue(queue[1..], done, render[link]);
    var next := Drain(q2, done + {link}, render, missing);
    var p := Drain(queue, done, render, missing);
    assert p.done == next.done && p.built == [link] + next.built && p.failed == next.failed;
    if p.failed.None? {
      forall q | q in queue ensures StripHash(q) in p.done {
        if q != queue[0] {
          assert q in queue[1..];
          assert q in q2;
        }
      }
      forall b, l | b in p.built && b in render && l in render[b] ensures StripHash(l) in p.done {
        if b == link && l in done {
          assert StripHash(l) == l;
        }
      }
    }
  }

  /** The stripped links of queue that are not done, each once, in queue order. */
  function Fresh(queue: seq<string>, done: set<string>): seq<string> {
    if queue == [] then []
    else
      var s := StripHash(queue[0]);
      if s in done then Fresh(queue[1..], done) else [s] + Fresh(queue[1..], done + {s})
  }

  /** First in, first out: whatever waits in the queue when the pass starts is
      built, in queue order, before any link a render queues. */
  lemma {:induction false} DrainInOrder(queue: seq<string>, later: seq<string>, done: set<string>, render: Renders, missing: set<string>)
    requires forall q :: q in queue ==> StripHash(q) in done || StripHash(q) in render
    ensures Fresh(queue, done) <= Drain(queue + later, done, render, missing).built
    decreases |render.Keys - done|, |queue|
  {
    if queue != [] {
      var link := StripHash(queue[0]);
      var rest := queue[1..];
      assert forall q :: q in rest ==> q in queue;
      if link in done {
        DrainInOrder(rest, later, done, render, missing);
        OrderSkipStep(queue, later, done, render, missing);
      } else {
        assert queue[0] in queue;
        assert render.Keys - (done + {link}) == (render.Keys - done) - {link};
        var q2 := Enqueue(rest + later, done, render[link]);
        EnqueueKeeps(rest + later, done, render[link]);
        var more := q2[|rest + later|..];
        PrefixSplit(rest, later, q2);
        DrainInOrder(rest, later + more, done + {link}, render, missing);
        OrderBuildStep(queue, later, more, done, render, missing);
      }
    }
  }

  lemma PrefixSplit(a: seq<string>, b: seq<string>, q: seq<string>)
    requires a + b <= q
    ensures q == a + (b + q[|a + b|..])
  {
    assert q == (a + b) + q[|a + b|..];
  }

  /** The step of DrainInOrder for a head that is done already. */
  lemma OrderSkipStep(queue: seq<string>, later: seq<string>, done: set<string>, render: Renders, missing: set<string>)
    requires queue != [] && StripHash(queue[0]) in done
    requires Fresh(queue[1..], done) <= Drain(queue[1..] + later, done, render, missing).built
    ensures Fresh(queue, done) <= Drain(queue + later, done, render, missing).built
  {
    var full := queue + later;
    assert full[0] == queue[0] && full[1..] == queue[1..] + later;
    DrainSkip(full, done, render, missing);
  }

  /** The step of DrainInOrder for a head that is built: the links its render
      queues (more) go behind everything already waiting. */
  lemma OrderBuildStep(queue: seq<string>, later: seq<string>, more: seq<string>, done: set<string>, render: Renders, missing: set<string>)
    requires queue != [] && StripHash(queue[0]) !in done && StripHash(queue[0]) in render
    requires Enqueue(queue[1..] + later, done, render[StripHash(queue[0])]) == queue[1..] + (later + more)
    requires var link := StripHash(queue[0]);
      Fresh(queue[1..], done + {link}) <= Drain(queue[1..] + (later + more), done + {link}, render, missing).built
    ensures Fresh(queue, done) <= Drain(queue + later, done, render, missing).built
  {
    var link := StripHash(queue[0]);
    var full := queue + later;
    assert full[0] == queue[0] && full[1..] == queue[1..] + later;
    DrainBuild(full, done, render, missing);
    var tail := Drain(queue[1..] + (later + more), done + {link}, render, missing).built;
    assert Drain(full, done, render, missing).built == [link] + tail;
    assert Fresh(queue, done) == [link] + Fresh(queue[1..], done + {link});
  }

  /** The second loop of BuildAll: the plain Lua files, skipping those without
      an extension; the first build that fails stops it. Only listed files that
      have an extension and render are built. */
  function PlainPass(plain: seq<string>, render: Renders): (r: (seq<string>, Option<string>))
    ensures forall p :: p in r.0 ==> p in plain && Ext(p) != "" && p in render
    ensures |r.0| <= |plain|
  {
    if plain == [] then ([], None)
    else
      var p := plain[0];
      if Ext(p) == "" then PlainPass(plain[1..], render)
      else if p !in render then ([], Some(p))
      else
        var next := PlainPass(plain[1..], render);
        ([p] + next.0, next.1)
  }

  /** The plain files that have an extension, in listed order. */
  function WithExt(plain: seq<string>): seq<string> {
    if plain == [] then [] else (if Ext(plain[0]) == "" then [] else [plain[0]]) + WithExt(plain[1..])
  }

  /** A second pass that does not fail builds each file with an extension, in
      listed order, and nothing else; one that fails stops at a file with an
      extension whose build fails. */
  lemma {:induction false} PlainPassBuilds(plain: seq<string>, render: Renders)
    ensures PlainPass(plain, render).1.None? ==> PlainPass(plain, render).0 == WithExt(plain)
    ensures PlainPass(plain, render).1.Some? ==>
      var f := PlainPass(plain, render).1.value;
      f in plain && Ext(f) != "" && f !in render
  {
    if plain != [] {
      PlainPassBuilds(plain[1..], render);
    }
  }

  /** style.css.lua is built as style.css; lib/util.lua is a module. */
  lemma ExtExamples()
    ensures Ext("style.css") == ".css"
    ensures Ext("lib/util") == ""
  {
    assert "style.css" == "style" + "." + "css";
    ExtOf("style", "css");
    assert "lib/util" == "lib" + "/" + "util";
    ExtNone("lib", "util");
  }

  datatype Failure = ListError(msg: string) | BuildError(link: string)

  /** What BuildAll did: the links built (first pass, then second), those
      logged as missing, and why it stopped early, if it did. A BuildError is
      the panic of the source. */
  datatype Report = Report(built: seq<string>, notFound: seq<string>, failure: Option<Failure>)

  /** BuildAll: queue the page links, drain the queue, then the plain files.
      Also the queue it leaves behind. */
  function BuildAllOf(queue: seq<string>, done: set<string>, pages: Result<seq<string>>, plain: Result<seq<string>>,
                      render: Renders, missing: set<string>): (Report, seq<string>)
  {
    if pages.Err? then (Report([], [], Some(ListError(pages.msg))), queue)
    else
      var p := Drain(Enqueue(queue, done, pages.value), done, render, missing);
      if p.failed.Some? then (Report(p.built, p.notFound, Some(BuildError(p.failed.value))), p.queue)
      else if plain.Err? then (Report(p.built, p.notFound, Some(ListError(plain.msg))), p.queue)
      else
        var second := PlainPass(plain.value, render);
        (Report(p.built + second.0, p.notFound, if second.1.Some? then Some(BuildError(second.1.value)) else None), p.queue)
  }

  /** siteBuilder. */
  class SiteBuilder {
    var done: set<string>
    var buildQueue: seq<string>

    constructor ()
      ensures done == {} && buildQueue == []
    {
      done := {};
      buildQueue := [];
    }

    method QueueLink(link: string)
      modifies this
      ensures done == old(done)
      ensures buildQueue == if link in done then old(buildQueue) else old(buildQueue) + [link]
    {
      if link !in done {
        buildQueue := buildQueue + [link];
      }
    }

    /** queueLink for each link, as a render does. */
    method QueueAll(links: seq<string>)
      modifies this
      ensures done == old(done) && buildQueue == Enqueue(old(buildQueue), done, links)
    {
      var i := 0;
      while i < |links|
        invariant 0 <= i <= |links| && done == old(done)
        invariant buildQueue == Enqueue(old(buildQueue), done, links[..i])
      {
        assert links[..i + 1][..i] == links[..i];
        QueueLink(links[i]);
        i := i + 1;
      }
      assert links[..i] == links;
    }

    /** One turn of the first loop of BuildAll: the links it built and logged,
        and the link whose build failed, if one did. */
    method BuildHead(render: Renders, missing: set<string>) returns (built: seq<string>, notFound: seq<string>, failed: Option<string>)
      requires buildQueue != []
      modifies this
      ensures Drain(old(buildQueue), old(done), render, missing) ==
        After(built, notFound, Remaining(failed, done, buildQueue, render, missing))
      ensures |render.Keys - done| < |render.Keys - old(done)| ||
        (done == old(done) && |buildQueue| < |old(buildQueue)|)
    {
      ghost var q := buildQueue;
      var link := StripHash(buildQueue[0]);
      buildQueue := buildQueue[1..];
      failed := None;
      built := [];
      notFound := [];
      if link in done {
        DrainSkip(q, done, render, missing);
        assert After([], [], Drain(buildQueue, done, render, missing)) == Drain(buildQueue, done, render, missing);
        return;
      }
      if link in missing {
        notFound := [link];
      }
      if link !in render {
        DrainFail(q, done, render, missing);
        failed := Some(link);
        return;
      }
      DrainBuild(q, done, render, missing);
      QueueAll(render[link]);
      done := done + {link};
      built := [link];
    }

    /** The first loop of BuildAll. */
    method DrainQueue(render: Renders, missing: set<string>) returns (p: Pass)
      modifies this
      ensures p == Drain(old(buildQueue), old(done), render, missing)
      ensures done == p.done && buildQueue == p.queue
    {
      var built: seq<string> := [];
      var notFound: seq<string> := [];
      var failed: Option<string> := None;
      ghost var whole := Drain(buildQueue, done, render, missing);
      assert After([], [], whole) == whole;
      while buildQueue != [] && failed.None?
        invariant After(built, notFound, Remaining(failed, done, buildQueue, render, missing)) == whole
        decreases |render.Keys - done|, |buildQueue|, if failed.None? then 1 else 0
      {
        var b, n, f := BuildHead(render, missing);
        AfterAfter(built, notFound, b, n, Remaining(f, done, buildQueue, render, missing));
        built := built + b;
        notFound := notFound + n;
        failed := f;
      }
      if failed.None? {
        assert Drain([], done, render, missing) == Pass([], [], None, done, []);
      }
      p := After(built, notFound, Pass([], [], failed, done, buildQueue));
    }

    /** The second loop of BuildAll over the plain Lua files; it stops at the
        first build that fails. */
    method BuildPlain(plain: seq<string>, render: Renders) returns (built: seq<string>, failed: Option<string>)
      ensures (built, failed) == PlainPass(plain, render)
    {
      built := [];
      var i := 0;
      assert plain[0..] == plain;
      assert [] + PlainPass(plain, render).0 == PlainPass(plain, render).0;
      while i < |plain|
        invariant 0 <= i <= |plain|
        invariant PlainPass(plain, render) == (built + PlainPass(plain[i..], render).0, PlainPass(plain[i..], render).1)
      {
        var f := plain[i];
        assert plain[i..][0] == f && plain[i..][1..] == plain[i + 1..];
        if Ext(f) == "" {
          i := i + 1;
          continue;
        }
        if f !in render {
          assert PlainPass(plain, render) == (built + [], Some(f));
          assert built + [] == built;
          return built, Some(f);
        }
        ghost var next := PlainPass(plain[i + 1..], render);
        assert built + ([f] + next.0) == (built + [f]) + next.0;
        built := built + [f];
        i := i + 1;
      }
      assert plain[i..] == [] && built + [] == built;
      failed := None;
    }

    /** BuildAll. done is cleared on every way out. */
    method BuildAll(pages: Result<seq<string>>, plain: Result<seq<string>>, render: Renders, missing: set<string>)
      returns (r: Report)
      modifies this
      ensures (r, buildQueue) == BuildAllOf(old(buildQueue), old(done), pages, plain, render, missing)
      ensures done == {}
    {
      if pages.Err? {
        r := Report([], [], Some(ListError(pages.msg)));
        done := {};
        return;
      }
      QueueAll(pages.value);
      var p := DrainQueue(render, missing);
      if p.failed.Some? {
        r := Report(p.built, p.notFound, Some(BuildError(p.failed.value)));
        done := {};
        return;
      }
      if plain.Err? {
        r := Report(p.built, p.notFound, Some(ListError(plain.msg)));
        done := {};
        return;
      }
      var second, failed := BuildPlain(plain.value, render);
      if failed.Some? {
        r := Report(p.built + second, p.notFound, Some(BuildError(failed.value)));
        done := {};
        return;
      }
      r := Report(p.built + second, p.notFound, None);
      done := {};
    }
  }
}
