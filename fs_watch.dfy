/** The change-listener registry of 4_fsmon.go and the two filters of
    startFsWatch: which filesystem events are published, and which entries of
    the site directory walk get a watch. The fsnotify watcher and its goroutine
    are not modelled; a listener is an opaque handle. */
module FsWatch {
  import opened Text
  import opened SlashPath

  /** A listener function, as an opaque handle. */
  type Listener = nat

  /** One call Emit makes: the listener registered under id, given the name. */
  datatype Call = Call(id: int, fn: Listener, filename: string)

  /** The listener ids a sequence of calls reaches. */
  function CalledIds(calls: seq<Call>): set<int> {
    set c | c in calls :: c.id
  }

  /** FsWatcher. */
  class FsWatcher {
    var listeners: map<int, Listener>
    var filesToWatch: seq<Names>
    var nextID: int

    /** Ids handed out so far are exactly those below nextID, starting at 1,
        so every registered id is one of them. */
    ghost predicate Valid()
      reads this
    {
      nextID >= 1 && forall id :: id in listeners ==> 1 <= id < nextID
    }

    /** newFsWatcher. */
    constructor ()
      ensures listeners == map[] && filesToWatch == [] && nextID == 1
      ensures Valid()
    {
      listeners := map[];
      filesToWatch := [];
      nextID := 1;
    }

    /** Registers fn under a new id: the old nextID, which no listener holds. */
    method On(fn: Listener) returns (id: int)
      requires Valid()
      modifies this
      ensures id == old(nextID) && nextID == id + 1
      ensures id !in old(listeners) && listeners == old(listeners)[id := fn]
      ensures filesToWatch == old(filesToWatch)
      ensures Valid()
    {
      id := nextID;
      nextID := nextID + 1;
      listeners := listeners[id := fn];
    }

    /** Removes the listener under id; an unknown id changes nothing. */
    method Off(id: int)
      requires Valid()
      modifies this
      ensures listeners == old(listeners) - {id}
      ensures id !in old(listeners) ==> listeners == old(listeners)
      ensures nextID == old(nextID) && filesToWatch == old(filesToWatch)
      ensures Valid()
    {
      listeners := listeners - {id};
    }

    /** Calls every registered listener once with filename, in whatever order
        the map yields them; the registry does not change. */
    method Emit(filename: string) returns (calls: seq<Call>)
      ensures CalledIds(calls) == listeners.Keys
      ensures forall i, j :: 0 <= i < j < |calls| ==> calls[i].id != calls[j].id
      ensures forall c :: c in calls ==> c.id in listeners && c.fn == listeners[c.id] && c.filename == filename
    {
      var ids := Enumerate(listeners.Keys);
      calls := [];
      var i := 0;
      while i < |ids|
        invariant 0 <= i <= |ids| && |calls| == i
        invariant forall k :: 0 <= k < i ==> calls[k] == Call(ids[k], listeners[ids[k]], filename)
      {
        assert ids[i] in (set x | x in ids);
        calls := calls + [Call(ids[i], listeners[ids[i]], filename)];
        i := i + 1;
      }
      forall x | x in listeners.Keys ensures x in CalledIds(calls) {
        assert x in (set y | y in ids);
        var k :| 0 <= k < |ids| && ids[k] == x;
        assert calls[k] in calls;
      }
    }

    /** Add: the file, made absolute against the working directory cwd, is
        appended to the files to watch. */
    method Add(cwd: Names, filename: string)
      requires AllPlain(cwd)
      modifies this
      ensures filesToWatch == old(filesToWatch) + [Abs(cwd, filename)]
      ensures listeners == old(listeners) && nextID == old(nextID)
    {
      filesToWatch := filesToWatch + [Abs(cwd, filename)];
    }

    /** The event loop's reaction to one event: Emit on a write or a create,
        nothing otherwise. */
    method OnEvent(name: string, op: Op) returns (calls: seq<Call>)
      ensures !Publishes(op) ==> calls == []
      ensures Publishes(op) ==> CalledIds(calls) == listeners.Keys
      ensures forall c :: c in calls ==> c.id in listeners && c.filename == name
    {
      calls := [];
      if Publishes(op) {
        calls := Emit(name);
      }
    }
  }


  /** Off undoes On: removing the id On handed out gives back the registry
      as it was before. */
  lemma OffUndoesOn(listeners: map<int, Listener>, id: int, fn: Listener)
    requires id !in listeners
    ensures listeners[id := fn] - {id} == listeners
  {
  }

  // ------------------------------------------------------------ event filter

  /** fsnotify.Op: a bit set. */
  type Op = bv32

  const Create: Op := 1
  const Write: Op := 2
  const Remove: Op := 4
  const Rename: Op := 8
  const Chmod: Op := 16

  /** event.Has(Write | Create): the event carries at least one of the bits. */
  predicate Publishes(op: Op) {
    op & (Write | Create) != 0
  }

  /** Exactly the events with the Write bit or the Create bit are published. */
  lemma PublishesIff(op: Op)
    ensures Publishes(op) <==> (op & Write != 0 || op & Create != 0)
  {
  }

  /** A bare remove, rename or chmod is not published; a write that also
      changes mode is. */
  lemma PublishesExamples()
    ensures !Publishes(Remove) && !Publishes(Rename) && !Publishes(Chmod)
    ensures Publishes(Write | Chmod) && Publishes(Create)
  {
  }

  // ------------------------------------------------------------ watch walk

  /** One entry of the walk: its path relative to the site directory ("." for
      the directory itself) and whether it is a directory. */
  datatype Entry = Entry(path: string, isDir: bool)

  /** The walk callback: an entry other than the root whose relative path
      starts with '.' is passed over; of the rest, directories are watched. */
  predicate Watched(e: Entry)
    requires e.path != ""
  {
    !(e.path != "." && e.path[0] == '.') && e.isDir
  }

  /** The directories of the walk that get a watch, in walk order. */
  function WatchedOf(entries: seq<Entry>): seq<string>
    requires forall e :: e in entries ==> e.path != ""
  {
    if entries == [] then []
    else (if Watched(entries[0]) then [entries[0].path] else []) + WatchedOf(entries[1..])
  }

  /** The paths the walk watches, in walk order. */
  method WatchWalk(entries: seq<Entry>) returns (dirs: seq<string>)
    requires forall e :: e in entries ==> e.path != ""
    ensures dirs == WatchedOf(entries)
  {
    dirs := [];
    var i := |entries|;
    while i > 0
      invariant 0 <= i <= |entries|
      invariant dirs == WatchedOf(entries[i..])
    {
      i := i - 1;
      assert entries[i..][1..] == entries[i + 1..];
      if Watched(entries[i]) {
        dirs := [entries[i].path] + dirs;
      }
    }
  }

  /** Only directories are watched, never a hidden top-level entry or anything
      below one, and every other directory is. */
  lemma {:induction false} WatchedOfIff(entries: seq<Entry>, p: string)
    requires forall e :: e in entries ==> e.path != ""
    ensures p in WatchedOf(entries) <==>
      (exists e :: e in entries && e.path == p && e.isDir && (p == "." || p[0] != '.'))
  {
    if entries != [] {
      assert forall e :: e in entries[1..] ==> e in entries;
      WatchedOfIff(entries[1..], p);
      assert forall e :: e in entries ==> e == entries[0] || e in entries[1..];
    }
  }

  /** The root is watched; ".git" and ".git/objects" are not; a dot-directory
      below the top level, such as "posts/.drafts", is. */
  lemma WatchedExamples()
    ensures Watched(Entry(".", true))
    ensures !Watched(Entry(".git", true)) && !Watched(Entry(".git/objects", true))
    ensures Watched(Entry("posts/.drafts", true))
    ensures !Watched(Entry("index.html.lua", false))
  {
  }
}
