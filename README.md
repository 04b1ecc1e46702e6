# moontpl core, modelled in Dafny

moontpl is a static-site generator whose pages are Lua scripts. This project
models the bookkeeping that surrounds its Lua interpreter and proves
properties of it. The interpreter itself is not modelled. The parts modelled
are:

- `path_param.dfy` (module `PathParam`): the path-parameter codec of
  dynamic page names such as `/post[x=1,y=2].html`. It covers parsing
  (`getPathParams`, `extractPathParams`), serialising (`SetPathParams`) and
  detecting (`hasPathParams`).
- `slash_path.dfy` (module `SlashPath`): `relativeFrom` and the slash-path
  arithmetic it uses (`filepath.Abs`, `Dir`, `Rel`, `Ext` on `/`-separated
  paths).
- `dep_table.dfy` (module `Deps`): the dependency table, module → set of
  modules that required it. It also holds the reachability specification
  of "everything that depends on a module".
- `mod_cache.dfy` (module `ModCache`):
  - `getModuleName`;
  - the `DependencyTracker` that wraps `require`;
  - the pool of idle interpreter states (`lStatePool`);
  - the worklist that forgets a changed module and everything depending on
    it.
- `lua_state.dfy` (module `LuaState`):
  - the per-state registry (`SetInternalVar`, `GetInternalVar` and the
    state cache);
  - the recursion guard and caching of `getPages`;
  - `AddLuaPath`.
- `build.dfy` (module `Build`): the site builder. It has a FIFO queue of
  links, a done set, `queueLink`, and the two passes of `BuildAll`.
- `fs_watch.dfy` (module `FsWatch`):
  - the listener registry (`On`, `Off`, `Emit`, `Add`);
  - the event filter and the watch-walk filter of `startFsWatch`.
- `loader.dfy` (module `Loader`): the module search along `package.path`
  (`loFindFile`) and the loader function `LoadFile`.
- `docgen.dfy` (module `Docgen`): the line splitter `getLines` and the doc
  comment extractor `extractDocumentation`.
- `aux.dfy` (module `Aux`): `isSubDirectory`.
- `text.dfy` (module `Text`) and `wrappers.dfy` (module `Wrappers`): the
  string library calls the core relies on, and the `Option` and `Result`
  types.

## How the source is modelled

Code that updates state in place becomes a class:

| Class | Source type |
|---|---|
| `DepTable` | `dependencyTable` |
| `DependencyTracker` | `DependencyTracker` |
| `StatePool` | `lStatePool` |
| `State` | one interpreter state |
| `SiteBuilder` | `siteBuilder` |
| `FsWatcher` | `FsWatcher` |
| `LuaPath` | `lua.LuaPathDefault` |

Each method of these classes is proved against a specification function:

| Method | Specification function |
|---|---|
| `DrainQueue` | `Drain` |
| `BuildPlain` | `PlainPass` |
| `Wrap` | `RunLoad` |
| `SetPathParams` | `SetParams` |
| `GetPages` | `GetPagesStep` |
| `ExtractDocumentation` | `Body` and `Lines` |

The lemmas then state what the source promises about those functions.

Loops in the source stay loops, with their invariants:

- the parse loop;
- the merge, key-sort and join loops of `SetPathParams`;
- the worklist of `resetModuleDependents`;
- the drain loop and the plain-file loop of `BuildAll`;
- the pattern loop of `loFindFile`;
- the index loops of `getLines`;
- the line loop of `extractDocumentation`.

Whatever lies outside the core becomes a parameter or an oracle:

| Outside the core | Modelled as |
|---|---|
| Lua rendering | a map `Renders` from a link to the links its render queues, or absent when the build fails |
| the file system | `stat`, `read` |
| Lua compilation | `compile` |
| a module's nested requires | the `Load` tree |
| the working directory | `cwd` |

The regular expression `\[.*?\]` of the codec is modelled exactly:

- `FindGroup` finds the leftmost `[` followed by a `]` with no newline in
  between, because `.` does not match a newline.
- `HasPathParams` requires at least one character between the brackets (`.+?`).

Three behaviours of the source are easy to misread, and the model keeps them as written:

- **hasPathParams.** It needs at least one character that is not a newline
  between `[` and `]`, so `[]]` has parameters and `[]` does not.
- **Missing links.** A link whose source file is missing is logged, and then
  it is built anyway. A failing build ends the pass (the source panics).
- **Hidden entries in the watch walk.** The walk skips every entry whose
  relative path starts with `.`. Paths below a hidden top-level directory
  start with `.` too, so they are skipped as well. A hidden directory deeper
  down, such as `posts/.drafts`, is watched.

## Model

| member | source | states |
|---|---|---|
| PathParam.CloseAt | 4_path_param.go:13-14 | the lazy `.*?\]` stops at the first `]`, which must come before any newline; none when no `]` precedes a newline |
| PathParam.FindGroup | 4_path_param.go:13-14 | a match found spans `[`, text without `]` or newline, `]` |
| PathParam.FindGroupLeftmost | 4_path_param.go:13-14 | the group found is the leftmost position where the pattern can match; no group means no position matches |
| PathParam.Strip | 4_path_param.go:48 | removing every group never lengthens the name |
| PathParam.NoOpenNoGroup | 4_path_param.go:16-17 | a name without `[` has no group and is returned unchanged by the group removal |
| PathParam.ParseEntryList | 4_path_param.go:19-27 | the parse loop builds the map of the entries in order: split at the first `=`, trim key and value, skip entries without `=`, later keys override |
| PathParam.GetPathParams | 4_path_param.go:12-29 | the parameters of the first group; an empty map when there is no group |
| PathParam.ExtractPathParams | 4_path_param.go:31-49 | the same map as getPathParams, plus the name with every group removed; the name is unchanged when it has no group |
| PathParam.ParamsOfClean | 4_path_param.go:19-27 | every parsed key and value is trimmed and contains no `,`, `]` or newline; keys contain no `=` |
| PathParam.ParseEntriesClean | 4_path_param.go:19-27 | parsing entries free of `,`, `]` and newline yields only clean keys and values |
| PathParam.ApplyCleanEntry | 4_path_param.go:20-26 | an entry `k=v` with clean k and v binds exactly k to v |
| PathParam.EntriesTrimmed | 4_path_param.go:20-26 | two entries with `=` only as separator parse to their trimmed keys and values, the later one winning |
| PathParam.ParseEntriesOf | 4_path_param.go:19-27 | parsing the `k=v` entries of clean keys gives back exactly those keys' bindings |
| PathParam.DotIndex | 4_path_param.go:88-91 | the insertion point is the first `.`, or the end when there is none |
| PathParam.SortStrings | 4_path_param.go:81 | the distinct keys come out in strictly ascending order, with the same elements |
| PathParam.MergeParams | 4_path_param.go:72-74 | the merge loop yields the old map overridden by the new values |
| PathParam.SortedKeys | 4_path_param.go:76-81 | collecting the keys and sorting them gives the ascending key sequence of the map |
| PathParam.EntryList | 4_path_param.go:83-86 | one `k=v` entry per key, in key order |
| PathParam.GroupText | 4_path_param.go:76-87 | the group text is the entries in ascending key order, comma-separated |
| PathParam.ComposeName | 4_path_param.go:87-92 | the group goes before the first `.` of the stripped name, or at its end |
| PathParam.SetPathParams | 4_path_param.go:51-94 | the input itself for an empty map; otherwise all groups are removed and one canonical group with the merged parameters is inserted |
| PathParam.BodyRoundTrip | 4_path_param.go:83-87 | the group text of clean parameters has no `]` or newline, and splitting and parsing it gives the parameters back |
| PathParam.BodyNonEmpty | 4_path_param.go:83-87 | a non-empty map has a non-empty group text |
| PathParam.GroupAt | 4_path_param.go:13-14 | after text without `[`, the group placed there is the one found, and its inner text is what was placed |
| PathParam.FindGroupPrefix | 4_path_param.go:13-14 | text without `[` in front only shifts the group found |
| PathParam.StripAt | 4_path_param.go:48 | group removal drops a placed group and keeps the text around it |
| PathParam.PlaceGroup | 4_path_param.go:88-92 | the inserted group is the group found in the result |
| PathParam.PlaceStrip | 4_path_param.go:88-92 | removing the inserted group gives the stripped name back |
| PathParam.ComposeRoundTrip | 4_path_param.go:55-94 | round trip: extractPathParams of the composed name gives back exactly the parameters and the bare name |
| PathParam.ComposeHasParams | 4_path_param.go:87-92 | a composed name with clean non-empty parameters matches `\[.+?\]` |
| PathParam.SetParamsOverride | 4_path_param.go:55-94 | after SetPathParams the name holds the old parameters overridden by the new ones, and the rest of the name is unchanged |
| PathParam.SetParamsHasParams | 4_path_param.go:55-94 | hasPathParams holds for what SetPathParams returns when the map is non-empty |
| PathParam.SetParamsIdempotent | 4_path_param.go:55-94 | setting the same parameters twice equals setting them once |
| PathParam.SetParamsOfPlain | 4_path_param.go:51-94 | a name without a group gets one group holding just the new parameters |
| PathParam.SetParamsOfPlaced | 4_path_param.go:55-94 | a name with one group gets the group rebuilt from its parsed parameters merged with the new ones |
| PathParam.PlaceInto | 4_path_param.go:88-92 | the group lands before the first `.`, or at the end |
| PathParam.SetParamsNew | 4_path_param.go:55-94 | a plain name without `.` gets `[k=v]` appended |
| PathParam.SetParamsReplaceOne | 4_path_param.go:55-94 | a one-entry group gets its value replaced in place |
| PathParam.SetParamsReplaceFirst | 4_path_param.go:55-94 | in a two-entry group the given key is replaced and the other entry is kept |
| PathParam.HasPathParams | 4_path_param.go:97-103 | a name with path parameters holds both a `[` and a `]` |
| PathParam.HasPathParamsIff | 4_path_param.go:97-103 | hasPathParams holds iff some `[` is followed, at least one character later and with no newline in between, by a `]` |
| PathParam.ParamsOfOne | lua_test.go:13 | `/test[x=1].html` has parameters {x: 1} |
| PathParam.ParamsOfTwo | lua_test.go:14 | `/test[aa=bb,cc=dddd].html` has parameters {aa: bb, cc: dddd} |
| PathParam.ParamsOfSpaced | lua_test.go:15 | keys and values are trimmed: {key: value, a: 123} |
| PathParam.ParamsOfEmptyGroup | lua_test.go:16-17 | `/test[].html` and `/test.html` have no parameters |
| PathParam.SetParamsAppend | lua_test.go:40-44 | the empty map leaves `""` and `/test` alone; `/test` with {x: 2} becomes `/test[x=2]` |
| PathParam.SetParamsReplace | lua_test.go:41 | `/test[x=1].html` with {x: 2} becomes `/test[x=2].html` |
| PathParam.SetParamsReplaceAtEnd | lua_test.go:42 | `/test[x=1]` with {x: 2} becomes `/test[x=2]` |
| PathParam.SetParamsKeepOthers | lua_test.go:45 | `/test[x=1,y=2].html` with {x: 3} becomes `/test[x=3,y=2].html` |
| SlashPath.Step | 4_path_param.go:109 | cleaning one element: `""` and `.` vanish, `..` drops a name but never leaves the root, a plain name is appended |
| SlashPath.ResolveKeepsPlain | 4_path_param.go:109 | cleaning leaves only plain names |
| SlashPath.Abs | 4_path_param.go:109 | an absolute path is resolved from the root, a relative one from the working directory; the result has only plain names |
| SlashPath.DirOf | 4_path_param.go:109 | the directory part is the prefix up to the last `/`, and no `/` follows it |
| SlashPath.CommonPrefix | 4_path_param.go:109 | the longest shared leading run of names |
| SlashPath.ResolveUps | 4_path_param.go:109 | each `..` climbs exactly one name |
| SlashPath.RelResolves | 4_path_param.go:109 | resolving the elements of Rel from the base gives the target |
| SlashPath.RelRoundTrip | 4_path_param.go:109 | joining Rel(base, targ) onto base and cleaning gives targ back, and the result is never absolute |
| SlashPath.RelBelow | 4_path_param.go:109 | a target below the base gets no `..`: the rest of its names, or `.` for the base itself |
| SlashPath.RelClimbs | 4_path_param.go:109 | otherwise the result climbs one `..` per base name outside the shared prefix |
| SlashPath.RelativeFrom | 4_path_param.go:105-110 | the link relativeFrom returns is never absolute |
| SlashPath.RelativeFromRelative | 4_path_param.go:106-108 | a link that is not absolute is returned unchanged |
| SlashPath.RelativeFromRoundTrip | 4_path_param.go:105-110 | an absolute link becomes a relative one that, resolved against the source page's directory, names the same file |
| SlashPath.RelativeFromRooted | 4_path_param.go:105-110 | for rooted paths written name by name, relativeFrom is Rel of the page's directory names and the target's names |
| SlashPath.RelativeFromUp | lua_test.go:56 | `/a.png` from `/dir1/index.html` is `../a.png`, for any working directory |
| SlashPath.RelativeFromAcross | lua_test.go:57 | `/dir2/a.png` from `/dir1/index.html` is `../dir2/a.png` |
| SlashPath.RelativeFromSameDir | lua_test.go:58 | `/dir1/a.png` from `/dir1/index.html` is `a.png` |
| SlashPath.RelativeFromDown | lua_test.go:59 | `/dir1/dir3/a.png` from `/dir1/index.html` is `dir3/a.png` |
| SlashPath.RelativeFromKept | lua_test.go:60 | the relative link `a.png` is kept |
| SlashPath.Ext | 1_build.go:118 | the extension is a suffix of the path; it is empty or starts with `.` and holds no `/` |
| SlashPath.ExtOf | 1_build.go:118 | the extension of a last element with a `.` runs from its last `.` |
| SlashPath.ExtNone | 1_build.go:118 | a last element without a `.` has no extension |
| Aux.DirPrefix | 6_aux.go:65-67 | a non-empty base without a trailing separator gets exactly one appended; otherwise it is kept, and the empty base stays empty |
| Aux.IsSubDirectory | 6_aux.go:64-69 | a subdirectory path starts with the base, and with a separator right after a base given without one |
| Aux.Below | 6_aux.go:64-69 | anything written below the base after a separator is a subdirectory |
| Aux.NotItself | 6_aux.go:64-69 | a base given without a trailing separator is not its own subdirectory |
| Aux.SiblingNotBelow | 6_aux.go:64-69 | a sibling whose name only extends the base's last name is not below it |
| Aux.EmptyBase | 6_aux.go:65-68 | with an empty base every path counts as a subdirectory |
| Aux.SubDirectoryExamples | 6_aux.go:64-69 | ("/a","/a") and ("/a/b","/a/bc") are false and ("/a","/a/b") is true |
| Deps.DepTable.constructor | 4_modcache.go:86-93 | a fresh table has no entries |
| Deps.DepTable.GetModules | 4_modcache.go:16-25 | every module with an entry, each exactly once |
| Deps.DepTable.AddDependentOf | 4_modcache.go:27-35 | the parent's set, created when missing, gains the dependent |
| Deps.AddDependentOfRecords | 4_modcache.go:27-35 | after the call the dependent is recorded, other entries are unchanged, and repeating the call changes nothing |
| Deps.DepTable.RemoveDependents | 4_modcache.go:37-40 | the parent's entry is dropped |
| Deps.RemoveDependentsClears | 4_modcache.go:37-40 | the parent then reads as having no dependents, and other entries are unchanged |
| Deps.DepTable.GetDependentsOf | 4_modcache.go:42-55 | the dependents of the module, each once; none for a module without an entry |
| Deps.DepTable.ClearParent | 4_modcache.go:57-64 | the module is removed from every dependents set |
| Deps.ClearParentRemoves | 4_modcache.go:57-64 | afterwards the module is nobody's dependent, all other dependents stay, and the same modules keep an entry |
| Deps.ReachStart | 4_modcache.go:177 | the changed module is in its own reach |
| Deps.ReachStep | 4_modcache.go:189 | a dependent of a reachable module is reachable |
| Deps.ReachDeps | 4_modcache.go:189 | all dependents of a reachable module are reachable |
| Deps.ClosedHoldsReach | 4_modcache.go:179-194 | a set that holds the module and the dependents of its members holds the whole reach |
| Deps.ReachClosed | 4_modcache.go:179-194 | the reach is closed under dependents, so it is the least such set |
| ModCache.GetModuleName | 4_modcache.go:96-104 | a module name never contains `/`; it fails (the index panic) exactly when nothing is left after the site directory and `.lua` are trimmed |
| ModCache.ModuleNameDotted | 4_modcache.go:96-104 | a dotted name without those features is returned unchanged |
| ModCache.ModuleNameOf | 4_modcache.go:96-104 | siteDir/rel.lua is tracked as rel with `/` turned into `.` |
| ModCache.ModuleNameOfFile | 4_modcache.go:96-104 | for a path without `.`, turning the name's `.` back into `/` gives the file the name came from |
| ModCache.DependencyTracker.constructor | 4_modcache.go:86-94 | level 0, empty lineage, and a fresh empty table registered in the state |
| ModCache.DependencyTracker.Wrap | 4_modcache.go:106-126 | one wrapped require: the new table and the raise are those of RunLoad; lineage and level are restored on exit, also when the loader raises |
| ModCache.RunLoad | 4_modcache.go:105-126 | one wrapped require drops no module from the dependency table, and a module that raises makes its require raise |
| ModCache.RunNested | 4_modcache.go:124 | the requires a module makes drop no module from the dependency table |
| ModCache.DependencyTracker.WrapNested | 4_modcache.go:124 | the requires made while a module loads, up to the first that raises, as RunNested says |
| ModCache.TrackedRecordsEdge | 4_modcache.go:110-112 | a tracked require inside another module's load records the loader as a dependent, and the edge survives the nested loads |
| ModCache.DisabledRecordsNothing | 4_modcache.go:108-109 | with the pool disabled no edge is recorded, however deep the requires nest |
| ModCache.UntrackedIsTransparent | 4_modcache.go:108-109 | a require with track=false records nothing itself; its nested requires see the outer lineage |
| ModCache.LoadGrows | 4_modcache.go:106-126 | loading only ever adds dependents |
| ModCache.NestedStops | 4_modcache.go:124 | once a require the module does not catch has raised, the module's later requires are not made |
| ModCache.StatePool.constructor | 4_modcache.go:128-131 | an empty pool, whose idle states are trivially separate |
| ModCache.StatePool.Get | 4_modcache.go:133-144 | an empty pool gives nil and stays unchanged; otherwise the most recently put state is removed and returned (LIFO); the idle states stay separate |
| ModCache.StatePool.Put | 4_modcache.go:146-150 | the state is appended, and the idle states stay separate interpreters with their own tables |
| ModCache.StatePool.Clear | 4_modcache.go:152-159 | the pool is left empty (and so trivially separate) |
| ModCache.SweepStart | 4_modcache.go:177-178 | the worklist starts with the changed module and nothing visited |
| ModCache.SweepRevisit | 4_modcache.go:183-184 | popping a visited module changes nothing |
| ModCache.SweepVisit | 4_modcache.go:185-189 | visiting a new module queues its dependents, stays within the reach, and decreases the measure, so cycles terminate |
| ModCache.SweepDone | 4_modcache.go:179 | when the worklist is empty, exactly the reach has been visited |
| ModCache.StatePool.Forget | 4_modcache.go:189-193 | one turn: the module's dependents are returned, and the module is dropped from the table and from `_LOADED` |
| ModCache.StatePool.ResetModuleDependents | 4_modcache.go:169-195 | every module that depends on the changed one (transitively, itself included) loses its `_LOADED` entry and its table entry; nothing else changes; no-op without a table |
| ModCache.StatePool.ResetLoadedPoolModules | 4_modcache.go:160-167 | the reset is applied to every idle state, each with its own table; the idle list is unchanged and stays separate |
| LuaState.RawSet | 5_state.go:251-253 | storing nil removes the key; anything else binds it; other keys are untouched |
| LuaState.InternalKey | 5_state.go:251-257 | internal variables live under the `moontpl.` prefix |
| LuaState.CacheVar | 5_state.go:235-241 | state-cache entries get the `cache.` prefix |
| LuaState.InternalVarRoundTrip | 5_state.go:251-257 | GetInternalVar(k) after SetInternalVar(k,v) gives v; other variables read as before |
| LuaState.CacheApart | 5_state.go:235-241 | a state-cache entry never collides with the recursion guard |
| LuaState.State.GetInternalVar | 5_state.go:255-257 | reads the registry entry `moontpl.`+key; a missing entry reads as nil |
| LuaState.State.SetInternalVar | 5_state.go:251-253 | the registry entry under `moontpl.`+key is set; nothing else in the state changes |
| LuaState.State.GetStateCache | 5_state.go:235-237 | reads the registry entry `moontpl.cache.`+key; a missing entry reads as nil |
| LuaState.State.SetStateCache | 5_state.go:239-241 | the registry entry under `moontpl.cache.`+key is set |
| LuaState.GetPagesStep | 5_state.go:175-212 | GetPages runs only when the guard is clear and nothing is cached; the call fails only with its error, and computed pages are what is pushed |
| LuaState.State.GetPages | 5_state.go:175-212 | one call of getPages: the value, the registry and the process-wide cache follow GetPagesStep |
| LuaState.GetPagesGuard | 5_state.go:176-179 | re-entered while `recursed` is set, getPages returns an empty table and changes nothing |
| LuaState.GetPagesClearsGuard | 5_state.go:180-181 | otherwise the guard is cleared afterwards, even on failure; only the guard and the pages cache entry change |
| LuaState.GetPagesOnce | 5_state.go:183-210 | after a successful call, the next call in the same mode returns the same pages without computing them |
| LuaState.LuaPath.AddLuaPath | 5_state.go:56-69 | the path becomes the trimmed old path, a `;` unless it is empty or ends with one, then pathStr |
| LuaState.ExtendedPathEntries | 5_state.go:56-68 | a blank path becomes exactly pathStr; otherwise the old entries keep their order and pathStr is the last entry |
| Build.StripHash | 1_build.go:82-85 | the result has no `#`, is a prefix of the link, and is the link itself when it has no `#` |
| Build.StripHashIdempotent | 1_build.go:82-85 | stripping twice is stripping once |
| Build.SiteBuilder.constructor | 1_build.go:24-30 | empty done set and empty queue |
| Build.SiteBuilder.QueueLink | 1_build.go:32-36 | the link is appended iff it is not done; otherwise the queue is unchanged |
| Build.SiteBuilder.QueueAll | 1_build.go:76-78 | queueLink for each link in order |
| Build.EnqueueKeeps | 1_build.go:32-36 | the queue keeps its order and contents, and every link is afterwards done or queued |
| Build.DrainSkip | 1_build.go:89-91 | a head that is done already is skipped |
| Build.DrainFail | 1_build.go:96-103 | a head whose build fails ends the pass with that link as the failure, after it is logged if its file is missing |
| Build.DrainBuild | 1_build.go:80-105 | a fresh head is built, its render's links are queued behind the rest, and it is marked done |
| Build.SiteBuilder.BuildHead | 1_build.go:81-105 | one turn of the loop: the drain after it plus what it built gives the drain before it |
| Build.Drain | 1_build.go:80-106 | the pass ends with an empty queue unless a link fails to build; that link does not render and is left not done |
| Build.SiteBuilder.DrainQueue | 1_build.go:80-106 | the first loop computes Drain and leaves done and the queue as Drain says |
| Build.DrainBuildsOnce | 1_build.go:89-105 | each stripped link is built at most once per pass, never one already done, and done ends as the old done plus the links built |
| Build.DrainCloses | 1_build.go:80-106 | a pass that does not fail empties the queue, and builds (or finds done) every queued link and every link a render queued |
| Build.DrainInOrder | 1_build.go:80-87 | FIFO: the links waiting when the pass starts are built in queue order before any link a render queues |
| Build.PlainPass | 1_build.go:112-125 | only listed plain files that have an extension and build are built |
| Build.SiteBuilder.BuildPlain | 1_build.go:112-125 | the second loop computes PlainPass: the files built and the one whose build failed |
| Build.PlainPassBuilds | 1_build.go:112-125 | the second pass builds exactly the plain files with an extension, in listed order; a failure stops it at such a file |
| Build.ExtExamples | 1_build.go:116-120 | `style.css` is built; `lib/util` is skipped |
| Build.SiteBuilder.BuildAll | 1_build.go:69-125 | queue the pages, drain, then the second pass, as BuildAllOf says; done is empty on every way out |
| FsWatch.FsWatcher.constructor | 4_fsmon.go:30-35 | no listeners, nothing to watch, nextID 1 |
| FsWatch.FsWatcher.On | 4_fsmon.go:46-55 | returns the old nextID, which no listener holds, stores the listener under it and increments nextID |
| FsWatch.FsWatcher.Off | 4_fsmon.go:57-61 | only that id is removed; an unknown id changes nothing |
| FsWatch.OffUndoesOn | 4_fsmon.go:46-61 | Off of the id On returned gives back the registry as it was |
| FsWatch.FsWatcher.Emit | 4_fsmon.go:37-44 | every registered listener is called exactly once with the name; the registry is unchanged |
| FsWatch.FsWatcher.Add | 4_fsmon.go:63-65 | the absolute path is appended; earlier entries are kept |
| FsWatch.FsWatcher.OnEvent | 4_fsmon.go:90-92 | only a write or a create event reaches the listeners |
| FsWatch.PublishesIff | 4_fsmon.go:90 | an event is published iff it has the Write bit or the Create bit |
| FsWatch.PublishesExamples | 4_fsmon.go:90 | remove, rename and chmod alone are not published; write+chmod and create are |
| FsWatch.WatchWalk | 4_fsmon.go:102-118 | the walk watches the entries Watched accepts, in walk order |
| FsWatch.WatchedOfIff | 4_fsmon.go:106-116 | a path is watched iff it is a directory and is the root or does not start with `.` |
| FsWatch.WatchedExamples | 4_fsmon.go:106-109 | the root and `posts/.drafts` are watched; `.git`, `.git/objects` and plain files are not |
| Loader.FileOf | 5_loader.go:46 | every `.` of the module name becomes a separator; nothing else changes |
| Loader.Clean | 5_loader.go:54 | path.Clean never yields an empty path |
| Loader.CleanOfPlain | 5_loader.go:54 | a relative path of plain names is already clean |
| Loader.CandidateOf | 5_loader.go:54 | a pattern with one `?` yields the pattern with the file name in its place, cleaned |
| Loader.Candidates | 5_loader.go:53-54 | one non-empty candidate per pattern, in package.path order |
| Loader.Search | 5_loader.go:53-61 | a path found is one of the candidates; at most one message per candidate is collected |
| Loader.SearchNone | 5_loader.go:53-61 | nothing is found iff no candidate stats |
| Loader.SearchHit | 5_loader.go:55-56 | what is found is the first candidate that stats |
| Loader.SearchStopsAtHit | 5_loader.go:55-56 | patterns after the first hit are not consulted |
| Loader.SearchFailures | 5_loader.go:57-61 | when nothing is found, the messages are those of every failed stat other than "does not exist", in order |
| Loader.SearchPath | 5_loader.go:52-61 | the pattern loop returns the first candidate that stats, or "" with the collected messages |
| Loader.LoFindFile | 5_loader.go:45-62 | a non-string package.path raises; otherwise the path found with an empty message, or "" with the messages joined by "\n\t" |
| Loader.NotFoundPushesMessage | 5_loader.go:57-61 | when no candidate exists the result is "" and the joined failure messages |
| Loader.FoundIsFirst | 5_loader.go:53-56 | when some candidate exists, the one found stats and no earlier pattern's candidate does |
| Loader.LoadFile | 5_loader.go:23-43 | pushes the message when nothing is found or the read fails, raises on a compile error, else pushes the chunk |
| Docgen.LineLength | docgen.go:76-83 | the first line runs to the first `\n` inclusive, or to the end |
| Docgen.LinesSpec | docgen.go:73-88 | the lines put together give the text, each ends with its `\n` except possibly the last, and empty text has none |
| Docgen.LineEnd | docgen.go:77-83 | the inner loop finds the end of the line starting at a |
| Docgen.GetLines | docgen.go:73-88 | the iterator yields exactly Lines(s) |
| Docgen.Base | docgen.go:22 | filepath.Base is never empty |
| Docgen.BaseOf | docgen.go:22 | the base of dir/name is name |
| Docgen.ModuleName | docgen.go:22-23 | the base name of the file is the module name followed by its extension |
| Docgen.ModuleNameOf | docgen.go:22-23 | dir/stem.ext documents the module stem |
| Docgen.DocLine | docgen.go:32-53 | a line of whitespace only is left out of the documentation |
| Docgen.DocLineNonBlank | docgen.go:32-53 | a kept line is never blank |
| Docgen.MarkedLine | docgen.go:34-46 | `--- text` is kept as the four-character prefix (two spaces, a bar, a space) followed by text |
| Docgen.BareMarker | docgen.go:43-45 | a bare `---` is kept as that four-character prefix alone |
| Docgen.TrailingMarker | docgen.go:47-49 | `text ---` is kept without the marker |
| Docgen.BodyLeftOut | docgen.go:55-61 | a run of left-out lines writes one `\n` after a kept line, and otherwise nothing |
| Docgen.WrittenNonBlank | docgen.go:55-60 | what a line writes is non-blank iff the line is kept |
| Docgen.BodyNonBlank | docgen.go:30-62 | the body has non-whitespace text iff some line is kept |
| Docgen.TrimRightEmpty | docgen.go:66 | right-trimming leaves nothing iff the text is all whitespace |
| Docgen.WriteLine | docgen.go:55-61 | one turn appends what the line writes |
| Docgen.WriteBody | docgen.go:28-62 | the loop fills the buffer with Body of the lines, carrying includeLast |
| Docgen.ExtractDocumentation | docgen.go:16-71 | a read error is returned; otherwise the header naming the module, the right-trimmed body, and whether the body is non-empty |
| Docgen.DocumentedIff | docgen.go:64-70 | the ok flag is true iff some line of the file is kept |
| Text.Index | 4_path_param.go:20 | strings.Index: the first position of the character, or -1 iff it is absent |
| Text.Split | 4_path_param.go:19 | strings.Split yields at least one piece, and no piece holds the separator |
| Text.SplitIndex | 4_path_param.go:19 | Split cuts at the first separator, as the library does |
| Text.SplitNone | 4_path_param.go:19 | a string without the separator is a single piece |
| Text.SplitJoin | 4_path_param.go:87 | splitting a join at its one-character separator gives the parts back |
| Text.SplitConcat | 4_path_param.go:19 | splitting a + sep + b gives the pieces of a, then those of b |
| Text.TrimShape | 4_path_param.go:24-25 | TrimSpace leaves no whitespace at either end and introduces no character |
| Text.TrimPadded | 4_path_param.go:24-25 | TrimSpace removes exactly the whitespace padding |
| Text.ReplaceChar | 4_modcache.go:102 | ReplaceAll of one character maps each position independently and keeps the length |
| Text.TrimPrefix | 4_modcache.go:97 | drops the prefix once when present, else returns the string unchanged |
| Text.TrimSuffix | 4_modcache.go:98 | drops the suffix once when present, else returns the string unchanged |
| Text.Insert | 4_path_param.go:81 | insertion keeps the sequence strictly ascending and adds exactly the element |
| Text.SortedSeq | 4_path_param.go:81 | the ascending sequence of a set has exactly its elements |
| Text.SortedUnique | 4_path_param.go:81 | an ascending sequence is determined by its elements |
| Text.Enumerate | 4_path_param.go:77-79 | ranging over a map's keys yields each key exactly once (also the listener ids of 4_fsmon.go:41) |

## Left out

- The Lua interpreter and rendering: a render is the abstract `Renders`
  map, a compiled chunk an opaque handle, and a nested `require` a `Load`
  tree with a flag for a raise after its own requires.
- The file system, `os.Getwd` and `fs.Stat`/`fs.ReadFile` are parameters
  (`cwd`, `stat`, `read`, `compile`); `fsExists` becomes the `missing` set.
- Concurrency: the mutexes of `lStatePool` and `FsWatcher`, and the
  fsnotify goroutine. Everything is modelled single-threaded.
- HTTP and server-sent events, logging, `printOutput`, writing output
  files and `CopyNonSourceFiles`.
- The errors of `watcher.Add` and of the walk itself, and the extra watch
  on `./lua`. The walk entry's path is returned relative to the site
  directory, not joined onto it.
- `L.Close` in `Clear`: closing an interpreter is not modelled.
- `printLoadedModules` and `dependencyTable.String` are debugging output.
- `AddLuaDir`: it only joins a directory onto `?.lua` and calls
  `AddLuaPath`.
- `GetModules` and `GetDependentsOf` ignore non-string keys in the Lua
  tables; every key of the model is a string.
- `L.RaiseError` adds a source position to its message; the model raises
  the bare message.
- `luarFromArray` is a plain list value, and its element conversion is
  not modelled.
- Whitespace is ASCII whitespace. Strings compare by character code.
  Separators are `/`.
- `path.Clean` and `filepath.Rel`/`Abs`/`Dir` are modelled for
  `/`-separated paths only. The regular expressions are modelled as the
  specific patterns used, not as a general engine.
- `Docgen.ModuleName`: the module name is matched literally in
  `function <module>.\w`, so a name holding regex metacharacters is not
  modelled.
- ModCache.StatePool.Put: requires that the state is not idle already and
  shares no dependency table with an idle state. The source does not check
  this; it holds because each state is given back once by the caller that
  took it (`defer m.luaPool.Put(L)`, 2_render.go:9-10 and 30-31), and
  newDepdencyTracker makes a fresh table for each state (4_modcache.go:86).
  getState is not part of this model. ResetLoadedPoolModules relies on it.
- LuaState.State.GetPages: the modules the page scripts require while the
  pages are computed are not modelled. GetPages runs every page file with
  `L.DoFile` in the same state (4_page.go:37-51, 67), so those requires add to
  `_LOADED` and to the dependency table; the model keeps both unchanged and
  takes the computed pages as a parameter.
- ModCache.NestedStops: a raise caught inside the requiring module is not
  modelled. The base library opened in every state provides `pcall`, so a
  module can run `pcall(require, "m")` and go on making tracked requires; the
  `Load` tree has no way to say that a nested raise was caught, and
  `RunNested` and `DependencyTracker.WrapNested` end the module's load at the
  first nested raise.
- `Build.Drain` returns the failing link. The source panics there instead.
- PathParam.ComposeRoundTrip: proved for bare names without `[` and for
  parameters whose keys and values are trimmed and hold no `,`, `]` or
  newline (keys also no `=`). These are the values the parser can give
  back.
- PathParam.SetParamsIdempotent: proved only when the name with its groups
  removed holds no `[`. For `a[b` the first call yields a name whose first
  group is no longer the one inserted.
- PathParam.SetParamsOverride: the same `[` restriction as
  SetParamsIdempotent, and the new parameters must be clean as above.
- LuaState.ExtendedPathEntries: stated for a pathStr without `;`.
- Build.DrainInOrder: stated for queues whose every link is done or
  renders. A failing build stops the pass before later links are built.
