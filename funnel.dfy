/** `BroccoliDependencyFunnel`: a plugin that keeps either the dependency graph of an
    entry module (include mode) or everything else (exclude mode) of its input tree. It
    holds four fields across builds, the graph, the complement, and a snapshot of each,
    and on every build picks one of five outcomes: a cache hit, a cache hit in include
    mode where only complement files changed, a patch of the complement in exclude mode,
    the no-entry branch, or a full rebuild. */
module Funnel {
  import opened Paths
  import opened FileSystem
  import opened FilterDirectory
  import opened TreeDiff
  import opened CopyFile
  import opened Graph
  import opened Mode

  /** The settings a successfully constructed funnel keeps. */
  datatype Config = Config(includeMode: bool, entry: string)

  /** The constructor's check as its error message "Must specify exactly one of `include`
      or `exclude`" states it: None where not exactly one of the two is truthy, otherwise
      the boolean `include` and the entry. The `^` the code uses differs on some numbers
      (see `Mode.BothTruthyAccepted`). */
  function Configure(inc: JsValue, exc: JsValue, entry: string): (r: Option<Config>)
    ensures r.Some? <==> (Truthy(inc) && !Truthy(exc)) || (!Truthy(inc) && Truthy(exc))
    ensures r.Some? ==> r.value.includeMode == Truthy(inc) && r.value.entry == entry
    ensures r.Some? && !r.value.includeMode ==> Truthy(exc)
  {
    if ModeCheck(inc, exc) then Some(Config(Truthy(inc), entry)) else None
  }

  /** `_depGraph`, `_depGraphTree`, `_nonDepGraph` and `_nonDepGraphTree`. */
  datatype Cache = Cache(
    depGraph: Option<seq<string>>,
    depGraphTree: Option<Snapshot>,
    nonDepGraph: Option<seq<string>>,
    nonDepGraphTree: Option<Snapshot>)

  const Unset := Cache(None, None, None, None)

  predicate AllOrNone(c: Cache)
  {
    c.depGraph.Some? == c.depGraphTree.Some? == c.nonDepGraph.Some? == c.nonDepGraphTree.Some?
  }

  /** What holds of the fields between builds: all set or none, and when set, both lists
      strictly sorted and disjoint, and both snapshots acceptable to `FSTree.fromEntries`. */
  predicate CacheValid(c: Cache)
  {
    && AllOrNone(c)
    && (c.depGraph.Some? ==>
      && StrictlySorted(c.depGraph.value)
      && StrictlySorted(c.nonDepGraph.value)
      && Ordered(c.depGraphTree.value)
      && Ordered(c.nonDepGraphTree.value)
      && forall p :: p in c.nonDepGraph.value ==> p !in c.depGraph.value)
  }

  /** A graph is held and a fresh snapshot of its paths gives an empty patch. */
  predicate GraphUnchanged(c: Cache, input: seq<Tree>)
    requires AllOrNone(c)
  {
    c.depGraph.Some? && CalculatePatch(c.depGraphTree.value, GetFSTree(input, c.depGraph.value)) == []
  }

  datatype Branch = CacheHit | GraphUnaffected | PatchApplied | NoEntry | FullRebuild

  /** The outcome of one build: its branch, whether it returned normally, the fields
      afterwards and the output afterwards. */
  datatype Step = Step(branch: Branch, ok: bool, cache: Cache, nodes: Nodes)

  /** The branches taken when the held graph is unchanged: the complement is recomputed
      and re-snapshotted, and only in exclude mode with a non-empty patch is the output
      written. */
  function RefreshStep(includeMode: bool, c: Cache, input: seq<Tree>, nodes: Nodes): Step
    requires AllOrNone(c) && c.depGraph.Some?
  {
    var ndg := NextNonDepGraph(input, c.depGraph.value);
    var ndgt := GetFSTree(input, ndg);
    var patch := CalculatePatch(c.nonDepGraphTree.value, ndgt);
    var refreshed := c.(nonDepGraph := Some(ndg), nonDepGraphTree := Some(ndgt));
    if patch == [] then Step(CacheHit, true, refreshed, nodes)
    else if includeMode then Step(GraphUnaffected, true, refreshed, nodes)
    else Step(PatchApplied, true, refreshed, ApplyOps(nodes, patch))
  }

  /** The branches taken otherwise: entry resolution, then the no-entry branch or a full
      rebuild. */
  function ResolveStep(includeMode: bool, entry: string, c: Cache, input: seq<Tree>, nodes: Nodes,
                       walked: seq<string>, broken: set<string>): Step
  {
    match ResolveEntry(input, entry)
    case None =>
      if includeMode then Step(NoEntry, true, c, nodes)
      else
        var r := CopyAll(input, nodes, Names(input), broken);
        Step(NoEntry, r.ok, c, r.nodes)
    case Some(actual) =>
      var dg := DepGraph(walked, actual);
      var ndg := NextNonDepGraph(input, dg);
      var r := CopyAll(input, map[], if includeMode then dg else ndg, broken);
      if r.ok then Step(FullRebuild, true, Cache(Some(dg), Some(GetFSTree(input, dg)), Some(ndg), Some(GetFSTree(input, ndg))), r.nodes)
      else Step(FullRebuild, false, c, r.nodes)
  }

  /** One call of `build()`. `walked` is what `mr-dep-walk` returns for the entry;
      `broken` the destinations where the platform cannot link or copy. */
  function BuildSpec(includeMode: bool, entry: string, c: Cache, input: seq<Tree>, nodes: Nodes,
                     walked: seq<string>, broken: set<string>): Step
    requires AllOrNone(c)
  {
    if GraphUnchanged(c, input) then RefreshStep(includeMode, c, input, nodes)
    else ResolveStep(includeMode, entry, c, input, nodes, walked, broken)
  }

  /** The fields as the source leaves them when `copy` throws during a full rebuild: the
      two lists are assigned before the copy, the two snapshots only after it. After a
      failed first build the fields are half set, which the next build's
      `calculatePatch` on the missing snapshot does not survive. */
  function FailedRebuildCacheAsWritten(c: Cache, dg: seq<string>, ndg: seq<string>): (r: Cache)
    ensures AllOrNone(c) && c.depGraph.None? ==> !AllOrNone(r)
  {
    c.(depGraph := Some(dg), nonDepGraph := Some(ndg))
  }

  class DependencyFunnel {
    const includeMode: bool
    const entry: string
    var depGraph: Option<seq<string>>
    var depGraphTree: Option<Snapshot>
    var nonDepGraph: Option<seq<string>>
    var nonDepGraphTree: Option<Snapshot>

    function Held(): Cache
      reads this
    {
      Cache(depGraph, depGraphTree, nonDepGraph, nonDepGraphTree)
    }

    predicate Valid()
      reads this
    {
      CacheValid(Held())
    }

    /** A funnel configured by `Configure`, with all four fields unset. */
    constructor(config: Config)
      ensures includeMode == config.includeMode && entry == config.entry
      ensures Held() == Unset && Valid()
    {
      includeMode := config.includeMode;
      entry := config.entry;
      depGraph := None;
      depGraphTree := None;
      nonDepGraph := None;
      nonDepGraphTree := None;
    }

    /** `copy(inodes)`; `ok` is false where a `copyFile` throws, which ends the loop. */
    method Copy(input: seq<Tree>, out: Output, inodes: seq<string>, broken: set<string>) returns (ok: bool)
      modifies out
      ensures CopyResult(ok, out.nodes) == CopyAll(input, old(out.nodes), inodes, broken)
    {
      for i := 0 to |inodes|
        invariant CopyAll(input, out.nodes, inodes[i..], broken) == CopyAll(input, old(out.nodes), inodes, broken)
      {
        var m := inodes[i];
        assert inodes[i..][0] == m && inodes[i..][1..] == inodes[i + 1..];
        var copied := CopyFile.CopyFile(input, out, m, m, broken);
        if !copied {
          return false;
        }
      }
      assert inodes[|inodes|..] == [];
      return true;
    }

    /** `build()`, with the fields committed only once the copy of a full rebuild has
        succeeded (see `FailedRebuildCacheAsWritten` for the source's order). */
    method Build(input: seq<Tree>, out: Output, walked: seq<string>, broken: set<string>) returns (ok: bool)
      requires Valid() && WellFormed(input) && Distinct(walked)
      modifies this, out
      ensures Valid()
      ensures Step(BuildSpec(includeMode, entry, old(Held()), input, old(out.nodes), walked, broken).branch, ok, Held(), out.nodes)
        == BuildSpec(includeMode, entry, old(Held()), input, old(out.nodes), walked, broken)
    {
      BuildPreservesValid(includeMode, entry, Held(), input, out.nodes, walked, broken);
      if depGraph.Some? {
        var incomingDepGraphTree := GetFSTree(input, depGraph.value);
        var depGraphPatch := CalculatePatch(depGraphTree.value, incomingDepGraphTree);
        if depGraphPatch == [] {
          RefreshComplement(input, out);
          return true;
        }
      }
      ok := ResolveAndRebuild(input, out, walked, broken);
    }

    /** The part of `build()` taken when the held graph's snapshot is unchanged. */
    method RefreshComplement(input: seq<Tree>, out: Output)
      requires AllOrNone(Held()) && depGraph.Some?
      modifies this, out
      ensures Step(RefreshStep(includeMode, old(Held()), input, old(out.nodes)).branch, true, Held(), out.nodes)
        == RefreshStep(includeMode, old(Held()), input, old(out.nodes))
    {
      var next := NextNonDepGraph(input, depGraph.value);
      var incomingNonDepGraphTree := GetFSTree(input, next);
      var nonDepGraphPatch := CalculatePatch(nonDepGraphTree.value, incomingNonDepGraphTree);
      nonDepGraphTree := Some(incomingNonDepGraphTree);
      nonDepGraph := Some(next);
      if nonDepGraphPatch == [] {
        return;
      } else if includeMode {
        return;
      } else {
        ApplyPatch(out, nonDepGraphPatch);
      }
    }

    /** The part of `build()` from entry resolution on. */
    method ResolveAndRebuild(input: seq<Tree>, out: Output, walked: seq<string>, broken: set<string>) returns (ok: bool)
      modifies this, out
      ensures Step(ResolveStep(includeMode, entry, old(Held()), input, old(out.nodes), walked, broken).branch, ok, Held(), out.nodes)
        == ResolveStep(includeMode, entry, old(Held()), input, old(out.nodes), walked, broken)
    {
      var actualEntry := entry;
      var entryExists := StatOf(input, actualEntry).Some?;
      if !entryExists {
        actualEntry := Join("modules", entry);
        entryExists := StatOf(input, actualEntry).Some?;
      }
      if !entryExists {
        if !includeMode {
          ok := Copy(input, out, Names(input), broken);
        } else {
          ok := true;
        }
        return;
      }

      var modules := walked;
      if actualEntry !in modules {
        modules := [actualEntry] + modules;
      }
      var dg := Sort(modules);
      // the local `nextNonDepGraph` is never set on this path, so the complement is
      // always recomputed from the new graph
      var ndg := NextNonDepGraph(input, dg);
      out.Rimraf();
      var toCopy := if includeMode then dg else ndg;
      ok := Copy(input, out, toCopy, broken);
      if ok {
        depGraph := Some(dg);
        nonDepGraph := Some(ndg);
        depGraphTree := Some(GetFSTree(input, dg));
        nonDepGraphTree := Some(GetFSTree(input, ndg));
      }
    }
  }

  /** Every build leaves the fields all set or all unset, with the lists sorted and
      disjoint and the snapshots ordered. */
  lemma BuildPreservesValid(includeMode: bool, entry: string, c: Cache, input: seq<Tree>, nodes: Nodes,
                            walked: seq<string>, broken: set<string>)
    requires CacheValid(c) && WellFormed(input) && Distinct(walked)
    ensures CacheValid(BuildSpec(includeMode, entry, c, input, nodes, walked, broken).cache)
  {
    if GraphUnchanged(c, input) {
      var ndg := NextNonDepGraph(input, c.depGraph.value);
      NextNonDepGraphSpec(input, c.depGraph.value);
      GetFSTreeOrdered(input, ndg);
      assert BuildSpec(includeMode, entry, c, input, nodes, walked, broken).cache ==
        c.(nonDepGraph := Some(ndg), nonDepGraphTree := Some(GetFSTree(input, ndg)));
    } else if ResolveEntry(input, entry).Some? {
      var dg := DepGraph(walked, ResolveEntry(input, entry).value);
      var ndg := NextNonDepGraph(input, dg);
      DepGraphSpec(walked, ResolveEntry(input, entry).value);
      NextNonDepGraphSpec(input, dg);
      GetFSTreeOrdered(input, dg);
      GetFSTreeOrdered(input, ndg);
      var r := CopyAll(input, map[], if includeMode then dg else ndg, broken);
      assert BuildSpec(includeMode, entry, c, input, nodes, walked, broken).cache ==
        if r.ok then Cache(Some(dg), Some(GetFSTree(input, dg)), Some(ndg), Some(GetFSTree(input, ndg))) else c;
    } else {
      assert BuildSpec(includeMode, entry, c, input, nodes, walked, broken).cache == c;
    }
  }

  /** When a fresh snapshot of the held graph differs from the held one, the build goes
      to entry resolution: a full rebuild when the entry is found, the no-entry branch
      otherwise, never a cache hit or a patch. */
  lemma InvalidationForcesRebuild(includeMode: bool, entry: string, c: Cache, input: seq<Tree>, nodes: Nodes,
                                  walked: seq<string>, broken: set<string>)
    requires CacheValid(c) && c.depGraph.Some?
    requires c.depGraphTree.value != GetFSTree(input, c.depGraph.value)
    ensures BuildSpec(includeMode, entry, c, input, nodes, walked, broken).branch ==
      if ResolveEntry(input, entry).Some? then FullRebuild else NoEntry
  {
    GetFSTreeOrdered(input, c.depGraph.value);
    PatchEmptyIff(c.depGraphTree.value, GetFSTree(input, c.depGraph.value));
  }

  /** With the held graph's snapshot unchanged, the output is not written when the
      complement's snapshot is unchanged too, or in include mode; only the complement
      fields are refreshed, from the current input. */
  lemma UnchangedGraphNoWrite(includeMode: bool, entry: string, c: Cache, input: seq<Tree>, nodes: Nodes,
                              walked: seq<string>, broken: set<string>)
    requires CacheValid(c) && WellFormed(input) && c.depGraph.Some?
    requires c.depGraphTree.value == GetFSTree(input, c.depGraph.value)
    requires includeMode || c.nonDepGraphTree.value == GetFSTree(input, NextNonDepGraph(input, c.depGraph.value))
    ensures BuildSpec(includeMode, entry, c, input, nodes, walked, broken).ok
    ensures BuildSpec(includeMode, entry, c, input, nodes, walked, broken).nodes == nodes
    ensures BuildSpec(includeMode, entry, c, input, nodes, walked, broken).branch ==
      if c.nonDepGraphTree.value == GetFSTree(input, NextNonDepGraph(input, c.depGraph.value)) then CacheHit else GraphUnaffected
    ensures BuildSpec(includeMode, entry, c, input, nodes, walked, broken).cache ==
      c.(nonDepGraph := Some(NextNonDepGraph(input, c.depGraph.value)),
         nonDepGraphTree := Some(GetFSTree(input, NextNonDepGraph(input, c.depGraph.value))))
  {
    var ndg := NextNonDepGraph(input, c.depGraph.value);
    GetFSTreeOrdered(input, c.depGraph.value);
    PatchEmptyIff(c.depGraphTree.value, GetFSTree(input, c.depGraph.value));
    NextNonDepGraphSpec(input, c.depGraph.value);
    GetFSTreeOrdered(input, ndg);
    PatchEmptyIff(c.nonDepGraphTree.value, GetFSTree(input, ndg));
  }

  /** The fields describe the input as it is now: a graph is held, and its snapshot, the
      complement and the complement's snapshot are what a fresh computation gives. */
  predicate DescribesInput(d: Cache, input: seq<Tree>)
  {
    && AllOrNone(d) && d.depGraph.Some?
    && d.depGraphTree == Some(GetFSTree(input, d.depGraph.value))
    && d.nonDepGraph == Some(NextNonDepGraph(input, d.depGraph.value))
    && d.nonDepGraphTree == Some(GetFSTree(input, d.nonDepGraph.value))
  }

  /** A second build over the same input, after a build that left a graph held (a cache
      branch, or a successful full rebuild), is a cache hit: it returns normally, writes
      nothing and leaves the fields as the first build left them. */
  lemma RebuildIsCacheHit(includeMode: bool, entry: string, c: Cache, input: seq<Tree>, nodes: Nodes,
                          walked: seq<string>, broken: set<string>)
    requires CacheValid(c) && WellFormed(input) && Distinct(walked)
    requires var s := BuildSpec(includeMode, entry, c, input, nodes, walked, broken);
      s.ok && s.branch != NoEntry
    ensures var s := BuildSpec(includeMode, entry, c, input, nodes, walked, broken);
      CacheValid(s.cache) &&
      BuildSpec(includeMode, entry, s.cache, input, s.nodes, walked, broken) == Step(CacheHit, true, s.cache, s.nodes)
  {
    var s := BuildSpec(includeMode, entry, c, input, nodes, walked, broken);
    BuildPreservesValid(includeMode, entry, c, input, nodes, walked, broken);
    if GraphUnchanged(c, input) {
      RefreshDescribesInput(includeMode, c, input, nodes);
    } else {
      assert ResolveEntry(input, entry).Some?;
    }
    assert DescribesInput(s.cache, input);
    FreshCacheIsHit(includeMode, entry, s.cache, input, s.nodes, walked, broken);
  }

  /** After a cache branch the fields describe the input. */
  lemma RefreshDescribesInput(includeMode: bool, c: Cache, input: seq<Tree>, nodes: Nodes)
    requires CacheValid(c) && GraphUnchanged(c, input)
    ensures DescribesInput(RefreshStep(includeMode, c, input, nodes).cache, input)
  {
    GetFSTreeOrdered(input, c.depGraph.value);
    PatchEmptyIff(c.depGraphTree.value, GetFSTree(input, c.depGraph.value));
  }

  /** Fields that describe the current input give a cache hit. */
  lemma FreshCacheIsHit(includeMode: bool, entry: string, d: Cache, input: seq<Tree>, nodes: Nodes,
                        walked: seq<string>, broken: set<string>)
    requires CacheValid(d) && WellFormed(input) && DescribesInput(d, input)
    ensures BuildSpec(includeMode, entry, d, input, nodes, walked, broken) == Step(CacheHit, true, d, nodes)
  {
    UnchangedGraphNoWrite(includeMode, entry, d, input, nodes, walked, broken);
  }

  /** In exclude mode, with the graph unchanged and the complement changed, only the
      complement's patch is applied: files in both snapshots stay as they are, new or
      changed files are written with their new stat, vanished ones are removed, and the
      output is neither cleared nor touched anywhere else. */
  lemma ComplementPatch(entry: string, c: Cache, input: seq<Tree>, nodes: Nodes,
                        walked: seq<string>, broken: set<string>)
    requires CacheValid(c) && WellFormed(input) && c.depGraph.Some?
    requires c.depGraphTree.value == GetFSTree(input, c.depGraph.value)
    requires c.nonDepGraphTree.value != GetFSTree(input, NextNonDepGraph(input, c.depGraph.value))
    ensures var r := BuildSpec(false, entry, c, input, nodes, walked, broken);
      var before := c.nonDepGraphTree.value;
      var after := GetFSTree(input, NextNonDepGraph(input, c.depGraph.value));
      && r.branch == PatchApplied && r.ok
      && r.cache.depGraph == c.depGraph && r.cache.depGraphTree == c.depGraphTree
      && (forall e :: e in before && e in after ==>
            (e.path in r.nodes <==> e.path in nodes) && (e.path in nodes ==> r.nodes[e.path] == nodes[e.path]))
      && (forall e :: e in after && e !in before ==> e.path in r.nodes && r.nodes[e.path] == Copied(e.path, e.stat))
      && (forall p :: p in PathsOf(before) && p !in PathsOf(after) ==> p !in r.nodes)
      && (forall p :: p !in PathsOf(before) && p !in PathsOf(after) ==>
            (p in r.nodes <==> p in nodes) && (p in nodes ==> r.nodes[p] == nodes[p]))
  {
    var ndg := NextNonDepGraph(input, c.depGraph.value);
    GetFSTreeOrdered(input, c.depGraph.value);
    PatchEmptyIff(c.depGraphTree.value, GetFSTree(input, c.depGraph.value));
    NextNonDepGraphSpec(input, c.depGraph.value);
    GetFSTreeOrdered(input, ndg);
    PatchEmptyIff(c.nonDepGraphTree.value, GetFSTree(input, ndg));
    ApplyPatchEffect(nodes, c.nonDepGraphTree.value, GetFSTree(input, ndg));
  }

  /** The cache branches neither call the walker nor copy: their outcome does not depend
      on what the walker would return or on where copying would fail. */
  lemma CacheBranchesIgnoreWalker(includeMode: bool, entry: string, c: Cache, input: seq<Tree>, nodes: Nodes,
                                  walked1: seq<string>, broken1: set<string>, walked2: seq<string>, broken2: set<string>)
    requires AllOrNone(c) && GraphUnchanged(c, input)
    ensures BuildSpec(includeMode, entry, c, input, nodes, walked1, broken1) == BuildSpec(includeMode, entry, c, input, nodes, walked2, broken2)
    ensures BuildSpec(includeMode, entry, c, input, nodes, walked1, broken1).branch in {CacheHit, GraphUnaffected, PatchApplied}
  {
  }

  /** A full rebuild copies, into an emptied output, the graph in include mode or the
      complement in exclude mode. On success it commits a graph that is sorted, holds the
      resolved entry and exactly the walked modules besides, and a complement of input
      files that is sorted, disjoint from it and covers the rest of the input; on failure
      the fields stay as they were. */
  lemma FullRebuildState(includeMode: bool, entry: string, c: Cache, input: seq<Tree>, nodes: Nodes,
                         walked: seq<string>, broken: set<string>)
    requires CacheValid(c) && WellFormed(input) && Distinct(walked)
    requires !GraphUnchanged(c, input) && ResolveEntry(input, entry).Some?
    ensures var r := BuildSpec(includeMode, entry, c, input, nodes, walked, broken);
      var actual := ResolveEntry(input, entry).value;
      var dg := DepGraph(walked, actual);
      var ndg := NextNonDepGraph(input, dg);
      && r.branch == FullRebuild
      && CopyResult(r.ok, r.nodes) == CopyAll(input, map[], if includeMode then dg else ndg, broken)
      && (r.ok ==> r.cache == Cache(Some(dg), Some(GetFSTree(input, dg)), Some(ndg), Some(GetFSTree(input, ndg))))
      && (!r.ok ==> r.cache == c)
      && StrictlySorted(dg) && actual in dg
      && (forall p :: p in dg <==> p in walked || p == actual)
      && StrictlySorted(ndg)
      && (forall p :: p in ndg ==> p !in dg && IsInputFile(input, p))
      && (forall route :: FileRoute(input, route) ==> JoinAll("", route) in dg || JoinAll("", route) in ndg)
  {
    var actual := ResolveEntry(input, entry).value;
    DepGraphSpec(walked, actual);
    NextNonDepGraphSpec(input, DepGraph(walked, actual));
  }

  /** When nothing stands in the way, a full rebuild succeeds and the output holds a link
      for every copied path whose source exists, nothing for the missing ones, and
      otherwise only the directories on the way to them. */
  lemma FullRebuildOutput(includeMode: bool, entry: string, c: Cache, input: seq<Tree>, nodes: Nodes,
                          walked: seq<string>, broken: set<string>)
    requires CacheValid(c) && WellFormed(input) && Distinct(walked)
    requires !GraphUnchanged(c, input) && ResolveEntry(input, entry).Some?
    requires var dg := DepGraph(walked, ResolveEntry(input, entry).value);
      var toCopy := if includeMode then dg else NextNonDepGraph(input, dg);
      NoNesting(toCopy) && forall i :: 0 <= i < |toCopy| ==> toCopy[i] != "" && toCopy[i] !in broken
    ensures var r := BuildSpec(includeMode, entry, c, input, nodes, walked, broken);
      var dg := DepGraph(walked, ResolveEntry(input, entry).value);
      var toCopy := if includeMode then dg else NextNonDepGraph(input, dg);
      && r.ok
      && (forall p :: p in toCopy && StatOf(input, p).Some? ==> p in r.nodes && r.nodes[p] == Linked(p))
      && (forall p :: p in toCopy && StatOf(input, p).None? ==> p !in r.nodes)
      && (forall a :: a in r.nodes && a !in toCopy ==> InSomeChain(a, toCopy) && r.nodes[a] == Directory)
  {
    var actual := ResolveEntry(input, entry).value;
    var dg := DepGraph(walked, actual);
    var toCopy := if includeMode then dg else NextNonDepGraph(input, dg);
    DepGraphSpec(walked, actual);
    NextNonDepGraphSpec(input, dg);
    StrictIsDistinct(toCopy);
    CopyAllEffect(input, map[], toCopy, broken);
  }

  /** When the entry is found neither at `entry` nor at `modules/<entry>`, the fields are
      left alone; include mode leaves the output as it is, and exclude mode copies every
      top-level entry of the input onto the output, without clearing it first. */
  lemma NoEntryBranch(includeMode: bool, entry: string, c: Cache, input: seq<Tree>, nodes: Nodes,
                      walked: seq<string>, broken: set<string>)
    requires AllOrNone(c) && !GraphUnchanged(c, input) && ResolveEntry(input, entry).None?
    ensures BuildSpec(includeMode, entry, c, input, nodes, walked, broken).branch == NoEntry
    ensures BuildSpec(includeMode, entry, c, input, nodes, walked, broken).cache == c
    ensures includeMode ==>
      BuildSpec(includeMode, entry, c, input, nodes, walked, broken).ok &&
      BuildSpec(includeMode, entry, c, input, nodes, walked, broken).nodes == nodes
    ensures !includeMode ==>
      CopyResult(BuildSpec(includeMode, entry, c, input, nodes, walked, broken).ok, BuildSpec(includeMode, entry, c, input, nodes, walked, broken).nodes)
      == CopyAll(input, nodes, Names(input), broken)
  {
  }

  /** Every top-level entry of a listing can be stat'ed. */
  lemma {:induction false} TopLevelExists(ts: seq<Tree>, prefix: string, i: int)
    requires 0 <= i < |ts|
    ensures Lookup(ts, prefix, Join(prefix, ts[i].name)).Some?
  {
    if i > 0 && Join(prefix, ts[0].name) != Join(prefix, ts[i].name) {
      TopLevelExists(ts[1..], prefix, i - 1);
    }
  }

  /** A copy of the list fails when it reaches a path whose source exists and where the
      output already holds a directory, unless an earlier copy failed first. */
  lemma {:induction false} CopyAllFailsOnDirectory(input: seq<Tree>, nodes: Nodes, ps: seq<string>, broken: set<string>, i: int)
    requires Distinct(ps) && 0 <= i < |ps| && forall k :: 0 <= k < |ps| ==> ps[k] != ""
    requires StatOf(input, ps[i]).Some? && ps[i] in nodes && nodes[ps[i]] == Directory
    ensures !CopyAll(input, nodes, ps, broken).ok
    decreases i
  {
    var first := CopyFileSpec(input, nodes, ps[0], ps[0], broken);
    if i == 0 {
      CopyFileFails(input, nodes, ps[0], ps[0], broken);
    } else if first.ok {
      assert ps[0] != ps[i];
      OnlyDestinationAndParents(input, nodes, ps[0], ps[0], broken);
      assert Distinct(ps[1..]) by {
        forall a, b | 0 <= a < b < |ps[1..]| ensures ps[1..][a] != ps[1..][b] {
          assert ps[a + 1] != ps[b + 1];
        }
      }
      assert ps[1..][i - 1] == ps[i];
      CopyAllFailsOnDirectory(input, first.nodes, ps[1..], broken, i - 1);
    }
  }

  /** In exclude mode, the no-entry branch throws when the output holds a directory at the
      name of a top-level input entry (as a previous full rebuild leaves behind on the way
      to a copied path): `copyFile` cannot unlink a directory, so its retry fails. */
  lemma NoEntryExcludeThrowsOnDirectory(entry: string, c: Cache, input: seq<Tree>, nodes: Nodes,
                                        walked: seq<string>, broken: set<string>, i: int)
    requires AllOrNone(c) && !GraphUnchanged(c, input) && ResolveEntry(input, entry).None?
    requires WellFormed(input) && 0 <= i < |input|
    requires input[i].name in nodes && nodes[input[i].name] == Directory
    ensures !BuildSpec(false, entry, c, input, nodes, walked, broken).ok
  {
    var names := Names(input);
    assert BuildSpec(false, entry, c, input, nodes, walked, broken).ok == CopyAll(input, nodes, names, broken).ok;
    TopLevelExists(input, "", i);
    forall a, b | 0 <= a < b < |names| ensures names[a] != names[b] {
      assert names[a] == input[a].name && names[b] == input[b].name;
    }
    forall k | 0 <= k < |names| ensures names[k] != "" {
      assert names[k] == input[k].name && IsName(input[k].name);
    }
    assert names[i] == input[i].name;
    CopyAllFailsOnDirectory(input, nodes, names, broken, i);
  }

  /** The two graph fields change only in a full rebuild that succeeds; the cache
      branches change only the complement fields; the no-entry branch and a failed build
      change none. */
  lemma CacheFieldsRule(includeMode: bool, entry: string, c: Cache, input: seq<Tree>, nodes: Nodes,
                        walked: seq<string>, broken: set<string>)
    requires AllOrNone(c)
    ensures var r := BuildSpec(includeMode, entry, c, input, nodes, walked, broken);
      && AllOrNone(r.cache)
      && ((r.cache.depGraph != c.depGraph || r.cache.depGraphTree != c.depGraphTree) ==> r.branch == FullRebuild && r.ok)
      && (r.branch in {CacheHit, GraphUnaffected, PatchApplied} ==>
            r.cache.depGraph == c.depGraph && r.cache.depGraphTree == c.depGraphTree && r.cache.nonDepGraph.Some?)
      && (r.branch == NoEntry || !r.ok ==> r.cache == c)
  {
    if GraphUnchanged(c, input) {
      var r := RefreshStep(includeMode, c, input, nodes);
      assert r.branch in {CacheHit, GraphUnaffected, PatchApplied} && r.ok;
      assert r.cache.depGraph == c.depGraph && r.cache.depGraphTree == c.depGraphTree;
    } else {
      var r := ResolveStep(includeMode, entry, c, input, nodes, walked, broken);
      assert r.branch in {NoEntry, FullRebuild};
      assert r.branch == NoEntry || !r.ok ==> r.cache == c;
    }
  }

  /** A copy failure in a full rebuild, as the source orders its assignments, leaves the
      lists set and the snapshots unset on a first build, so the next build calls
      `calculatePatch` on an undefined `_depGraphTree`; the build as modelled keeps the
      fields unset instead. Here the platform refuses the only module. */
  lemma HalfCommittedCacheAsWritten()
    ensures var input := [File("a.js", Stat(1, 0, 0))];
      var broken := {"a.js"};
      var r := BuildSpec(true, "a.js", Unset, input, map[], [], broken);
      && r.branch == FullRebuild && !r.ok
      && !AllOrNone(FailedRebuildCacheAsWritten(Unset, DepGraph([], "a.js"), NextNonDepGraph(input, DepGraph([], "a.js"))))
      && r.cache == Unset && AllOrNone(r.cache)
  {
    var input := [File("a.js", Stat(1, 0, 0))];
    assert StatOf(input, "a.js") == Some(Stat(1, 0, 0));
    assert DepGraph([], "a.js") == ["a.js"];
    var first := CopyFileSpec(input, map[], "a.js", "a.js", {"a.js"});
    CopyFileFails(input, map[], "a.js", "a.js", {"a.js"});
    assert CopyAll(input, map[], ["a.js"], {"a.js"}) == first;
  }
}
