/** The pure parts of the funnel: the snapshot of a list of paths (`_getFSTree`), the
    complement of the dependency graph (`nextNonDepGraph`), entry resolution, the graph
    built from the walker's answer, and the loop of `copy` as a function on the output. */
module Graph {
  import opened Paths
  import opened FileSystem
  import opened FilterDirectory
  import opened TreeDiff
  import opened CopyFile

  /** `_getFSTree(paths)`: an entry for every path whose stat succeeds, in the given order. */
  function GetFSTree(input: seq<Tree>, paths: seq<string>): Snapshot
  {
    if paths == [] then []
    else
      (match StatOf(input, paths[0])
        case None => []
        case Some(s) => [Entry(paths[0], s)])
      + GetFSTree(input, paths[1..])
  }

  /** `a` is `b` with some elements left out, the rest in their order. */
  predicate Subsequence(a: seq<string>, b: seq<string>)
  {
    if a == [] then true
    else if b == [] then false
    else if a[0] == b[0] then Subsequence(a[1..], b[1..])
    else Subsequence(a, b[1..])
  }

  /** Every entry of the snapshot is one of the paths, with the stat the input has for it. */
  lemma {:induction false} GetFSTreeSound(input: seq<Tree>, paths: seq<string>)
    ensures forall e :: e in GetFSTree(input, paths) ==> e.path in paths && StatOf(input, e.path) == Some(e.stat)
  {
    if paths != [] {
      GetFSTreeSound(input, paths[1..]);
    }
  }

  /** Only the paths without a stat are left out. */
  lemma {:induction false} GetFSTreeComplete(input: seq<Tree>, paths: seq<string>)
    ensures forall p :: p in paths && StatOf(input, p).Some? ==> Entry(p, StatOf(input, p).value) in GetFSTree(input, paths)
  {
    if paths != [] {
      GetFSTreeComplete(input, paths[1..]);
      forall p | p in paths && StatOf(input, p).Some?
        ensures Entry(p, StatOf(input, p).value) in GetFSTree(input, paths)
      {
        if p != paths[0] {
          assert p in paths[1..];
        }
      }
    }
  }

  /** The order of the given paths is kept. */
  lemma {:induction false} GetFSTreeKeepsOrder(input: seq<Tree>, paths: seq<string>)
    ensures Subsequence(PathsOf(GetFSTree(input, paths)), paths)
  {
    if paths != [] {
      GetFSTreeKeepsOrder(input, paths[1..]);
      var rest := GetFSTree(input, paths[1..]);
      if StatOf(input, paths[0]).Some? {
        var r := [Entry(paths[0], StatOf(input, paths[0]).value)] + rest;
        assert GetFSTree(input, paths) == r;
        assert PathsOf(r)[1..] == PathsOf(rest);
      } else {
        assert GetFSTree(input, paths) == rest;
        SubsequenceOfTail(PathsOf(rest), paths);
      }
    }
  }

  lemma SubsequenceOfTail(a: seq<string>, b: seq<string>)
    requires b != [] && Subsequence(a, b[1..])
    ensures Subsequence(a, b)
    decreases |b|, 0
  {
    if a != [] && a[0] == b[0] {
      SubsequenceDrop(a, b[1..]);
    }
  }

  lemma {:induction false} SubsequenceDrop(a: seq<string>, b: seq<string>)
    requires a != [] && Subsequence(a, b)
    ensures Subsequence(a[1..], b)
    decreases |b|, 1
  {
    if a[0] == b[0] {
      if a[1..] != [] {
        SubsequenceOfTail(a[1..], b);
      }
    } else {
      SubsequenceDrop(a, b[1..]);
      if a[1..] != [] {
        SubsequenceOfTail(a[1..], b);
      }
    }
  }

  /** A strictly ordered path list gives a snapshot `FSTree.fromEntries` accepts. */
  lemma {:induction false} GetFSTreeOrdered(input: seq<Tree>, paths: seq<string>)
    requires StrictlySorted(paths)
    ensures Ordered(GetFSTree(input, paths))
  {
    if paths != [] {
      assert StrictlySorted(paths[1..]) by {
        forall i, j | 0 <= i < j < |paths[1..]| ensures Less(paths[1..][i], paths[1..][j]) {
          assert paths[1..][i] == paths[i + 1] && paths[1..][j] == paths[j + 1];
        }
      }
      GetFSTreeOrdered(input, paths[1..]);
      var rest := GetFSTree(input, paths[1..]);
      if StatOf(input, paths[0]).Some? {
        var r := [Entry(paths[0], StatOf(input, paths[0]).value)] + rest;
        assert GetFSTree(input, paths) == r;
        GetFSTreeSound(input, paths[1..]);
        forall i, j | 0 <= i < j < |r| ensures Less(PathsOf(r)[i], PathsOf(r)[j]) {
          assert PathsOf(r)[j] == rest[j - 1].path;
          if i > 0 {
            assert PathsOf(rest)[i - 1] == PathsOf(r)[i];
            assert PathsOf(rest)[j - 1] == PathsOf(r)[j];
          } else {
            assert rest[j - 1] in rest;
            var k :| 0 <= k < |paths[1..]| && paths[1..][k] == rest[j - 1].path;
            assert paths[k + 1] == rest[j - 1].path;
          }
        }
      }
    }
  }

  /** The module filter of `nextNonDepGraph`: not a member of the dependency graph. */
  function NotIn(dg: seq<string>): string -> bool
  {
    p => p !in dg
  }

  /** `nextNonDepGraph()`: the input's files outside the dependency graph, sorted. */
  function NextNonDepGraph(input: seq<Tree>, dg: seq<string>): seq<string>
  {
    Sort(Filtered(input, "", NotIn(dg)))
  }

  /** `p` is the path of a file (not a directory) of the input. */
  ghost predicate IsInputFile(input: seq<Tree>, p: string)
  {
    exists route :: FileRoute(input, route) && JoinAll("", route) == p
  }

  /** The complement is strictly sorted, disjoint from the graph, made of input files, and
      together with the graph covers every file of the input. */
  lemma NextNonDepGraphSpec(input: seq<Tree>, dg: seq<string>)
    requires WellFormed(input)
    ensures StrictlySorted(NextNonDepGraph(input, dg))
    ensures forall p :: p in NextNonDepGraph(input, dg) ==> p !in dg
    ensures forall p :: p in NextNonDepGraph(input, dg) ==> IsInputFile(input, p)
    ensures forall route :: FileRoute(input, route) ==>
      JoinAll("", route) in dg || JoinAll("", route) in NextNonDepGraph(input, dg)
  {
    var files := Filtered(input, "", NotIn(dg));
    FilteredDistinct(input, "", NotIn(dg));
    SortDistinct(files);
    forall p | p in NextNonDepGraph(input, dg) ensures p !in dg {
      FilteredSound(input, "", NotIn(dg), p);
      assert NotIn(dg)(p);
    }
    forall p | p in NextNonDepGraph(input, dg) ensures IsInputFile(input, p) {
      NonDepGraphFile(input, dg, p);
    }
    forall route | FileRoute(input, route) && JoinAll("", route) !in dg
      ensures JoinAll("", route) in NextNonDepGraph(input, dg)
    {
      FilteredComplete(input, "", NotIn(dg), route);
    }
  }

  lemma NonDepGraphFile(input: seq<Tree>, dg: seq<string>, p: string)
    requires WellFormed(input) && p in NextNonDepGraph(input, dg)
    ensures IsInputFile(input, p)
  {
    var files := Filtered(input, "", NotIn(dg));
    FilteredDistinct(input, "", NotIn(dg));
    SortDistinct(files);
    FilteredSound(input, "", NotIn(dg), p);
  }

  /** Where the entry module is found: `entry` itself, else `modules/<entry>`. */
  function ResolveEntry(input: seq<Tree>, entry: string): (r: Option<string>)
    ensures r.None? <==> StatOf(input, entry).None? && StatOf(input, Join("modules", entry)).None?
    ensures r.Some? ==> StatOf(input, r.value).Some?
    ensures StatOf(input, entry).Some? ==> r == Some(entry)
    ensures r.Some? && r.value != entry ==> r.value == Join("modules", entry)
  {
    if StatOf(input, entry).Some? then Some(entry)
    else if StatOf(input, Join("modules", entry)).Some? then Some(Join("modules", entry))
    else None
  }

  /** The walker's modules with the entry put in front when it is not among them. */
  function WithEntry(walked: seq<string>, actual: string): seq<string>
  {
    if actual in walked then walked else [actual] + walked
  }

  /** `modules.sort()` after the entry has been added. */
  function DepGraph(walked: seq<string>, actual: string): seq<string>
  {
    Sort(WithEntry(walked, actual))
  }

  /** The dependency graph is strictly sorted and holds exactly the walked modules and the entry. */
  lemma DepGraphSpec(walked: seq<string>, actual: string)
    requires Distinct(walked)
    ensures StrictlySorted(DepGraph(walked, actual))
    ensures actual in DepGraph(walked, actual)
    ensures forall p :: p in DepGraph(walked, actual) <==> p in walked || p == actual
  {
    var m := WithEntry(walked, actual);
    if actual !in walked {
      DistinctConcat([actual], walked);
    }
    SortDistinct(m);
  }

  /** `copy(inodes)`: `copyFile` for each path in order, stopping at the first that throws. */
  function CopyAll(input: seq<Tree>, nodes: Nodes, ps: seq<string>, broken: set<string>): CopyResult
    decreases ps
  {
    if ps == [] then CopyResult(true, nodes)
    else
      var r := CopyFileSpec(input, nodes, ps[0], ps[0], broken);
      if !r.ok then r else CopyAll(input, r.nodes, ps[1..], broken)
  }

  /** No path of the list is a directory above another one. */
  predicate NoNesting(ps: seq<string>)
  {
    forall i, j :: 0 <= i < |ps| && 0 <= j < |ps| ==> ps[i] !in Chain(Dirname(ps[j]))
  }

  /** Whatever already stands on the way to a destination is a directory. */
  predicate ChainsAreDirectories(nodes: Nodes, ps: seq<string>)
  {
    forall j, a :: 0 <= j < |ps| && a in Chain(Dirname(ps[j])) && a in nodes ==> nodes[a] == Directory
  }

  ghost predicate InSomeChain(a: string, ps: seq<string>)
  {
    exists j :: 0 <= j < |ps| && a in Chain(Dirname(ps[j]))
  }

  /** The conditions under which copying a list of paths meets nothing in its way. */
  predicate CopyReady(nodes: Nodes, ps: seq<string>, broken: set<string>)
  {
    && Distinct(ps) && NoNesting(ps) && ChainsAreDirectories(nodes, ps)
    && forall i :: 0 <= i < |ps| ==> ps[i] != "" && ps[i] !in broken && ps[i] !in nodes
  }

  /** Copying the first path of a ready list succeeds and adds only that path (when its
      source exists) and directories on the way to it. */
  lemma CopyHead(input: seq<Tree>, nodes: Nodes, ps: seq<string>, broken: set<string>)
    requires ps != [] && CopyReady(nodes, ps, broken)
    ensures CopyFileSpec(input, nodes, ps[0], ps[0], broken).ok
    ensures ps[0] in CopyFileSpec(input, nodes, ps[0], ps[0], broken).nodes <==> StatOf(input, ps[0]).Some?
    ensures ps[0] in CopyFileSpec(input, nodes, ps[0], ps[0], broken).nodes ==>
      CopyFileSpec(input, nodes, ps[0], ps[0], broken).nodes[ps[0]] == Linked(ps[0])
    ensures forall a :: a in nodes ==>
      a in CopyFileSpec(input, nodes, ps[0], ps[0], broken).nodes && CopyFileSpec(input, nodes, ps[0], ps[0], broken).nodes[a] == nodes[a]
    ensures forall a :: a in CopyFileSpec(input, nodes, ps[0], ps[0], broken).nodes && a !in nodes && a != ps[0] ==>
      a in Chain(Dirname(ps[0])) && CopyFileSpec(input, nodes, ps[0], ps[0], broken).nodes[a] == Directory
  {
    var p := ps[0];
    CopyFileFails(input, nodes, p, p, broken);
    assert Dirname(p) in Chain(Dirname(p));
    OnlyDestinationAndParents(input, nodes, p, p, broken);
    if StatOf(input, p).Some? {
      DestinationRefersToSource(input, nodes, p, p, broken);
    } else {
      MissingSourceSkipped(input, nodes, p, p, broken);
    }
  }

  /** After the first copy, the rest of a ready list is still ready. */
  lemma CopyTailReady(input: seq<Tree>, nodes: Nodes, ps: seq<string>, broken: set<string>)
    requires ps != [] && CopyReady(nodes, ps, broken)
    ensures CopyReady(CopyFileSpec(input, nodes, ps[0], ps[0], broken).nodes, ps[1..], broken)
  {
    CopyHead(input, nodes, ps, broken);
    var mid := CopyFileSpec(input, nodes, ps[0], ps[0], broken).nodes;
    var tail := ps[1..];
    forall i | 0 <= i < |tail|
      ensures tail[i] == ps[i + 1] && tail[i] != ps[0] && tail[i] !in Chain(Dirname(ps[0])) && ps[0] !in Chain(Dirname(tail[i]))
    {
      assert ps[0] != ps[i + 1];
    }
    assert Distinct(tail);
    assert NoNesting(tail);
    assert ChainsAreDirectories(mid, tail);
  }

  /** When nothing is in the way, copying a list of distinct, non-nested paths succeeds:
      each existing source is linked at its own path, missing ones are skipped, what was
      there stays, and everything else that is new is a directory on the way to a path. */
  lemma {:induction false} CopyAllEffect(input: seq<Tree>, nodes: Nodes, ps: seq<string>, broken: set<string>)
    requires CopyReady(nodes, ps, broken)
    ensures CopyAll(input, nodes, ps, broken).ok
    ensures forall i :: 0 <= i < |ps| && StatOf(input, ps[i]).Some? ==>
      ps[i] in CopyAll(input, nodes, ps, broken).nodes && CopyAll(input, nodes, ps, broken).nodes[ps[i]] == Linked(ps[i])
    ensures forall i :: 0 <= i < |ps| && StatOf(input, ps[i]).None? ==> ps[i] !in CopyAll(input, nodes, ps, broken).nodes
    ensures forall a :: a in nodes ==> a in CopyAll(input, nodes, ps, broken).nodes && CopyAll(input, nodes, ps, broken).nodes[a] == nodes[a]
    ensures forall a :: a in CopyAll(input, nodes, ps, broken).nodes && a !in nodes && a !in ps ==>
      InSomeChain(a, ps) && CopyAll(input, nodes, ps, broken).nodes[a] == Directory
    decreases ps
  {
    if ps != [] {
      var p := ps[0];
      var tail := ps[1..];
      CopyHead(input, nodes, ps, broken);
      CopyTailReady(input, nodes, ps, broken);
      var mid := CopyFileSpec(input, nodes, p, p, broken).nodes;
      CopyAllEffect(input, mid, tail, broken);
      var result := CopyAll(input, mid, tail, broken).nodes;
      assert CopyAll(input, nodes, ps, broken) == CopyAll(input, mid, tail, broken);
      CopyStepPaths(input, mid, result, ps);
      CopyStepOthers(nodes, mid, result, ps);
    }
  }

  /** The copied paths themselves: with the head's effect on `mid` and the tail's effect
      on `result`, each path of the whole list is linked or absent as its source is. */
  lemma CopyStepPaths(input: seq<Tree>, mid: Nodes, result: Nodes, ps: seq<string>)
    requires ps != [] && Distinct(ps) && NoNesting(ps)
    requires ps[0] in mid <==> StatOf(input, ps[0]).Some?
    requires ps[0] in mid ==> mid[ps[0]] == Linked(ps[0])
    requires forall i :: 0 <= i < |ps[1..]| && StatOf(input, ps[1..][i]).Some? ==>
      ps[1..][i] in result && result[ps[1..][i]] == Linked(ps[1..][i])
    requires forall i :: 0 <= i < |ps[1..]| && StatOf(input, ps[1..][i]).None? ==> ps[1..][i] !in result
    requires ps[0] in mid ==> ps[0] in result && result[ps[0]] == mid[ps[0]]
    requires ps[0] in result && ps[0] !in mid && ps[0] !in ps[1..] ==> InSomeChain(ps[0], ps[1..])
    ensures forall i :: 0 <= i < |ps| && StatOf(input, ps[i]).Some? ==> ps[i] in result && result[ps[i]] == Linked(ps[i])
    ensures forall i :: 0 <= i < |ps| && StatOf(input, ps[i]).None? ==> ps[i] !in result
  {
    var tail := ps[1..];
    forall k | 0 <= k < |tail| ensures tail[k] != ps[0] && ps[0] !in Chain(Dirname(tail[k])) {
      assert tail[k] == ps[k + 1];
    }
    assert !InSomeChain(ps[0], tail);
    forall i | 0 <= i < |ps| && StatOf(input, ps[i]).None? ensures ps[i] !in result {
      if i > 0 { assert ps[i] == tail[i - 1]; }
    }
    forall i | 0 <= i < |ps| && StatOf(input, ps[i]).Some?
      ensures ps[i] in result && result[ps[i]] == Linked(ps[i])
    {
      if i > 0 { assert ps[i] == tail[i - 1]; }
    }
  }

  /** Everything but the copied paths: what was there stays, and what is new is a
      directory on the way to one of the paths. */
  lemma CopyStepOthers(nodes: Nodes, mid: Nodes, result: Nodes, ps: seq<string>)
    requires ps != []
    requires forall a :: a in nodes ==> a in mid && mid[a] == nodes[a]
    requires forall a :: a in mid && a !in nodes && a != ps[0] ==> a in Chain(Dirname(ps[0])) && mid[a] == Directory
    requires forall a :: a in mid ==> a in result && result[a] == mid[a]
    requires forall a :: a in result && a !in mid && a !in ps[1..] ==> InSomeChain(a, ps[1..]) && result[a] == Directory
    ensures forall a :: a in nodes ==> a in result && result[a] == nodes[a]
    ensures forall a :: a in result && a !in nodes && a !in ps ==> InSomeChain(a, ps) && result[a] == Directory
  {
    var tail := ps[1..];
    forall k | 0 <= k < |tail| ensures tail[k] in ps {
      assert tail[k] == ps[k + 1];
    }
    forall a | a in result && a !in nodes && a !in ps
      ensures InSomeChain(a, ps) && result[a] == Directory
    {
      if a in mid {
        assert a in Chain(Dirname(ps[0]));
      } else {
        var j :| 0 <= j < |tail| && a in Chain(Dirname(tail[j]));
        assert a in Chain(Dirname(ps[j + 1]));
      }
    }
  }
}
