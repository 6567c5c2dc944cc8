/** `copyFile(sourcePath, destPath)`: link or copy one input path into the output; on
    failure skip a missing source, otherwise make the parent directory, remove whatever
    is at the destination and try once more, letting a second failure escape. */
module CopyFile {
  import opened Paths
  import opened FileSystem

  /** `ok` is false when `copyFile` throws; `nodes` is the output afterwards either way. */
  datatype CopyResult = CopyResult(ok: bool, nodes: Nodes)

  /** `mkdirp` is reached (`existsSync` did not find the parent) and throws. */
  predicate ParentBlocked(nodes: Nodes, dst: string)
  {
    Dirname(dst) !in nodes && MkdirBlocked(nodes, Dirname(dst))
  }

  /** The output right before the second attempt: the parent directory made when
      `existsSync` did not find it, then the destination unlinked (errors ignored). */
  function PrepareRetry(nodes: Nodes, dst: string): Nodes
    requires !ParentBlocked(nodes, dst)
  {
    var withDir := if Dirname(dst) in nodes then nodes else MakeDirs(nodes, Dirname(dst));
    Unlinked(withDir, dst)
  }

  /** What `copyFile` does to the output, step by step. */
  function CopyFileSpec(input: seq<Tree>, nodes: Nodes, src: string, dst: string, broken: set<string>): CopyResult
  {
    if LinkSucceeds(input, nodes, src, dst, broken) then CopyResult(true, nodes[dst := Linked(src)])
    else if StatOf(input, src).None? then CopyResult(true, nodes)
    else if ParentBlocked(nodes, dst) then CopyResult(false, nodes)
    else
      var ready := PrepareRetry(nodes, dst);
      if LinkSucceeds(input, ready, src, dst, broken) then CopyResult(true, ready[dst := Linked(src)])
      else CopyResult(false, ready)
  }

  method CopyFile(input: seq<Tree>, out: Output, src: string, dst: string, broken: set<string>) returns (ok: bool)
    modifies out
    ensures CopyResult(ok, out.nodes) == CopyFileSpec(input, old(out.nodes), src, dst, broken)
  {
    var destDir := Dirname(dst);
    var linked := out.SymlinkOrCopy(input, src, dst, broken);
    if linked {
      return true;
    }
    // the source does not exist: nothing to do
    if StatOf(input, src).None? {
      return true;
    }
    if !out.Exists(destDir) {
      var made := out.Mkdirp(destDir);
      if !made {
        return false;
      }
    }
    var _ := out.Unlink(dst);
    ok := out.SymlinkOrCopy(input, src, dst, broken);
  }

  /** A first attempt that succeeds is the only step taken: the destination now links
      to the source and nothing else in the output changed. */
  lemma FirstAttemptOnly(input: seq<Tree>, nodes: Nodes, src: string, dst: string, broken: set<string>)
    requires LinkSucceeds(input, nodes, src, dst, broken)
    ensures CopyFileSpec(input, nodes, src, dst, broken).ok
    ensures CopyFileSpec(input, nodes, src, dst, broken).nodes.Keys == nodes.Keys + {dst}
    ensures CopyFileSpec(input, nodes, src, dst, broken).nodes[dst] == Linked(src)
    ensures forall a :: a in nodes ==> CopyFileSpec(input, nodes, src, dst, broken).nodes[a] == nodes[a]
  {
  }

  /** A missing source is skipped without an error and without touching the output. */
  lemma MissingSourceSkipped(input: seq<Tree>, nodes: Nodes, src: string, dst: string, broken: set<string>)
    requires StatOf(input, src).None?
    ensures CopyFileSpec(input, nodes, src, dst, broken) == CopyResult(true, nodes)
  {
  }

  /** Before the second attempt the destination's parent exists (as a directory when it
      had to be made), and any destination other than a directory has been removed. */
  lemma RetryIsPrepared(nodes: Nodes, dst: string)
    requires dst != "" && !ParentBlocked(nodes, dst)
    ensures Dirname(dst) in PrepareRetry(nodes, dst)
    ensures Dirname(dst) !in nodes ==> PrepareRetry(nodes, dst)[Dirname(dst)] == Directory
    ensures dst in PrepareRetry(nodes, dst) <==> dst in nodes && nodes[dst] == Directory
  {
    NotInOwnChain(dst);
  }

  /** After a normal return from copying an existing source, the destination refers to it. */
  lemma DestinationRefersToSource(input: seq<Tree>, nodes: Nodes, src: string, dst: string, broken: set<string>)
    requires StatOf(input, src).Some?
    requires CopyFileSpec(input, nodes, src, dst, broken).ok
    ensures dst in CopyFileSpec(input, nodes, src, dst, broken).nodes
    ensures CopyFileSpec(input, nodes, src, dst, broken).nodes[dst] == Linked(src)
  {
  }

  /** Only the destination and its parent directory chain are touched: every other path of
      the output keeps its node, and what is new besides the destination is a directory. */
  lemma OnlyDestinationAndParents(input: seq<Tree>, nodes: Nodes, src: string, dst: string, broken: set<string>)
    requires dst != ""
    ensures forall a :: a != dst && a in nodes ==>
      a in CopyFileSpec(input, nodes, src, dst, broken).nodes &&
      CopyFileSpec(input, nodes, src, dst, broken).nodes[a] == nodes[a]
    ensures forall a :: a != dst && a in CopyFileSpec(input, nodes, src, dst, broken).nodes && a !in nodes ==>
      a in Chain(Dirname(dst)) && CopyFileSpec(input, nodes, src, dst, broken).nodes[a] == Directory
  {
    NotInOwnChain(dst);
  }

  /** `copyFile` throws exactly when the source exists and the second attempt cannot
      succeed: the platform refuses the destination, a directory sits at the destination
      (unlinking it fails silently), something other than a directory sits at its parent,
      or the parent is missing and `mkdirp` meets a non-directory on the way to it. */
  lemma CopyFileFails(input: seq<Tree>, nodes: Nodes, src: string, dst: string, broken: set<string>)
    requires dst != ""
    ensures !CopyFileSpec(input, nodes, src, dst, broken).ok <==>
      StatOf(input, src).Some? &&
      (dst in broken ||
       (dst in nodes && nodes[dst] == Directory) ||
       (Dirname(dst) in nodes && nodes[Dirname(dst)] != Directory) ||
       ParentBlocked(nodes, dst))
  {
    NotInOwnChain(dst);
    var d := Dirname(dst);
    if ParentBlocked(nodes, dst) {
      return;
    }
    var withDir := if d in nodes then nodes else MakeDirs(nodes, d);
    assert d in Chain(d);
    assert dst in withDir <==> dst in nodes;
    assert dst in withDir ==> withDir[dst] == nodes[dst];
    assert d in withDir && (withDir[d] == Directory <==> d !in nodes || nodes[d] == Directory);
    RetryIsPrepared(nodes, dst);
  }

  /** With `x` a link and `x/y` missing, copying to `x/y/z` reaches `mkdirp("x/y")`, which
      meets the link on its way and throws; the output is left as it was. */
  lemma BlockedByLink(st: Stat)
    ensures CopyFileSpec([File("q", st)], map["" := Directory, "x" := Linked("q")], "q", "x/y/z", {}) ==
      CopyResult(false, map["" := Directory, "x" := Linked("q")])
  {
    var nodes := map["" := Directory, "x" := Linked("q")];
    assert LastSlash("x/y/z") == 3;
    assert Dirname("x/y/z") == "x/y";
    assert "x/y"[..1] == "x";
    assert "x" in Chain("x/y");
    assert ParentBlocked(nodes, "x/y/z");
  }
}
