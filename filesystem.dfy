/** The filesystem as the funnel sees it. The input is a read-only tree listed in
    `readdir` order; the output is a mutable map from output-relative path to node, with
    "" standing for the output directory itself. The platform steps the funnel relies on
    (`fs.statSync`, `fs.existsSync`, `symlink-or-copy`, `mkdirp`, `fs.unlinkSync`,
    `rimraf`) are given as functions on these values and as methods of `Output`. */
module FileSystem {
  import opened Paths

  datatype Option<T> = None | Some(value: T)

  /** The part of an `fs.Stats` record that a snapshot compares. */
  datatype Stat = Stat(size: nat, mtime: int, mode: nat)

  /** One directory entry of the input: a file, or a directory with its own listing. */
  datatype Tree =
    | File(name: string, stat: Stat)
    | Dir(name: string, stat: Stat, children: seq<Tree>)

  /** What a real directory listing guarantees: proper names, no two siblings alike. */
  predicate WellFormed(ts: seq<Tree>)
  {
    && (forall i :: 0 <= i < |ts| ==> IsName(ts[i].name))
    && (forall i, j :: 0 <= i < j < |ts| ==> ts[i].name != ts[j].name)
    && (forall i :: 0 <= i < |ts| && ts[i].Dir? ==> WellFormed(ts[i].children))
  }

  /** The stat of the node whose path (relative to the listing's own `prefix`) is `p`. */
  function Lookup(ts: seq<Tree>, prefix: string, p: string): Option<Stat>
  {
    if ts == [] then None
    else
      var here := Join(prefix, ts[0].name);
      if here == p then Some(ts[0].stat)
      else
        var below := if ts[0].Dir? then Lookup(ts[0].children, here, p) else None;
        if below.Some? then below else Lookup(ts[1..], prefix, p)
  }

  /** `existsStat(path.join(inputPath, p))`: the stat of an input path, None when absent. */
  function StatOf(input: seq<Tree>, p: string): Option<Stat>
  {
    Lookup(input, "", p)
  }

  /** `fs.readdirSync` of a directory: the names of its entries, in listing order. */
  function Names(ts: seq<Tree>): (r: seq<string>)
    ensures |r| == |ts| && forall i :: 0 <= i < |ts| ==> r[i] == ts[i].name
  {
    if ts == [] then [] else [ts[0].name] + Names(ts[1..])
  }

  /** A node of the output directory: a directory made by `mkdirp`, a link (or copy)
      made by `symlink-or-copy` from an input path, or a file written by a tree patch. */
  datatype ONode = Directory | Linked(source: string) | Copied(source: string, stat: Stat)

  type Nodes = map<string, ONode>

  /** `fs.existsSync(path.dirname(dst))` holds and names a directory. */
  predicate ParentIsDirectory(nodes: Nodes, dst: string)
  {
    Dirname(dst) in nodes && nodes[Dirname(dst)] == Directory
  }

  /** When `symlinkOrCopy.sync(src, dst)` succeeds: the source can be stat'ed, nothing is in
      the way at the destination, its parent is a directory, and the platform does not
      refuse this destination (`broken` collects the destinations where linking and
      copying fail for reasons outside the model: permissions, a full disk). */
  predicate LinkSucceeds(input: seq<Tree>, nodes: Nodes, src: string, dst: string, broken: set<string>)
  {
    StatOf(input, src).Some? && dst !in nodes && ParentIsDirectory(nodes, dst) && dst !in broken
  }

  /** `mkdirp.sync(dir)` throws (ENOTDIR) when something other than a directory already
      stands on the way from the root down to `dir`. */
  predicate MkdirBlocked(nodes: Nodes, dir: string)
  {
    exists a :: a in Chain(dir) && a in nodes && nodes[a] != Directory
  }

  /** `mkdirp.sync(dir)` when nothing blocks it: every missing directory from the root down
      to `dir` is made, and afterwards the whole chain consists of directories. */
  function MakeDirs(nodes: Nodes, dir: string): (r: Nodes)
    requires !MkdirBlocked(nodes, dir)
    ensures forall a :: a in nodes ==> a in r && r[a] == nodes[a]
    ensures forall a :: a in Chain(dir) ==> a in r && r[a] == Directory
    ensures forall a :: a in r && a !in nodes ==> a in Chain(dir) && r[a] == Directory
  {
    nodes + map a | a in Chain(dir) && a !in nodes :: Directory
  }

  /** `fs.unlinkSync(p)` with its error ignored: a directory or a missing path stays as is. */
  function Unlinked(nodes: Nodes, p: string): (r: Nodes)
    ensures p in r <==> p in nodes && nodes[p] == Directory
    ensures forall a :: a != p ==> (a in r <==> a in nodes) && (a in r ==> r[a] == nodes[a])
  {
    if p in nodes && nodes[p] != Directory then nodes - {p} else nodes
  }

  /** The output directory of one funnel instance. */
  class Output {
    var nodes: Nodes

    /** The host pipeline hands the plugin an existing, empty output directory. */
    constructor()
      ensures nodes == map["" := Directory]
    {
      nodes := map["" := Directory];
    }

    /** `fs.existsSync` on an output path. */
    predicate Exists(p: string)
      reads this
    {
      p in nodes
    }

    /** `rimraf.sync(outputPath)`: the output directory and everything in it are gone. */
    method Rimraf()
      modifies this
      ensures nodes == map[]
    {
      nodes := map[];
    }

    /** `symlinkOrCopy.sync(src, dst)`; `ok` is false where the library would throw. */
    method SymlinkOrCopy(input: seq<Tree>, src: string, dst: string, broken: set<string>) returns (ok: bool)
      modifies this
      ensures ok == LinkSucceeds(input, old(nodes), src, dst, broken)
      ensures nodes == if ok then old(nodes)[dst := Linked(src)] else old(nodes)
    {
      ok := LinkSucceeds(input, nodes, src, dst, broken);
      if ok {
        nodes := nodes[dst := Linked(src)];
      }
    }

    /** `mkdirp.sync(dir)`; `ok` is false where it would throw, and then nothing is made. */
    method Mkdirp(dir: string) returns (ok: bool)
      modifies this
      ensures ok <==> !MkdirBlocked(old(nodes), dir)
      ensures nodes == if ok then MakeDirs(old(nodes), dir) else old(nodes)
    {
      ok := !MkdirBlocked(nodes, dir);
      if ok {
        nodes := MakeDirs(nodes, dir);
      }
    }

    /** `fs.unlinkSync(p)`; `ok` is false where it would throw. */
    method Unlink(p: string) returns (ok: bool)
      modifies this
      ensures ok <==> p in old(nodes) && old(nodes)[p] != Directory
      ensures nodes == Unlinked(old(nodes), p)
    {
      ok := p in nodes && nodes[p] != Directory;
      nodes := Unlinked(nodes, p);
    }
  }
}
