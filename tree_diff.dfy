/** The part of `fs-tree-diff` the funnel uses. A snapshot (an `FSTree` built with
    `FSTree.fromEntries`) is a list of (path, stat) entries in ascending path order;
    `calculatePatch` compares two snapshots of the same path space by path and stat and
    yields the operations that turn the first into the second; `applyPatch` replays
    them from the input onto the output. */
module TreeDiff {
  import opened Paths
  import opened FileSystem

  /** `Entry.fromStat(path, stat)`. */
  datatype Entry = Entry(path: string, stat: Stat)

  type Snapshot = seq<Entry>

  datatype Op = Unlink(path: string) | Create(entry: Entry) | Change(entry: Entry)

  function PathsOf(s: Snapshot): (r: seq<string>)
    ensures |r| == |s| && forall i :: 0 <= i < |s| ==> r[i] == s[i].path
  {
    if s == [] then [] else [s[0].path] + PathsOf(s[1..])
  }

  /** `FSTree.fromEntries` accepts only entries in strictly ascending path order. */
  predicate Ordered(s: Snapshot)
  {
    StrictlySorted(PathsOf(s))
  }

  /** The stat recorded for `p` in a snapshot (its first entry with that path). */
  function StatIn(s: Snapshot, p: string): Option<Stat>
  {
    if s == [] then None
    else if s[0].path == p then Some(s[0].stat)
    else StatIn(s[1..], p)
  }

  /** A removal for every path of the earlier snapshot the later one no longer has. */
  function Removals(before: Snapshot, after: Snapshot): seq<Op>
  {
    if before == [] then []
    else (if before[0].path in PathsOf(after) then [] else [Unlink(before[0].path)]) + Removals(before[1..], after)
  }

  /** A creation for every path that is new, a change for every path whose stat differs. */
  function Updates(before: Snapshot, after: Snapshot): seq<Op>
  {
    if after == [] then []
    else
      (match StatIn(before, after[0].path)
        case None => [Create(after[0])]
        case Some(s) => if s == after[0].stat then [] else [Change(after[0])])
      + Updates(before, after[1..])
  }

  /** `before.calculatePatch(after)`. */
  function CalculatePatch(before: Snapshot, after: Snapshot): seq<Op>
  {
    Removals(before, after) + Updates(before, after)
  }

  /** One operation replayed onto the output from the input: a created or changed file is
      written from the input's current content, a removed one is unlinked. */
  function ApplyOp(nodes: Nodes, op: Op): Nodes
  {
    match op
    case Unlink(p) => nodes - {p}
    case Create(e) => nodes[e.path := Copied(e.path, e.stat)]
    case Change(e) => nodes[e.path := Copied(e.path, e.stat)]
  }

  /** `FSTree.applyPatch(inputPath, outputPath, patch)`: the operations in order. */
  function ApplyOps(nodes: Nodes, ops: seq<Op>): Nodes
    decreases ops
  {
    if ops == [] then nodes else ApplyOps(ApplyOp(nodes, ops[0]), ops[1..])
  }

  method ApplyPatch(out: Output, patch: seq<Op>)
    modifies out
    ensures out.nodes == ApplyOps(old(out.nodes), patch)
  {
    for i := 0 to |patch|
      invariant out.nodes == ApplyOps(old(out.nodes), patch[..i])
    {
      assert patch[..i + 1] == patch[..i] + [patch[i]];
      ApplyOpsAppend(old(out.nodes), patch[..i], [patch[i]]);
      out.nodes := ApplyOp(out.nodes, patch[i]);
    }
    assert patch[..|patch|] == patch;
  }

  lemma {:induction false} ApplyOpsAppend(nodes: Nodes, a: seq<Op>, b: seq<Op>)
    ensures ApplyOps(nodes, a + b) == ApplyOps(ApplyOps(nodes, a), b)
    decreases a
  {
    if a == [] {
      assert a + b == b;
    } else {
      assert (a + b)[0] == a[0] && (a + b)[1..] == a[1..] + b;
      ApplyOpsAppend(ApplyOp(nodes, a[0]), a[1..], b);
    }
  }

  lemma {:induction false} StatInFound(s: Snapshot, i: int)
    requires Distinct(PathsOf(s)) && 0 <= i < |s|
    ensures StatIn(s, s[i].path) == Some(s[i].stat)
  {
    if i > 0 {
      assert PathsOf(s)[0] != PathsOf(s)[i];
      assert Distinct(PathsOf(s[1..])) by {
        forall a, b | 0 <= a < b < |s[1..]| ensures PathsOf(s[1..])[a] != PathsOf(s[1..])[b] {
          assert PathsOf(s)[a + 1] != PathsOf(s)[b + 1];
        }
      }
      StatInFound(s[1..], i - 1);
    }
  }

  lemma {:induction false} StatInMember(s: Snapshot, p: string)
    requires StatIn(s, p).Some?
    ensures Entry(p, StatIn(s, p).value) in s
  {
    if s[0].path != p {
      StatInMember(s[1..], p);
    }
  }

  lemma {:induction false} RemovalsEmpty(before: Snapshot, after: Snapshot)
    ensures Removals(before, after) == [] <==> forall i :: 0 <= i < |before| ==> before[i].path in PathsOf(after)
  {
    if before != [] {
      RemovalsEmpty(before[1..], after);
      assert forall i :: 1 <= i < |before| ==> before[i] == before[1..][i - 1];
    }
  }

  lemma {:induction false} UpdatesEmpty(before: Snapshot, after: Snapshot)
    ensures Updates(before, after) == [] <==> forall i :: 0 <= i < |after| ==> StatIn(before, after[i].path) == Some(after[i].stat)
  {
    if after != [] {
      UpdatesEmpty(before, after[1..]);
      assert forall i :: 1 <= i < |after| ==> after[i] == after[1..][i - 1];
    }
  }

  lemma PatchOfSelfEmpty(s: Snapshot)
    requires Ordered(s)
    ensures CalculatePatch(s, s) == []
  {
    StrictIsDistinct(PathsOf(s));
    RemovalsEmpty(s, s);
    UpdatesEmpty(s, s);
    forall i | 0 <= i < |s| ensures StatIn(s, s[i].path) == Some(s[i].stat) {
      StatInFound(s, i);
    }
    forall i | 0 <= i < |s| ensures s[i].path in PathsOf(s) {
      assert PathsOf(s)[i] == s[i].path;
    }
  }

  lemma EmptyPatchSamePaths(before: Snapshot, after: Snapshot)
    requires CalculatePatch(before, after) == []
    ensures forall i :: 0 <= i < |after| ==> after[i] in before
    ensures forall p :: p in PathsOf(before) <==> p in PathsOf(after)
  {
    RemovalsEmpty(before, after);
    UpdatesEmpty(before, after);
    assert Removals(before, after) == [] && Updates(before, after) == [];
    forall i | 0 <= i < |after| ensures after[i] in before {
      StatInMember(before, after[i].path);
    }
    forall p ensures p in PathsOf(before) <==> p in PathsOf(after) {
      if p in PathsOf(before) {
        var i :| 0 <= i < |before| && PathsOf(before)[i] == p;
      }
      if p in PathsOf(after) {
        var i :| 0 <= i < |after| && PathsOf(after)[i] == p;
        var j :| 0 <= j < |before| && before[j] == after[i];
        assert PathsOf(before)[j] == p;
      }
    }
  }

  /** Two ordered snapshots with an empty patch between them are equal. */
  lemma EmptyPatchEqual(before: Snapshot, after: Snapshot)
    requires Ordered(before) && Ordered(after)
    requires CalculatePatch(before, after) == []
    ensures before == after
  {
    EmptyPatchSamePaths(before, after);
    StrictlySortedUnique(PathsOf(before), PathsOf(after));
    assert |before| == |after|;
    forall i | 0 <= i < |after| ensures after[i] == before[i] {
      SameEntryAt(before, after, i);
    }
  }

  /** Where the paths of two snapshots agree, a member of `before` found at the path of
      `after[i]` is `before[i]`. */
  lemma SameEntryAt(before: Snapshot, after: Snapshot, i: int)
    requires Ordered(before)
    requires PathsOf(before) == PathsOf(after)
    requires 0 <= i < |after|
    requires after[i] in before
    ensures after[i] == before[i]
  {
    StrictIsDistinct(PathsOf(before));
    var j :| 0 <= j < |before| && before[j] == after[i];
    assert PathsOf(before)[j] == PathsOf(after)[i] == PathsOf(before)[i];
  }

  /** The patch between two snapshots is empty exactly when the snapshots are equal. */
  lemma PatchEmptyIff(before: Snapshot, after: Snapshot)
    requires Ordered(before) && Ordered(after)
    ensures CalculatePatch(before, after) == [] <==> before == after
  {
    if before == after {
      PatchOfSelfEmpty(before);
    }
    if CalculatePatch(before, after) == [] {
      EmptyPatchEqual(before, after);
    }
  }

  lemma {:induction false} RemovalsEffect(nodes: Nodes, before: Snapshot, after: Snapshot, p: string)
    ensures p in ApplyOps(nodes, Removals(before, after)) <==>
      p in nodes && !(p in PathsOf(before) && p !in PathsOf(after))
    ensures p in ApplyOps(nodes, Removals(before, after)) ==> ApplyOps(nodes, Removals(before, after))[p] == nodes[p]
  {
    if before != [] {
      var first := if before[0].path in PathsOf(after) then [] else [Unlink(before[0].path)];
      ApplyOpsAppend(nodes, first, Removals(before[1..], after));
      var mid := ApplyOps(nodes, first);
      assert mid == if before[0].path in PathsOf(after) then nodes else nodes - {before[0].path};
      RemovalsEffect(mid, before[1..], after, p);
      assert PathsOf(before) == [before[0].path] + PathsOf(before[1..]);
    }
  }

  lemma {:induction false} UpdatesEffect(nodes: Nodes, before: Snapshot, after: Snapshot, p: string)
    requires Distinct(PathsOf(after))
    ensures forall i :: 0 <= i < |after| && after[i].path == p && StatIn(before, p) != Some(after[i].stat) ==>
      p in ApplyOps(nodes, Updates(before, after)) &&
      ApplyOps(nodes, Updates(before, after))[p] == Copied(p, after[i].stat)
    ensures (forall i :: 0 <= i < |after| && after[i].path == p ==> StatIn(before, p) == Some(after[i].stat)) ==>
      (p in ApplyOps(nodes, Updates(before, after)) <==> p in nodes) &&
      (p in nodes ==> ApplyOps(nodes, Updates(before, after))[p] == nodes[p])
    decreases after
  {
    if after != [] {
      var e := after[0];
      var first := match StatIn(before, e.path)
        case None => [Create(e)]
        case Some(s) => if s == e.stat then [] else [Change(e)];
      assert Updates(before, after) == first + Updates(before, after[1..]);
      ApplyOpsAppend(nodes, first, Updates(before, after[1..]));
      var mid := ApplyOps(nodes, first);
      assert mid == if StatIn(before, e.path) == Some(e.stat) then nodes else nodes[e.path := Copied(e.path, e.stat)];
      assert Distinct(PathsOf(after[1..])) by {
        forall a, b | 0 <= a < b < |after[1..]| ensures PathsOf(after[1..])[a] != PathsOf(after[1..])[b] {
          assert PathsOf(after)[a + 1] != PathsOf(after)[b + 1];
        }
      }
      UpdatesEffect(mid, before, after[1..], p);
      forall i | 1 <= i < |after| ensures after[i] == after[1..][i - 1] && after[i].path != e.path {
        assert PathsOf(after)[0] != PathsOf(after)[i];
      }
    }
  }

  /** Applying the patch between two ordered snapshots makes the output match the after one:
      entries common to both are left alone (their stat is kept), after or changed entries
      are written, vanished paths are removed, and nothing else is touched. */
  lemma ApplyPatchEffect(nodes: Nodes, before: Snapshot, after: Snapshot)
    requires Ordered(before) && Ordered(after)
    ensures forall e :: e in before && e in after ==>
      (e.path in ApplyOps(nodes, CalculatePatch(before, after)) <==> e.path in nodes) &&
      (e.path in nodes ==> ApplyOps(nodes, CalculatePatch(before, after))[e.path] == nodes[e.path])
    ensures forall e :: e in after && e !in before ==>
      e.path in ApplyOps(nodes, CalculatePatch(before, after)) &&
      ApplyOps(nodes, CalculatePatch(before, after))[e.path] == Copied(e.path, e.stat)
    ensures forall p :: p in PathsOf(before) && p !in PathsOf(after) ==>
      p !in ApplyOps(nodes, CalculatePatch(before, after))
    ensures forall p :: p !in PathsOf(before) && p !in PathsOf(after) ==>
      (p in ApplyOps(nodes, CalculatePatch(before, after)) <==> p in nodes) &&
      (p in nodes ==> ApplyOps(nodes, CalculatePatch(before, after))[p] == nodes[p])
  {
    StrictIsDistinct(PathsOf(before));
    StrictIsDistinct(PathsOf(after));
    var removed := ApplyOps(nodes, Removals(before, after));
    ApplyOpsAppend(nodes, Removals(before, after), Updates(before, after));
    var r := ApplyOps(nodes, CalculatePatch(before, after));
    assert r == ApplyOps(removed, Updates(before, after));
    forall e | e in before && e in after
      ensures (e.path in r <==> e.path in nodes) && (e.path in nodes ==> r[e.path] == nodes[e.path])
    {
      var i :| 0 <= i < |before| && before[i] == e;
      var j :| 0 <= j < |after| && after[j] == e;
      assert PathsOf(after)[j] == e.path;
      StatInFound(before, i);
      RemovalsEffect(nodes, before, after, e.path);
      UpdatesEffect(removed, before, after, e.path);
      forall k | 0 <= k < |after| && after[k].path == e.path ensures StatIn(before, e.path) == Some(after[k].stat) {
        assert PathsOf(after)[k] == PathsOf(after)[j];
      }
    }
    forall e | e in after && e !in before
      ensures e.path in r && r[e.path] == Copied(e.path, e.stat)
    {
      var j :| 0 <= j < |after| && after[j] == e;
      if StatIn(before, e.path) == Some(e.stat) {
        StatInMember(before, e.path);
      }
      UpdatesEffect(removed, before, after, e.path);
    }
    forall p | p in PathsOf(before) && p !in PathsOf(after) ensures p !in r {
      RemovalsEffect(nodes, before, after, p);
      UpdatesEffect(removed, before, after, p);
    }
    forall p | p !in PathsOf(before) && p !in PathsOf(after)
      ensures (p in r <==> p in nodes) && (p in nodes ==> r[p] == nodes[p])
    {
      RemovalsEffect(nodes, before, after, p);
      UpdatesEffect(removed, before, after, p);
    }
  }
}
