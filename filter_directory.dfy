/** `filterDirectory(directory, prefix, predicate)`: every file below a directory, in
    listing order and with each subdirectory's files spliced in at its place, whose
    prefix-joined path satisfies the predicate. Directories are walked, never returned. */
module FilterDirectory {
  import opened Paths
  import opened FileSystem

  /** What `filterDirectory` returns for the listing `ts` reached at `prefix`. */
  function Filtered(ts: seq<Tree>, prefix: string, pred: string -> bool): seq<string>
  {
    if ts == [] then []
    else
      var here := Join(prefix, ts[0].name);
      (match ts[0]
        case Dir(_, _, kids) => Filtered(kids, here, pred)
        case File(_, _) => if pred(here) then [here] else [])
      + Filtered(ts[1..], prefix, pred)
  }

  /** The loop of `filterDirectory` over one `readdirSync` listing, recursing into
      subdirectories and pushing the matching file paths. */
  method FilterDirectory(ts: seq<Tree>, prefix: string, pred: string -> bool) returns (files: seq<string>)
    ensures files == Filtered(ts, prefix, pred)
  {
    files := [];
    for i := 0 to |ts|
      invariant files == Filtered(ts[..i], prefix, pred)
    {
      var inode := ts[i];
      var currentPath := Join(prefix, inode.name);
      assert ts[..i + 1] == ts[..i] + [inode];
      FilteredAppend(ts[..i], [inode], prefix, pred);
      FilteredSingle(inode, prefix, pred);
      if inode.Dir? {
        var sub := FilterDirectory(inode.children, currentPath, pred);
        files := files + sub;
      } else if pred(currentPath) {
        files := files + [currentPath];
      }
    }
    assert ts[..|ts|] == ts;
  }

  /** The files contributed by one listing entry. */
  lemma FilteredSingle(t: Tree, prefix: string, pred: string -> bool)
    ensures Filtered([t], prefix, pred) ==
      if t.Dir? then Filtered(t.children, Join(prefix, t.name), pred)
      else if pred(Join(prefix, t.name)) then [Join(prefix, t.name)] else []
  {
    assert [t][1..] == [];
  }

  /** The path reached from `prefix` by following the names of `route`. */
  function JoinAll(prefix: string, route: seq<string>): string
    decreases route
  {
    if route == [] then prefix else JoinAll(Join(prefix, route[0]), route[1..])
  }

  /** `route` names a way from the listing `ts` down to a file (not a directory). */
  ghost predicate FileRoute(ts: seq<Tree>, route: seq<string>)
  {
    && |route| > 0
    && exists i :: 0 <= i < |ts| && ts[i].name == route[0] &&
         if |route| == 1 then ts[i].File?
         else ts[i].Dir? && FileRoute(ts[i].children, route[1..])
  }

  lemma FileRouteInTail(ts: seq<Tree>, route: seq<string>)
    requires ts != [] && FileRoute(ts[1..], route)
    ensures FileRoute(ts, route)
  {
    var i :| 0 <= i < |ts[1..]| && ts[1..][i].name == route[0] &&
      if |route| == 1 then ts[1..][i].File?
      else ts[1..][i].Dir? && FileRoute(ts[1..][i].children, route[1..]);
    assert ts[i + 1] == ts[1..][i];
  }

  /** Soundness: every returned path satisfies the predicate and is the prefix joined
      with the names along a route that ends at a file. */
  lemma {:induction false} FilteredSound(ts: seq<Tree>, prefix: string, pred: string -> bool, p: string)
    requires p in Filtered(ts, prefix, pred)
    ensures pred(p)
    ensures exists route :: FileRoute(ts, route) && JoinAll(prefix, route) == p
  {
    var here := Join(prefix, ts[0].name);
    var head := match ts[0]
      case Dir(_, _, kids) => Filtered(kids, here, pred)
      case File(_, _) => if pred(here) then [here] else [];
    assert Filtered(ts, prefix, pred) == head + Filtered(ts[1..], prefix, pred);
    if p in head {
      if ts[0].Dir? {
        FilteredSound(ts[0].children, here, pred, p);
        var r :| FileRoute(ts[0].children, r) && JoinAll(here, r) == p;
        var route := [ts[0].name] + r;
        assert route[1..] == r;
        assert FileRoute(ts, route);
        assert JoinAll(prefix, route) == p;
      } else {
        var route := [ts[0].name];
        assert FileRoute(ts, route);
        assert JoinAll(prefix, route) == here == p;
      }
    } else {
      FilteredSound(ts[1..], prefix, pred, p);
      var route :| FileRoute(ts[1..], route) && JoinAll(prefix, route) == p;
      FileRouteInTail(ts, route);
    }
  }

  /** Completeness: every file below the listing whose path satisfies the predicate is returned. */
  lemma {:induction false} FilteredComplete(ts: seq<Tree>, prefix: string, pred: string -> bool, route: seq<string>)
    requires FileRoute(ts, route) && pred(JoinAll(prefix, route))
    ensures JoinAll(prefix, route) in Filtered(ts, prefix, pred)
  {
    var i :| 0 <= i < |ts| && ts[i].name == route[0] &&
      if |route| == 1 then ts[i].File?
      else ts[i].Dir? && FileRoute(ts[i].children, route[1..]);
    var here := Join(prefix, ts[0].name);
    var head := match ts[0]
      case Dir(_, _, kids) => Filtered(kids, here, pred)
      case File(_, _) => if pred(here) then [here] else [];
    assert Filtered(ts, prefix, pred) == head + Filtered(ts[1..], prefix, pred);
    if i == 0 {
      if |route| == 1 {
        assert JoinAll(prefix, route) == here;
      } else {
        FilteredComplete(ts[0].children, here, pred, route[1..]);
      }
    } else {
      assert ts[1..][i - 1] == ts[i];
      assert FileRoute(ts[1..], route);
      FilteredComplete(ts[1..], prefix, pred, route);
    }
  }

  /** Listing order is kept: the files of earlier entries come before those of later ones. */
  lemma {:induction false} FilteredAppend(a: seq<Tree>, b: seq<Tree>, prefix: string, pred: string -> bool)
    ensures Filtered(a + b, prefix, pred) == Filtered(a, prefix, pred) + Filtered(b, prefix, pred)
  {
    if a == [] {
      assert a + b == b;
    } else {
      assert (a + b)[0] == a[0] && (a + b)[1..] == a[1..] + b;
      FilteredAppend(a[1..], b, prefix, pred);
    }
  }

  /** Every returned path lies below one of the listing's own entries. */
  lemma {:induction false} FilteredUnder(ts: seq<Tree>, prefix: string, pred: string -> bool, p: string)
    requires WellFormed(ts) && p in Filtered(ts, prefix, pred)
    ensures exists i :: 0 <= i < |ts| && Under(Join(prefix, ts[i].name), p)
  {
    var here := Join(prefix, ts[0].name);
    var head := match ts[0]
      case Dir(_, _, kids) => Filtered(kids, here, pred)
      case File(_, _) => if pred(here) then [here] else [];
    assert Filtered(ts, prefix, pred) == head + Filtered(ts[1..], prefix, pred);
    if p in head {
      if ts[0].Dir? {
        FilteredUnder(ts[0].children, here, pred, p);
        var j :| 0 <= j < |ts[0].children| && Under(Join(here, ts[0].children[j].name), p);
        UnderJoin(here, ts[0].children[j].name, p);
      }
      assert Under(Join(prefix, ts[0].name), p);
    } else {
      assert WellFormed(ts[1..]) by {
        forall i | 0 <= i < |ts[1..]| ensures ts[1..][i] == ts[i + 1] { }
      }
      FilteredUnder(ts[1..], prefix, pred, p);
      var j :| 0 <= j < |ts[1..]| && Under(Join(prefix, ts[1..][j].name), p);
      assert ts[1..][j] == ts[j + 1];
    }
  }

  /** With unique sibling names, no path is returned twice. */
  lemma {:induction false} FilteredDistinct(ts: seq<Tree>, prefix: string, pred: string -> bool)
    requires WellFormed(ts)
    ensures Distinct(Filtered(ts, prefix, pred))
  {
    if ts != [] {
      var here := Join(prefix, ts[0].name);
      var head := match ts[0]
        case Dir(_, _, kids) => Filtered(kids, here, pred)
        case File(_, _) => if pred(here) then [here] else [];
      var tail := Filtered(ts[1..], prefix, pred);
      assert Filtered(ts, prefix, pred) == head + tail;
      assert WellFormed(ts[1..]) by {
        forall i | 0 <= i < |ts[1..]| ensures ts[1..][i] == ts[i + 1] { }
      }
      if ts[0].Dir? {
        FilteredDistinct(ts[0].children, here, pred);
      }
      FilteredDistinct(ts[1..], prefix, pred);
      forall p | p in head && p in tail ensures false {
        if ts[0].Dir? {
          FilteredUnder(ts[0].children, here, pred, p);
          var k :| 0 <= k < |ts[0].children| && Under(Join(here, ts[0].children[k].name), p);
          UnderJoin(here, ts[0].children[k].name, p);
        }
        assert Under(here, p);
        FilteredUnder(ts[1..], prefix, pred, p);
        var j :| 0 <= j < |ts[1..]| && Under(Join(prefix, ts[1..][j].name), p);
        assert ts[1..][j] == ts[j + 1];
        UnderSiblingsDisjoint(prefix, ts[0].name, ts[j + 1].name, p);
      }
      DistinctConcat(head, tail);
    }
  }
}
