/**
  The store behind the five-level page table (src/mm64.c:40-122).  A table is a
  block of 512 zeroed slots; a pointer to it is its number in the store, with 0,
  the root, doubling as NULL because no slot ever points at the root.  Tables of
  depth 0 to 3 hold pointers, those of depth 4 hold page-table entries.

  Ghost component: paths[t] is the list of slot indices that leads from the root
  to table t.
 */
module RadixTree {
  import opened Collections
  import opened Word64

  const ENTRIES: nat := 512

  datatype Table = Dir(ptr: seq<nat>) | Leaf(pte: seq<Word>)

  function Zeroed(depth: nat): Table {
    if depth < 4 then Dir(seq(ENTRIES, _ => 0)) else Leaf(seq(ENTRIES, _ => 0))
  }

  predicate IsPath(path: seq<nat>) { forall i :: 0 <= i < |path| ==> path[i] < ENTRIES }

  predicate Shaped(table: Table, depth: nat) {
    if depth < 4 then table.Dir? && |table.ptr| == ENTRIES else table.Leaf? && |table.pte| == ENTRIES
  }

  ghost predicate Shapes(tables: seq<Table>, paths: seq<seq<nat>>) {
    && |tables| == |paths| >= 1
    && (forall t :: 0 <= t < |paths| ==> |paths[t]| <= 4 && IsPath(paths[t]) && Shaped(tables[t], |paths[t]|))
  }

  /** Slot i of table t is NULL or points at the table one index further down. */
  ghost predicate PointsDown(tables: seq<Table>, paths: seq<seq<nat>>, t: nat, i: nat)
    requires Shapes(tables, paths) && t < |tables| && tables[t].Dir? && i < ENTRIES
  {
    var c := tables[t].ptr[i];
    c == 0 || (c < |tables| && paths[c] == paths[t] + [i])
  }

  ghost predicate TreeOk(tables: seq<Table>, paths: seq<seq<nat>>) {
    && Shapes(tables, paths)
    && paths[0] == []
    && (forall t, i :: 0 <= t < |tables| && tables[t].Dir? && 0 <= i < ENTRIES ==> PointsDown(tables, paths, t, i))
    && (forall u :: 0 <= u < |tables| ==> Find(tables, paths[u]) == Some(u))
  }

  /** Follow the indices of path from the root; None when a slot on the way is NULL. */
  function Find(tables: seq<Table>, path: seq<nat>): (r: Option<nat>) {
    if path == [] then Some(0)
    else
      var k := |path| - 1;
      match Find(tables, path[..k])
      case None => None
      case Some(t) => Child(tables, t, path[k])
  }

  /** One step of the walk. */
  function Child(tables: seq<Table>, t: nat, i: nat): (r: Option<nat>) {
    if t < |tables| && tables[t].Dir? && i < |tables[t].ptr| && tables[t].ptr[i] != 0
    then Some(tables[t].ptr[i]) else None
  }

  lemma FindSnoc(tables: seq<Table>, path: seq<nat>, i: nat)
    ensures Find(tables, path + [i]) ==
            match Find(tables, path) case None => None case Some(t) => Child(tables, t, i)
  {
    assert (path + [i])[..|path|] == path;
  }

  /** Following a path finds exactly the table that has this path, if there is one. */
  lemma {:induction false} FindIff(tables: seq<Table>, paths: seq<seq<nat>>, path: seq<nat>, u: nat)
    requires TreeOk(tables, paths) && IsPath(path)
    ensures Find(tables, path) == Some(u) <==> u < |tables| && paths[u] == path
    decreases |path|
  {
    if path != [] && Find(tables, path) == Some(u) {
      var k := |path| - 1;
      var t := Find(tables, path[..k]).value;
      FindIff(tables, paths, path[..k], t);
      assert path == path[..k] + [path[k]];
      assert PointsDown(tables, paths, t, path[k]);
    }
  }

  /** The entry at the end of a five-index path: 0 where the tree has no leaf for it yet. */
  function Entry(tables: seq<Table>, path: seq<nat>): Word
    requires |path| == 5
  {
    match Find(tables, path[..4])
    case None => 0
    case Some(t) => if t < |tables| && tables[t].Leaf? && path[4] < |tables[t].pte| then tables[t].pte[path[4]] else 0
  }

  // ---- Growing the tree ------------------------------------------------------

  /** Hang a fresh zeroed table off slot i of table t. */
  function Grown(tables: seq<Table>, depth: nat, t: nat, i: nat): seq<Table>
    requires t < |tables| && tables[t].Dir? && i < |tables[t].ptr|
  {
    tables[t := Dir(tables[t].ptr[i := |tables|])] + [Zeroed(depth + 1)]
  }

  ghost predicate CanGrow(tables: seq<Table>, paths: seq<seq<nat>>, t: nat, i: nat) {
    && TreeOk(tables, paths)
    && t < |tables| && |paths[t]| < 4 && i < ENTRIES && tables[t].ptr[i] == 0
  }

  lemma {:induction false} GrowKeepsFind(tables: seq<Table>, paths: seq<seq<nat>>, t: nat, i: nat, path: seq<nat>)
    requires CanGrow(tables, paths, t, i)
    requires Find(tables, path).Some?
    ensures Find(Grown(tables, |paths[t]|, t, i), path) == Find(tables, path)
    decreases |path|
  {
    if path != [] {
      GrowKeepsFind(tables, paths, t, i, path[..|path| - 1]);
    }
  }

  lemma GrowKeepsTree(tables: seq<Table>, paths: seq<seq<nat>>, t: nat, i: nat)
    requires CanGrow(tables, paths, t, i)
    ensures TreeOk(Grown(tables, |paths[t]|, t, i), paths + [paths[t] + [i]])
  {
    var tables', paths' := Grown(tables, |paths[t]|, t, i), paths + [paths[t] + [i]];
    assert Shapes(tables', paths');
    forall v, j | 0 <= v < |tables'| && tables'[v].Dir? && 0 <= j < ENTRIES
      ensures PointsDown(tables', paths', v, j)
    {
      if v < |tables| { assert PointsDown(tables, paths, v, j); }
    }
    forall u | 0 <= u < |tables'| ensures Find(tables', paths'[u]) == Some(u) {
      if u < |tables| {
        GrowKeepsFind(tables, paths, t, i, paths[u]);
      } else {
        GrowKeepsFind(tables, paths, t, i, paths[t]);
        FindSnoc(tables', paths[t], i);
      }
    }
  }

  /** Growing the tree changes no entry. */
  lemma GrowKeepsEntry(tables: seq<Table>, paths: seq<seq<nat>>, t: nat, i: nat, path: seq<nat>)
    requires CanGrow(tables, paths, t, i) && IsPath(path) && |path| == 5
    ensures Entry(Grown(tables, |paths[t]|, t, i), path) == Entry(tables, path)
  {
    var tables', paths' := Grown(tables, |paths[t]|, t, i), paths + [paths[t] + [i]];
    GrowKeepsTree(tables, paths, t, i);
    if Find(tables, path[..4]).Some? {
      GrowKeepsFind(tables, paths, t, i, path[..4]);
      FindIff(tables, paths, path[..4], Find(tables, path[..4]).value);
    } else if Find(tables', path[..4]).Some? {
      var u := Find(tables', path[..4]).value;
      FindIff(tables', paths', path[..4], u);
      FindIff(tables, paths, path[..4], u);
    }
  }

  // ---- Storing an entry ------------------------------------------------------

  function Stored(tables: seq<Table>, t: nat, i: nat, w: Word): seq<Table>
    requires t < |tables| && tables[t].Leaf? && i < |tables[t].pte|
  {
    tables[t := Leaf(tables[t].pte[i := w])]
  }

  lemma {:induction false} StoreKeepsFind(tables: seq<Table>, t: nat, i: nat, w: Word, path: seq<nat>)
    requires t < |tables| && tables[t].Leaf? && i < |tables[t].pte|
    ensures Find(Stored(tables, t, i, w), path) == Find(tables, path)
    decreases |path|
  {
    if path != [] {
      StoreKeepsFind(tables, t, i, w, path[..|path| - 1]);
    }
  }

  lemma StoreKeepsTree(tables: seq<Table>, paths: seq<seq<nat>>, t: nat, i: nat, w: Word)
    requires TreeOk(tables, paths)
    requires t < |tables| && tables[t].Leaf? && i < ENTRIES
    ensures TreeOk(Stored(tables, t, i, w), paths)
  {
    var tables' := Stored(tables, t, i, w);
    assert Shapes(tables', paths);
    forall v, j | 0 <= v < |tables'| && tables'[v].Dir? && 0 <= j < ENTRIES
      ensures PointsDown(tables', paths, v, j)
    {
      assert PointsDown(tables, paths, v, j);
    }
    forall u | 0 <= u < |tables'| ensures Find(tables', paths[u]) == Some(u) {
      StoreKeepsFind(tables, t, i, w, paths[u]);
    }
  }

  /** A store at the end of path p sets that entry and no other. */
  lemma StoreSetsOne(tables: seq<Table>, paths: seq<seq<nat>>, p: seq<nat>, t: nat, w: Word, q: seq<nat>)
    requires TreeOk(tables, paths) && IsPath(p) && |p| == 5 && IsPath(q) && |q| == 5
    requires t < |tables| && paths[t] == p[..4]
    ensures Entry(Stored(tables, t, p[4], w), q) == if q == p then w else Entry(tables, q)
  {
    StoreKeepsFind(tables, t, p[4], w, q[..4]);
    FindIff(tables, paths, p[..4], t);
    if Find(tables, q[..4]) == Some(t) {
      FindIff(tables, paths, q[..4], t);
      assert q == q[..4] + [q[4]] && p == p[..4] + [p[4]];
    }
  }

  // ---- Walking with allocation -----------------------------------------------

  ghost predicate SameEntries(tables: seq<Table>, tables': seq<Table>) {
    forall path :: |path| == 5 && IsPath(path) ==> Entry(tables', path) == Entry(tables, path)
  }

  /** The tables after d levels of an allocating walk, and the table reached. */
  ghost function Extended(tables: seq<Table>, path: seq<nat>, d: nat): (seq<Table>, nat)
    requires d <= 4 < |path|
  {
    if d == 0 then (tables, 0)
    else
      var (ts, t) := Extended(tables, path, d - 1);
      if Child(ts, t, path[d - 1]).Some? then (ts, Child(ts, t, path[d - 1]).value)
      else if t < |ts| && ts[t].Dir? && path[d - 1] < |ts[t].ptr| then (Grown(ts, d - 1, t, path[d - 1]), |ts|)
      else (ts, t)
  }

  ghost function ExtendedPaths(tables: seq<Table>, paths: seq<seq<nat>>, path: seq<nat>, d: nat): seq<seq<nat>>
    requires d <= 4 < |path|
  {
    if d == 0 then paths
    else
      var (ts, t) := Extended(tables, path, d - 1);
      var ps := ExtendedPaths(tables, paths, path, d - 1);
      if Child(ts, t, path[d - 1]).Some? then ps else ps + [path[..d]]
  }

  /** The outcome (ts, t) of d levels of a walk, where ps are the paths of ts: the tree is
      kept, t is the table of the path so far, no entry changes, and exactly the missing
      prefixes were added.  (Comparing with true keeps it from being unfolded at each use.) */
  ghost predicate Walked(tables: seq<Table>, paths: seq<seq<nat>>, path: seq<nat>, d: nat,
                         ts: seq<Table>, t: nat, ps: seq<seq<nat>>)
    requires d <= 4 < |path|
  {
    (&& TreeOk(ts, ps) && t < |ts| && ps[t] == path[..d]
     && SameEntries(tables, ts)
     && PathSet(ps) == PathSet(paths) + PrefixesUpTo(path, d)) == true
  }

  lemma WalkedHop(tables: seq<Table>, paths: seq<seq<nat>>, path: seq<nat>, d: nat,
                  ts: seq<Table>, t: nat, ps: seq<seq<nat>>)
    requires |path| == 5 && IsPath(path) && d < 4 && Walked(tables, paths, path, d, ts, t, ps)
    requires Child(ts, t, path[d]).Some?
    ensures Walked(tables, paths, path, d + 1, ts, Child(ts, t, path[d]).value, ps)
  {
    assert path[..d + 1] == path[..d] + [path[d]];
    assert PointsDown(ts, ps, t, path[d]);
  }

  lemma GrowKeepsEntries(ts: seq<Table>, ps: seq<seq<nat>>, t: nat, i: nat)
    requires CanGrow(ts, ps, t, i)
    ensures SameEntries(ts, Grown(ts, |ps[t]|, t, i))
  {
    forall q | |q| == 5 && IsPath(q) ensures Entry(Grown(ts, |ps[t]|, t, i), q) == Entry(ts, q) {
      GrowKeepsEntry(ts, ps, t, i, q);
    }
  }

  lemma SameEntriesTrans(a: seq<Table>, b: seq<Table>, c: seq<Table>)
    requires SameEntries(a, b) && SameEntries(b, c)
    ensures SameEntries(a, c)
  {
  }

  lemma WalkedGrow(tables: seq<Table>, paths: seq<seq<nat>>, path: seq<nat>, d: nat,
                   ts: seq<Table>, t: nat, ps: seq<seq<nat>>)
    requires |path| == 5 && IsPath(path) && d < 4 && Walked(tables, paths, path, d, ts, t, ps)
    requires Child(ts, t, path[d]).None?
    ensures t < |ts| && ts[t].Dir? && path[d] < |ts[t].ptr|
    ensures Walked(tables, paths, path, d + 1, Grown(ts, d, t, path[d]), |ts|, ps + [path[..d + 1]])
  {
    assert path[..d + 1] == path[..d] + [path[d]];
    assert CanGrow(ts, ps, t, path[d]);
    var grown := Grown(ts, d, t, path[d]);
    assert TreeOk(grown, ps + [path[..d + 1]]) by { GrowKeepsTree(ts, ps, t, path[d]); }
    assert SameEntries(tables, grown) by {
      GrowKeepsEntries(ts, ps, t, path[d]);
      SameEntriesTrans(tables, ts, grown);
    }
    PrefixAdded(paths, path, d, ps);
  }

  lemma PrefixAdded(paths: seq<seq<nat>>, path: seq<nat>, d: nat, ps: seq<seq<nat>>)
    requires d < 4 < |path| && PathSet(ps) == PathSet(paths) + PrefixesUpTo(path, d)
    ensures PathSet(ps + [path[..d + 1]]) == PathSet(paths) + PrefixesUpTo(path, d + 1)
  {
    PathSetSnoc(ps, path[..d + 1]);
  }

  /** The outcome of d + 1 levels, from that of d levels. */
  lemma ExtendedStep(tables: seq<Table>, paths: seq<seq<nat>>, path: seq<nat>, d: nat,
                     ts: seq<Table>, t: nat, ps: seq<seq<nat>>)
    requires d < 4 < |path| && ts == Extended(tables, path, d).0 && t == Extended(tables, path, d).1
    requires ps == ExtendedPaths(tables, paths, path, d)
    ensures var c := Child(ts, t, path[d]);
            && (c.Some? ==> Extended(tables, path, d + 1).0 == ts && Extended(tables, path, d + 1).1 == c.value)
            && (c.Some? ==> ExtendedPaths(tables, paths, path, d + 1) == ps)
            && (c.None? ==> ExtendedPaths(tables, paths, path, d + 1) == ps + [path[..d + 1]])
            && (c.None? && t < |ts| && ts[t].Dir? && path[d] < |ts[t].ptr| ==>
                  && Extended(tables, path, d + 1).0 == Grown(ts, d, t, path[d])
                  && Extended(tables, path, d + 1).1 == |ts|)
  {
  }

  lemma WalkedNext(tables: seq<Table>, paths: seq<seq<nat>>, path: seq<nat>, d: nat,
                   ts: seq<Table>, t: nat, ps: seq<seq<nat>>)
    requires |path| == 5 && IsPath(path) && d < 4 && Walked(tables, paths, path, d, ts, t, ps)
    ensures var c := Child(ts, t, path[d]);
            && (c.Some? ==> Walked(tables, paths, path, d + 1, ts, c.value, ps))
            && (c.None? ==> t < |ts| && ts[t].Dir? && path[d] < |ts[t].ptr|)
            && (c.None? ==> Walked(tables, paths, path, d + 1, Grown(ts, d, t, path[d]), |ts|, ps + [path[..d + 1]]))
  {
    if Child(ts, t, path[d]).Some? {
      WalkedHop(tables, paths, path, d, ts, t, ps);
    } else {
      WalkedGrow(tables, paths, path, d, ts, t, ps);
    }
  }

  /** An allocating walk keeps the tree, reaches the table of its path, changes no
      entry and adds exactly the missing prefixes. */
  lemma {:induction false} ExtendedOk(tables: seq<Table>, paths: seq<seq<nat>>, path: seq<nat>, d: nat)
    requires TreeOk(tables, paths) && |path| == 5 && IsPath(path) && d <= 4
    ensures Walked(tables, paths, path, d, Extended(tables, path, d).0, Extended(tables, path, d).1,
                   ExtendedPaths(tables, paths, path, d))
  {
    if d > 0 {
      var e := d - 1;
      ExtendedOk(tables, paths, path, e);
      var ts, t := Extended(tables, path, e).0, Extended(tables, path, e).1;
      var ps := ExtendedPaths(tables, paths, path, e);
      ExtendedStep(tables, paths, path, e, ts, t, ps);
      WalkedNext(tables, paths, path, e, ts, t, ps);
    }
  }

  lemma PathSetSnoc(paths: seq<seq<nat>>, path: seq<nat>)
    ensures PathSet(paths + [path]) == PathSet(paths) + {path}
  {
    var longer := paths + [path];
    assert longer[|paths|] == path;
    forall x | x in PathSet(paths) ensures x in PathSet(longer) {
      var t :| 0 <= t < |paths| && paths[t] == x;
      assert longer[t] == x;
    }
  }

  /** A NULL slot at depth d means that the path has no leaf. */
  lemma NoLeaf(tables: seq<Table>, path: seq<nat>, d: nat, t: nat)
    requires |path| == 5 && d < 4
    requires Find(tables, path[..d]) == Some(t) && Child(tables, t, path[d]) == None
    ensures Entry(tables, path) == 0
  {
    FindSnoc(tables, path[..d], path[d]);
    assert path[..d] + [path[d]] == path[..d + 1];
    StaysNone(tables, path, d + 1);
  }

  lemma {:induction false} StaysNone(tables: seq<Table>, path: seq<nat>, d: nat)
    requires |path| == 5 && d <= 4 && Find(tables, path[..d]) == None
    ensures Find(tables, path[..4]) == None
    decreases 4 - d
  {
    if d < 4 {
      FindSnoc(tables, path[..d], path[d]);
      assert path[..d] + [path[d]] == path[..d + 1];
      StaysNone(tables, path, d + 1);
    }
  }

  // ---- How many tables the walked paths need ---------------------------------

  ghost function PathSet(paths: seq<seq<nat>>): set<seq<nat>> { set t | 0 <= t < |paths| :: paths[t] }

  /** The first d non-empty prefixes of a path. */
  ghost function PrefixesUpTo(path: seq<nat>, d: nat): set<seq<nat>>
    requires d <= |path|
  {
    if d == 0 then {} else PrefixesUpTo(path, d - 1) + {path[..d]}
  }

  ghost predicate FullPaths(walked: seq<seq<nat>>) { forall x :: x in walked ==> |x| == 5 }

  function Known(tables: seq<Table>, path: seq<nat>, d: nat): nat
    requires d <= |path|
  {
    if Find(tables, path[..d]).Some? then 1 else 0
  }

  /** How many of the tables below the root there are on a path. */
  function Depth(tables: seq<Table>, path: seq<nat>): nat
    requires |path| == 5
  {
    Known(tables, path, 1) + Known(tables, path, 2) + Known(tables, path, 3) + Known(tables, path, 4)
  }

  lemma {:induction false} KnownBefore(tables: seq<Table>, path: seq<nat>, d: nat, k: nat)
    requires k <= d <= |path| && Find(tables, path[..d]).Some?
    ensures Find(tables, path[..k]).Some?
    decreases d
  {
    if k < d {
      assert path[..d][..d - 1] == path[..d - 1];
      KnownBefore(tables, path, d - 1, k);
    }
  }

  /** A walk that ends after d levels has seen all there are. */
  lemma DepthIs(tables: seq<Table>, path: seq<nat>, d: nat)
    requires |path| == 5 && d <= 4 && Find(tables, path[..d]).Some?
    requires d < 4 ==> Find(tables, path[..d + 1]).None?
    ensures Depth(tables, path) == d
  {
    forall k | 0 <= k <= d ensures Known(tables, path, k) == 1 {
      KnownBefore(tables, path, d, k);
    }
    forall k | d < k <= 4 ensures Known(tables, path, k) == 0 {
      if Find(tables, path[..k]).Some? { KnownBefore(tables, path, k, d + 1); }
    }
  }

  /** The tables that the walked paths need: the root, and one for each distinct
      prefix of length 1 to 4 of one of the paths. */
  ghost function Needed(walked: seq<seq<nat>>): set<seq<nat>>
    requires FullPaths(walked)
  {
    if walked == [] then {[]}
    else Needed(walked[..|walked| - 1]) + PrefixesUpTo(walked[|walked| - 1], 4)
  }

  lemma NeededSnoc(walked: seq<seq<nat>>, path: seq<nat>)
    requires FullPaths(walked) && |path| == 5
    ensures FullPaths(walked + [path])
    ensures Needed(walked + [path]) == Needed(walked) + PrefixesUpTo(path, 4)
  {
    var longer := walked + [path];
    assert longer[..|longer| - 1] == walked;
  }

  /** Needed, said without recursion. */
  lemma {:induction false} NeededIff(walked: seq<seq<nat>>, x: seq<nat>)
    requires FullPaths(walked)
    ensures x in Needed(walked) <==> |x| <= 4 && (x == [] || exists k :: 0 <= k < |walked| && x == walked[k][..|x|])
  {
    if walked != [] {
      var n := |walked| - 1;
      var front := walked[..n];
      NeededIff(front, x);
      PrefixesUpToIff(walked[n], 4, x);
      if k :| 0 <= k < |walked| && |x| <= 4 && x == walked[k][..|x|] {
        if k < n { assert front[k] == walked[k]; }
      }
      if |x| <= 4 && exists k :: 0 <= k < n && x == front[k][..|x|] {
        var k :| 0 <= k < n && x == front[k][..|x|];
        assert x == walked[k][..|x|];
      }
    }
  }

  lemma {:induction false} PrefixesUpToIff(path: seq<nat>, d: nat, x: seq<nat>)
    requires d <= |path|
    ensures x in PrefixesUpTo(path, d) <==> 1 <= |x| <= d && x == path[..|x|]
  {
    if d > 0 { PrefixesUpToIff(path, d - 1, x); }
  }

  ghost predicate Distinct(paths: seq<seq<nat>>) { forall t, u :: 0 <= t < u < |paths| ==> paths[t] != paths[u] }

  lemma {:induction false} DistinctPathCount(paths: seq<seq<nat>>)
    requires Distinct(paths)
    ensures |PathSet(paths)| == |paths|
  {
    if paths != [] {
      var n := |paths| - 1;
      var front := paths[..n];
      DistinctPathCount(front);
      assert PathSet(paths) == PathSet(front) + {paths[n]} by {
        assert paths == front + [paths[n]];
      }
    }
  }

  lemma UnionSize<T>(a: set<T>, b: set<T>)
    ensures |a + b| <= |a| + |b|
  {
    assert a + b == a + (b - a);
  }

  lemma {:induction false} PrefixCount(path: seq<nat>, d: nat)
    requires d <= |path|
    ensures |PrefixesUpTo(path, d)| <= d
  {
    if d > 0 {
      PrefixCount(path, d - 1);
      UnionSize(PrefixesUpTo(path, d - 1), {path[..d]});
    }
  }

  lemma {:induction false} NeededCount(walked: seq<seq<nat>>)
    requires FullPaths(walked)
    ensures |Needed(walked)| <= 1 + 4 * |walked|
  {
    if walked != [] {
      var n := |walked| - 1;
      NeededCount(walked[..n]);
      PrefixCount(walked[n], 4);
      UnionSize(Needed(walked[..n]), PrefixesUpTo(walked[n], 4));
    }
  }

  /** The exact price of a page table: one root plus one table per distinct proper
      prefix of the paths walked with allocation; n walks need at most 1 + 4n. */
  lemma TableCount(tables: seq<Table>, paths: seq<seq<nat>>, walked: seq<seq<nat>>)
    requires TreeOk(tables, paths) && FullPaths(walked)
    requires PathSet(paths) == Needed(walked)
    ensures |tables| == |Needed(walked)|
    ensures |tables| <= 1 + 4 * |walked|
  {
    forall t, u | 0 <= t < u < |paths| ensures paths[t] != paths[u] {
      assert Find(tables, paths[t]) != Find(tables, paths[u]);
    }
    DistinctPathCount(paths);
    NeededCount(walked);
  }
}
