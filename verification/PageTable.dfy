/**
  The page table of one mm_struct: the walk get_pte_ptr and the entry setters and
  getter built on it (src/mm64.c:40-122, 223-314), with the walk statistics.
 */
module PageTables {
  import opened Collections
  import opened CNumbers
  import opened Word64
  import opened RadixTree
  import opened PagePaths

  /** The entry a finite map of mapped pages gives to a page. */
  function At(pte: map<nat, Pte>, pgn: nat): Pte {
    if pgn in pte then pte[pgn] else Absent
  }

  /** What the radix tree says about a page. */
  function PageEntry(tables: seq<Table>, pgn: nat): Pte
    requires pgn < MAX_PGN
  {
    Decode(Entry(tables, Path(pgn)))
  }

  /** The radix tree stores exactly the flat map. */
  ghost predicate Stores(tables: seq<Table>, pte: map<nat, Pte>) {
    && (forall p :: p in pte ==> p < MAX_PGN && pte[p] != Absent)
    && (forall p :: 0 <= p < MAX_PGN ==> PageEntry(tables, p) == At(pte, p))
  }

  lemma SameEntriesStore(tables: seq<Table>, tables': seq<Table>, pte: map<nat, Pte>)
    requires Stores(tables, pte) && SameEntries(tables, tables')
    ensures Stores(tables', pte)
  {
    forall p | 0 <= p < MAX_PGN ensures PageEntry(tables', p) == At(pte, p) {
      assert IsPath(Path(p));
      assert PageEntry(tables, p) == At(pte, p);
    }
  }

  /** The refinement of "set one entry": storing w through the leaf of a page sets
      the flat map at this page and nowhere else. */
  lemma StoreRefines(tables: seq<Table>, paths: seq<seq<nat>>, pte: map<nat, Pte>, pgn: nat, leaf: nat, w: Word)
    requires TreeOk(tables, paths) && Stores(tables, pte) && pgn < MAX_PGN
    requires leaf < |tables| && paths[leaf] == Path(pgn)[..4] && Decode(w) != Absent
    ensures TreeOk(Stored(tables, leaf, Path(pgn)[4], w), paths)
    ensures Stores(Stored(tables, leaf, Path(pgn)[4], w), pte[pgn := Decode(w)])
  {
    var path := Path(pgn);
    var tables', pte' := Stored(tables, leaf, path[4], w), pte[pgn := Decode(w)];
    StoreKeepsTree(tables, paths, leaf, path[4], w);
    forall q | 0 <= q < MAX_PGN ensures PageEntry(tables', q) == At(pte', q) {
      OtherPath(pgn, q);
      StoreSetsOne(tables, paths, path, leaf, w, Path(q));
      assert PageEntry(tables, q) == At(pte, q);
    }
  }

  lemma OtherPath(p: nat, q: nat)
    requires p < MAX_PGN && q < MAX_PGN
    ensures Path(p) == Path(q) <==> p == q
  {
    if Path(p) == Path(q) { PathInjective(p, q); }
  }

  // Comparing with true keeps the verifier from unfolding these predicates at each use.

  /** The tables form a tree with exactly the tables the walked paths need, and store the
      flat map. */
  ghost predicate TreeHolds(tables: seq<Table>, paths: seq<seq<nat>>, walked: seq<nat>, pte: map<nat, Pte>) {
    (&& TreeOk(tables, paths) && Stores(tables, pte)
     && Pages(walked) && PathSet(paths) == Needed(PathsOf(walked))) == true
  }

  /** Table leaf is where the walk of a page ends, and its entry there means what the flat
      map says. */
  ghost predicate LeafOf(tables: seq<Table>, paths: seq<seq<nat>>, pte: map<nat, Pte>, pgn: nat, leaf: nat) {
    (&& pgn < MAX_PGN && 0 < leaf < |tables| == |paths| && paths[leaf] == Path(pgn)[..4]
     && tables[leaf].Leaf? && |tables[leaf].pte| == ENTRIES
     && Decode(tables[leaf].pte[Path(pgn)[4]]) == At(pte, pgn)) == true
  }

  lemma LeafFound(tables: seq<Table>, paths: seq<seq<nat>>, walked: seq<nat>, pte: map<nat, Pte>, pgn: nat, leaf: nat)
    requires TreeHolds(tables, paths, walked, pte) && pgn < MAX_PGN
    requires leaf < |tables| == |paths| && paths[leaf] == Path(pgn)[..4]
    ensures LeafOf(tables, paths, pte, pgn, leaf)
  {
    assert |paths[leaf]| == 4 && paths[0] == [] && Shaped(tables[leaf], 4);
    FindIff(tables, paths, Path(pgn)[..4], leaf);
    assert PageEntry(tables, pgn) == At(pte, pgn);
  }

  lemma LeafRead(tables: seq<Table>, paths: seq<seq<nat>>, walked: seq<nat>, pte: map<nat, Pte>, pgn: nat, leaf: nat)
    requires TreeHolds(tables, paths, walked, pte) && pgn < MAX_PGN && Find(tables, Path(pgn)[..4]) == Some(leaf)
    ensures LeafOf(tables, paths, pte, pgn, leaf)
  {
    FindIff(tables, paths, Path(pgn)[..4], leaf);
    LeafFound(tables, paths, walked, pte, pgn, leaf);
  }

  /** A walk that meets a NULL at depth d. */
  lemma StopsHere(tables: seq<Table>, path: seq<nat>, d: nat, t: nat)
    requires |path| == 5 && d < 4
    requires Find(tables, path[..d]) == Some(t) && Child(tables, t, path[d]) == None
    ensures Depth(tables, path) == d
  {
    assert path[..d + 1][..d] == path[..d];
    DepthIs(tables, path, d);
  }

  lemma TableKnown(tables: seq<Table>, paths: seq<seq<nat>>, walked: seq<nat>, pte: map<nat, Pte>, pgn: nat,
                   d: nat, j: nat)
    requires TreeHolds(tables, paths, walked, pte) && pgn < MAX_PGN && 0 < d <= 4 && j == 5 - d
    ensures Known(tables, Path(pgn), d) == Met(walked, pgn, j)
  {
    NeededInBlock(walked, pgn, d, j);
    KnownIff(tables, paths, Path(pgn), d);
  }

  lemma KnownIff(tables: seq<Table>, paths: seq<seq<nat>>, path: seq<nat>, d: nat)
    requires TreeOk(tables, paths) && IsPath(path) && d <= |path|
    ensures Known(tables, path, d) == if path[..d] in PathSet(paths) then 1 else 0
  {
    FoundIff(tables, paths, path[..d]);
  }

  lemma FoundIff(tables: seq<Table>, paths: seq<seq<nat>>, p: seq<nat>)
    requires TreeOk(tables, paths) && IsPath(p)
    ensures Find(tables, p).Some? <==> p in PathSet(paths)
  {
    if Find(tables, p).Some? {
      FindIff(tables, paths, p, Find(tables, p).value);
      assert p == paths[Find(tables, p).value];
    }
    if p in PathSet(paths) {
      var t :| 0 <= t < |paths| && paths[t] == p;
      FindIff(tables, paths, p, t);
    }
  }

  lemma LooksAre(tables: seq<Table>, paths: seq<seq<nat>>, walked: seq<nat>, pte: map<nat, Pte>, pgn: nat)
    requires TreeHolds(tables, paths, walked, pte) && pgn < MAX_PGN
    ensures 1 + Depth(tables, Path(pgn)) == Looks(walked, pgn)
  {
    TableKnown(tables, paths, walked, pte, pgn, 1, 4);
    TableKnown(tables, paths, walked, pte, pgn, 2, 3);
    TableKnown(tables, paths, walked, pte, pgn, 3, 2);
    TableKnown(tables, paths, walked, pte, pgn, 4, 1);
  }

  lemma NoEntry(tables: seq<Table>, paths: seq<seq<nat>>, walked: seq<nat>, pte: map<nat, Pte>, pgn: nat)
    requires TreeHolds(tables, paths, walked, pte) && pgn < MAX_PGN && Entry(tables, Path(pgn)) == 0
    ensures At(pte, pgn) == Absent
  {
    assert PageEntry(tables, pgn) == At(pte, pgn);
    ZeroIsAbsent();
  }

  lemma ZeroIsAbsent()
    ensures Decode(0) == Absent
  {
  }

  ghost predicate IsTree(tables: seq<Table>, paths: seq<seq<nat>>) { TreeOk(tables, paths) == true }

  lemma TreeThere(tables: seq<Table>, paths: seq<seq<nat>>, walked: seq<nat>, pte: map<nat, Pte>)
    requires TreeHolds(tables, paths, walked, pte)
    ensures IsTree(tables, paths)
  {
  }

  /** (ts, t) is what d levels of an allocating walk lead to, and ps are the paths of ts. */
  ghost predicate AtDepth(tables: seq<Table>, paths: seq<seq<nat>>, path: seq<nat>, d: nat,
                          ts: seq<Table>, t: nat, ps: seq<seq<nat>>)
    requires d <= 4 < |path|
  {
    (&& ts == Extended(tables, path, d).0 && t == Extended(tables, path, d).1
     && ps == ExtendedPaths(tables, paths, path, d)) == true
  }

  lemma DepthDir(tables: seq<Table>, paths: seq<seq<nat>>, path: seq<nat>, d: nat,
                 ts: seq<Table>, t: nat, ps: seq<seq<nat>>)
    requires IsTree(tables, paths) && |path| == 5 && IsPath(path) && d < 4
    requires AtDepth(tables, paths, path, d, ts, t, ps)
    ensures t < |ts| && ts[t].Dir? && |ts[t].ptr| == ENTRIES
  {
    ExtendedOk(tables, paths, path, d);
  }

  lemma DepthStep(tables: seq<Table>, paths: seq<seq<nat>>, path: seq<nat>, d: nat,
                  ts: seq<Table>, t: nat, ps: seq<seq<nat>>)
    requires |path| == 5 && IsPath(path) && d < 4 && AtDepth(tables, paths, path, d, ts, t, ps)
    requires t < |ts| && ts[t].Dir? && |ts[t].ptr| == ENTRIES
    ensures var c := ts[t].ptr[path[d]];
            if c != 0 then AtDepth(tables, paths, path, d + 1, ts, c, ps)
            else AtDepth(tables, paths, path, d + 1, Grown(ts, d, t, path[d]), |ts|, ps + [path[..d + 1]])
  {
    ExtendedStep(tables, paths, path, d, ts, t, ps);
  }

  lemma DepthDone(tables: seq<Table>, paths: seq<seq<nat>>, path: seq<nat>, d: nat,
                  ts: seq<Table>, t: nat, ps: seq<seq<nat>>)
    requires IsTree(tables, paths) && |path| == 5 && IsPath(path) && d <= 4
    requires AtDepth(tables, paths, path, d, ts, t, ps)
    ensures Walked(tables, paths, path, d, ts, t, ps)
  {
    ExtendedOk(tables, paths, path, d);
  }

  /** What an allocating walk for a page leaves behind. */
  lemma WalkedOk(tables: seq<Table>, paths: seq<seq<nat>>, walked: seq<nat>, pte: map<nat, Pte>, pgn: nat,
                 ts: seq<Table>, leaf: nat, ps: seq<seq<nat>>)
    requires TreeHolds(tables, paths, walked, pte) && pgn < MAX_PGN
    requires Walked(tables, paths, Path(pgn), 4, ts, leaf, ps)
    ensures TreeHolds(ts, ps, walked + [pgn], pte) && LeafOf(ts, ps, pte, pgn, leaf) && leaf != 0
  {
    assert TreeOk(ts, ps) && leaf < |ts| == |ps| && ps[leaf] == Path(pgn)[..4];
    SameEntriesStore(tables, ts, pte);
    PathsOfSnoc(walked, pgn);
    NeededSnoc(PathsOf(walked), Path(pgn));
    LeafFound(ts, ps, walked + [pgn], pte, pgn, leaf);
  }

  /** What storing an entry through the leaf of a page leaves behind. */
  lemma StoredOk(tables: seq<Table>, paths: seq<seq<nat>>, walked: seq<nat>, pte: map<nat, Pte>, pgn: nat,
                 leaf: nat, w: Word)
    requires TreeHolds(tables, paths, walked, pte) && LeafOf(tables, paths, pte, pgn, leaf) && Decode(w) != Absent
    ensures leaf < |tables| && tables[leaf].Leaf? && Path(pgn)[4] < |tables[leaf].pte|
    ensures TreeHolds(Stored(tables, leaf, Path(pgn)[4], w), paths, walked, pte[pgn := Decode(w)])
  {
    StoreRefines(tables, paths, pte, pgn, leaf, w);
  }

  /** The bit operations of pte_set_fpn on one entry. */
  method EncodeFpn(v: Word, fpn: nat) returns (w: Word)
    requires fpn < TWO64
    ensures Decode(w) == Present(fpn % 0x2000)
  {
    w := SetFpn(v, OfNat(fpn));
    DecodeSetFpn(v, fpn);
  }

  /** The bit operations of pte_set_swap. */
  method EncodeSwap(v: Word, swptyp: Word, swpoff: nat) returns (w: Word)
    requires swpoff < TWO64
    ensures Decode(w) == Swapped(swpoff % 0x20_0000)
  {
    w := SetSwap(v, swptyp, OfNat(swpoff));
    DecodeSetSwap(v, swptyp, swpoff);
  }

  lemma EmptyRoot(tables: seq<Table>, path: seq<nat>)
    requires tables == [Zeroed(0)] && |path| == 5
    ensures Entry(tables, path) == 0
  {
    assert Find(tables, path[..1]) == None by { FindSnoc(tables, [], path[0]); assert [] + [path[0]] == path[..1]; }
    FindSnoc(tables, path[..1], path[1]);
    FindSnoc(tables, path[..2], path[2]);
    FindSnoc(tables, path[..3], path[3]);
    assert path[..1] + [path[1]] == path[..2] && path[..2] + [path[2]] == path[..3];
    assert path[..3] + [path[3]] == path[..4];
  }

  lemma RootNeeded()
    ensures PathSet([[]]) == Needed(PathsOf([]))
  {
    var paths: seq<seq<nat>> := [[]];
    assert PathsOf([]) == [] && paths[0] == [];
    assert forall x :: x in PathSet(paths) <==> x == [];
    assert forall x :: x in Needed([]) <==> x == [];
  }

  lemma FreshTree(tables: seq<Table>)
    requires tables == [Zeroed(0)]
    ensures TreeHolds(tables, [[]], [], map[])
  {
    assert Find(tables, []) == Some(0);
    RootNeeded();
    forall p | 0 <= p < MAX_PGN ensures PageEntry(tables, p) == Absent {
      EmptyRoot(tables, Path(p));
      ZeroIsAbsent();
    }
    assert TreeOk(tables, [[]]) && Stores(tables, map[]);
  }

  class PageTable {
    var tables: seq<Table>
    var walks: nat
    var levelReads: nat
    var levelWrites: nat
    var tablesAllocated: nat
    var storageBytes: nat
    ghost var paths: seq<seq<nat>>
    ghost var walked: seq<nat>           // pages walked with allocation, in order
    ghost var stores: nat                // entries written
    ghost var pte: map<nat, Pte>         // the flat map this table refines

    /** The tree holds the flat map, and the statistics are exact. */
    ghost predicate Valid()
      reads this
    {
      && TreeHolds(tables, paths, walked, pte)
      && tablesAllocated == |tables|
      && storageBytes == 4096 * |tables|
      && levelReads <= 5 * walks
      && levelWrites == |tables| - 1 + stores
    }

    /** init_mm: a root of 512 NULL slots. */
    constructor ()
      ensures Valid() && pte == map[] && walked == [] && walks == 0 && stores == 0
      ensures tablesAllocated == 1 && storageBytes == 4096
    {
      tables := [Zeroed(0)];
      walks, levelReads, levelWrites := 0, 0, 0;
      tablesAllocated, storageBytes := 1, 4096;
      paths, walked, stores, pte := [[]], [], 0, map[];
      new;
      FreshTree(tables);
    }

    /** The walk that only reads, its four identical levels written as a loop; leaf 0 is
        NULL. */
    method WalkRead(path: seq<nat>) returns (leaf: nat)
      requires IsTree(tables, paths) && |path| == 5 && IsPath(path)
      modifies this`walks, this`levelReads
      ensures walks == old(walks) + 1 && levelReads == old(levelReads) + 1 + Depth(tables, path)
      ensures leaf != 0 ==> Find(tables, path[..4]) == Some(leaf)
      ensures leaf == 0 ==> Entry(tables, path) == 0
    {
      walks := walks + 1;
      leaf := 0;
      for d := 0 to 4
        invariant walks == old(walks) + 1 && levelReads == old(levelReads) + d
        invariant Find(tables, path[..d]) == Some(leaf)
      {
        FindIff(tables, paths, path[..d], leaf);
        levelReads := levelReads + 1;
        if tables[leaf].ptr[path[d]] == 0 {
          NoLeaf(tables, path, d, leaf);
          StopsHere(tables, path, d, leaf);
          return 0;
        }
        assert path[..d + 1][..d] == path[..d];
        leaf := tables[leaf].ptr[path[d]];
      }
      DepthIs(tables, path, 4);
      levelReads := levelReads + 1;
    }

    /** A fresh table for depth d + 1, hung into slot i of table t. */
    method AllocPgtblLevel(d: nat, t: nat, i: nat) returns (child: nat)
      requires t < |tables| && tables[t].Dir? && i < |tables[t].ptr|
      modifies this`tables, this`levelWrites, this`tablesAllocated, this`storageBytes
      ensures tables == Grown(old(tables), d, t, i) && child == |old(tables)|
      ensures tablesAllocated - |tables| == old(tablesAllocated - |tables|)
      ensures storageBytes - 4096 * |tables| == old(storageBytes - 4096 * |tables|)
      ensures levelWrites - |tables| == old(levelWrites - |tables|)
    {
      child := |tables|;
      tables := Grown(tables, d, t, i);
      tablesAllocated := tablesAllocated + 1;
      storageBytes := storageBytes + 4096;
      levelWrites := levelWrites + 1;
    }

    /** One level of the walk that allocates; tables0 and paths0 are where it began. */
    method Descend(path: seq<nat>, d: nat, t: nat, ghost tables0: seq<Table>, ghost paths0: seq<seq<nat>>)
      returns (child: nat)
      requires IsTree(tables0, paths0) && |path| == 5 && IsPath(path) && d < 4
      requires AtDepth(tables0, paths0, path, d, tables, t, paths)
      modifies this`tables, this`paths, this`levelReads, this`levelWrites, this`tablesAllocated, this`storageBytes
      ensures levelReads == old(levelReads) + 1
      ensures tablesAllocated - |tables| == old(tablesAllocated - |tables|)
      ensures storageBytes - 4096 * |tables| == old(storageBytes - 4096 * |tables|)
      ensures levelWrites - |tables| == old(levelWrites - |tables|)
      ensures AtDepth(tables0, paths0, path, d + 1, tables, child, paths)
    {
      DepthDir(tables0, paths0, path, d, tables, t, paths);
      DepthStep(tables0, paths0, path, d, tables, t, paths);
      levelReads := levelReads + 1;
      child := tables[t].ptr[path[d]];
      if child == 0 {
        child := AllocPgtblLevel(d, t, path[d]);
        paths := paths + [path[..d + 1]];
      }
    }

    /** The walk that allocates the tables it misses. */
    method WalkAlloc(path: seq<nat>) returns (leaf: nat)
      requires IsTree(tables, paths) && |path| == 5 && IsPath(path)
      modifies this`tables, this`paths, this`walks, this`levelReads
      modifies this`levelWrites, this`tablesAllocated, this`storageBytes
      ensures walks == old(walks) + 1 && levelReads == old(levelReads) + 5
      ensures tablesAllocated - |tables| == old(tablesAllocated - |tables|)
      ensures storageBytes - 4096 * |tables| == old(storageBytes - 4096 * |tables|)
      ensures levelWrites - |tables| == old(levelWrites - |tables|)
      ensures Walked(old(tables), old(paths), path, 4, tables, leaf, paths)
    {
      walks := walks + 1;
      leaf := 0;
      for d := 0 to 4
        invariant walks == old(walks) + 1 && levelReads == old(levelReads) + d
        invariant tablesAllocated - |tables| == old(tablesAllocated - |tables|)
        invariant storageBytes - 4096 * |tables| == old(storageBytes - 4096 * |tables|)
        invariant levelWrites - |tables| == old(levelWrites - |tables|)
        invariant AtDepth(old(tables), old(paths), path, d, tables, leaf, paths)
      {
        leaf := Descend(path, d, leaf, old(tables), old(paths));
      }
      DepthDone(old(tables), old(paths), path, 4, tables, leaf, paths);
      levelReads := levelReads + 1;
    }

    /** get_pte_ptr without allocation. */
    method FindLeaf(pgn: nat) returns (leaf: nat)
      requires Valid() && pgn < MAX_PGN
      modifies this`walks, this`levelReads
      ensures Valid() && walks == old(walks) + 1 && levelReads == old(levelReads) + Looks(walked, pgn)
      ensures if leaf == 0 then At(pte, pgn) == Absent else LeafOf(tables, paths, pte, pgn, leaf)
    {
      TreeThere(tables, paths, walked, pte);
      LooksAre(tables, paths, walked, pte, pgn);
      leaf := WalkRead(Path(pgn));
      if leaf != 0 {
        LeafRead(tables, paths, walked, pte, pgn, leaf);
      } else {
        NoEntry(tables, paths, walked, pte, pgn);
      }
    }

    /** get_pte_ptr with allocation. */
    method MakeLeaf(pgn: nat) returns (leaf: nat)
      requires Valid() && pgn < MAX_PGN
      modifies this`tables, this`paths, this`walked, this`walks, this`levelReads
      modifies this`levelWrites, this`tablesAllocated, this`storageBytes
      ensures Valid() && walks == old(walks) + 1 && walked == old(walked) + [pgn]
      ensures levelReads == old(levelReads) + 5
      ensures leaf != 0 && LeafOf(tables, paths, pte, pgn, leaf)
      ensures tablesAllocated - |tables| == old(tablesAllocated - |tables|)
      ensures storageBytes - 4096 * |tables| == old(storageBytes - 4096 * |tables|)
      ensures levelWrites - |tables| == old(levelWrites - |tables|)
    {
      TreeThere(tables, paths, walked, pte);
      leaf := WalkAlloc(Path(pgn));
      WalkedOk(old(tables), old(paths), walked, pte, pgn, tables, leaf, paths);
      walked := walked + [pgn];
    }

    /** get_pte_ptr: the leaf table and slot of a page; leaf 0 is NULL.  A read-only
        walk changes nothing but the statistics, an allocating one no entry, and it
        writes one slot for each table it allocates.  It reads one entry per level, a
        read-only one stops at the first that is NULL. */
    method GetPtePtr(pgn: nat, isAlloc: bool) returns (leaf: nat, slot: nat)
      requires Valid() && pgn < MAX_PGN
      modifies this
      ensures Valid() && pte == old(pte) && walks == old(walks) + 1 && stores == old(stores)
      ensures slot == Path(pgn)[4]
      ensures if leaf == 0 then At(pte, pgn) == Absent else LeafOf(tables, paths, pte, pgn, leaf)
      ensures isAlloc ==> leaf != 0 && walked == old(walked) + [pgn]
      ensures !isAlloc ==> tables == old(tables) && paths == old(paths) && walked == old(walked)
      ensures levelWrites - old(levelWrites) == tablesAllocated - old(tablesAllocated)
      ensures levelReads == old(levelReads) + if isAlloc then 5 else Looks(walked, pgn)
    {
      slot := Path(pgn)[4];
      if isAlloc {
        leaf := MakeLeaf(pgn);
      } else {
        leaf := FindLeaf(pgn);
      }
    }

    /** pte_get_entry, already decoded. */
    method PteGetEntry(pgn: nat) returns (e: Pte)
      requires Valid() && pgn < MAX_PGN
      modifies this
      ensures Valid() && pte == old(pte) && walked == old(walked) && stores == old(stores)
      ensures tablesAllocated == old(tablesAllocated) && levelReads == old(levelReads) + Looks(walked, pgn)
      ensures e == At(pte, pgn)
    {
      var leaf, slot := GetPtePtr(pgn, false);
      var word: Word := 0;
      if leaf != 0 {
        assert LeafOf(tables, paths, pte, pgn, leaf);
        word := tables[leaf].pte[slot];
      }
      ZeroIsAbsent();
      e := Decode(word);
    }

    /** Write word w through the pointer of a page. */
    method StoreEntry(pgn: nat, leaf: nat, w: Word)
      requires Valid() && pgn < MAX_PGN && Decode(w) != Absent
      requires LeafOf(tables, paths, pte, pgn, leaf)
      modifies this`tables, this`levelWrites, this`stores, this`pte
      ensures Valid() && pte == old(pte)[pgn := Decode(w)] && stores == old(stores) + 1
    {
      var slot := Path(pgn)[4];
      StoredOk(tables, paths, walked, pte, pgn, leaf, w);
      tables := Stored(tables, leaf, slot, w);
      levelWrites, stores := levelWrites + 1, stores + 1;
      pte := pte[pgn := Decode(w)];
    }

    /** pte_set_fpn: the frame number is cut down to 13 bits. */
    method PteSetFpn(pgn: nat, fpn: nat)
      requires Valid() && pgn < MAX_PGN && fpn < TWO64
      modifies this
      ensures Valid() && pte == old(pte)[pgn := Present(fpn % 0x2000)] && walked == old(walked) + [pgn]
      ensures stores == old(stores) + 1 && levelReads == old(levelReads) + 5
    {
      var leaf, slot := GetPtePtr(pgn, true);
      assert LeafOf(tables, paths, pte, pgn, leaf);
      var word := EncodeFpn(tables[leaf].pte[slot], fpn);
      StoreEntry(pgn, leaf, word);
    }

    /** pte_set_swap: the offset is cut down to 21 bits. */
    method PteSetSwap(pgn: nat, swptyp: Word, swpoff: nat)
      requires Valid() && pgn < MAX_PGN && swpoff < TWO64
      modifies this
      ensures Valid() && pte == old(pte)[pgn := Swapped(swpoff % 0x20_0000)] && walked == old(walked) + [pgn]
      ensures stores == old(stores) + 1 && levelReads == old(levelReads) + 5
    {
      var leaf, slot := GetPtePtr(pgn, true);
      assert LeafOf(tables, paths, pte, pgn, leaf);
      var word := EncodeSwap(tables[leaf].pte[slot], swptyp, swpoff);
      StoreEntry(pgn, leaf, word);
    }

    /** The statistics are exact: one root, plus one table per block of 512, 512^2, 512^3 and
        512^4 pages that the pages walked with allocation lie in, at most 1 + 4n for n walks;
        and one write per table but the root and per entry stored. */
    method CheckAccounting() returns (tablesUsed: nat, bytes: nat, writes: nat)
      requires Valid()
      ensures Pages(walked) && tablesUsed == tablesAllocated
      ensures tablesUsed == 1 + |Blocks(walked, 4)| + |Blocks(walked, 3)| + |Blocks(walked, 2)| + |Blocks(walked, 1)|
      ensures bytes == storageBytes == 4096 * tablesUsed
      ensures tablesUsed <= 1 + 4 * |walked| && writes == levelWrites == tablesUsed - 1 + stores
      ensures levelReads <= 5 * walks
    {
      assert TreeHolds(tables, paths, walked, pte);
      TableCount(tables, paths, PathsOf(walked));
      NeededBlocks(walked);
      tablesUsed, bytes, writes := tablesAllocated, storageBytes, levelWrites;
    }
  }
}
