/**
  Runs of writes whose values may share dictionaries: when every write of the run is
  the tree write it looks like, and what a single write leaves as it was.
 */
module ConfigHeapRuns {
  import opened Prelude
  import opened ConfigTree
  import opened ConfigHeap
  import opened ConfigHeapLaws

  // ----- Ways -----------------------------------------------------------------

  function Step(h: Heap, found: Option<Cell>, key: string): Option<Cell> {
    if found.Some? && found.value.Sub? && found.value.ref in h.dicts && key in h.dicts[found.value.ref]
    then Some(h.dicts[found.value.ref][key])
    else None
  }

  lemma {:induction false} FindSnoc(h: Heap, x: Cell, q: Path, key: string)
    ensures Find(h, x, q + [key]) == Step(h, Find(h, x, q), key)
    decreases |q|
  {
    if q == [] {
      assert [] + [key] == [key] && [key][1..] == [];
    } else if x.Sub? && x.ref in h.dicts && q[0] in h.dicts[x.ref] {
      assert (q + [key])[0] == q[0] && (q + [key])[1..] == q[1..] + [key];
      FindSnoc(h, h.dicts[x.ref][q[0]], q[1..], key);
    }
  }

  /** The path leads to a dictionary. */
  ghost predicate Reaches(h: Heap, x: Cell, q: Path) {
    Find(h, x, q).Some? && Find(h, x, q).value.Sub?
  }

  /** No dictionary is reached from `x` in two ways. */
  ghost predicate OneEach(h: Heap, x: Cell) {
    forall q, s :: Reaches(h, x, q) && Find(h, x, q) == Find(h, x, s) ==> q == s
  }

  /** The path is at or below one of the regions. */
  ghost predicate Within(regions: seq<Path>, q: Path) {
    exists i :: 0 <= i < |regions| && regions[i] <= q
  }

  /** The path is strictly below none of the regions. */
  ghost predicate NotInside(regions: seq<Path>, q: Path) {
    forall i :: 0 <= i < |regions| ==> !(regions[i] < q)
  }

  /** No dictionary outside the regions is reached from `r` in two ways. */
  ghost predicate Single(h: Heap, r: Ref, regions: seq<Path>) {
    forall q, s :: Reaches(h, Sub(r), q) && Find(h, Sub(r), q) == Find(h, Sub(r), s) && !Within(regions, q) ==> q == s
  }

  /** No dictionary is reached from both. */
  ghost predicate Apart(h: Heap, r: Ref, x: Cell) {
    forall q, s :: Reaches(h, Sub(r), q) ==> Find(h, Sub(r), q) != Find(h, x, s)
  }

  // ----- Storing one entry ----------------------------------------------------

  /** The store is under `key` of the object at `p`, which no other path reaches. */
  ghost predicate OneStore(h: Heap, r: Ref, p: Path, c: Ref, x: Cell) {
    && Closed(h) && r in h.dicts && c in h.dicts && CellIn(h, x)
    && Find(h, Sub(r), p) == Some(Sub(c)) && Sole(h, Sub(r), c, p) && Avoids(h, x, c)
  }

  lemma {:induction false} FindBeside(h: Heap, r: Ref, p: Path, c: Ref, key: string, x: Cell, q: Path)
    requires OneStore(h, r, p, c, x) && !(p + [key] <= q)
    ensures Find(Stored(h, c, key, x), Sub(r), q) == Find(h, Sub(r), q)
    decreases |q|
  {
    if q != [] {
      var init, last := q[..|q| - 1], q[|q| - 1];
      assert q == init + [last];
      FindBeside(h, r, p, c, key, x, init);
      FindSnoc(h, Sub(r), init, last);
      FindSnoc(Stored(h, c, key, x), Sub(r), init, last);
    }
  }

  lemma {:induction false} FindBelow(h: Heap, r: Ref, p: Path, c: Ref, key: string, x: Cell, s: Path)
    requires OneStore(h, r, p, c, x)
    ensures Find(Stored(h, c, key, x), Sub(r), p + [key] + s) == Find(h, x, s)
  {
    var after := Stored(h, c, key, x);
    FindBeside(h, r, p, c, key, x, p);
    FindSnoc(after, Sub(r), p, key);
    FindFurther(after, Sub(r), p + [key], s);
    FindUntouched(h, after, x, c, s);
  }

  /** What is found after the store: what is below the new entry, or what was there. */
  lemma {:induction false} FindAfter(h: Heap, r: Ref, p: Path, c: Ref, key: string, x: Cell, q: Path)
    requires OneStore(h, r, p, c, x)
    ensures Find(Stored(h, c, key, x), Sub(r), q) ==
            if p + [key] <= q then Find(h, x, q[|p| + 1..]) else Find(h, Sub(r), q)
  {
    if p + [key] <= q {
      assert q == p + [key] + q[|p| + 1..];
      FindBelow(h, r, p, c, key, x, q[|p| + 1..]);
    } else {
      FindBeside(h, r, p, c, key, x, q);
    }
  }

  lemma {:induction false} StoreOnce(h: Heap, r: Ref, p: Path, c: Ref, x: Cell, regions: seq<Path>)
    requires Closed(h) && r in h.dicts && c in h.dicts && CellIn(h, x)
    requires Find(h, Sub(r), p) == Some(Sub(c)) && !Within(regions, p) && Single(h, r, regions) && Apart(h, r, x)
    ensures OneStore(h, r, p, c, x)
  {
    assert Reaches(h, Sub(r), p);
  }

  /** Storing what is reached from nowhere else keeps everything outside the regions single. */
  lemma StoreSingle(h: Heap, r: Ref, p: Path, c: Ref, key: string, x: Cell, regions: seq<Path>)
    requires OneStore(h, r, p, c, x) && Single(h, r, regions) && Apart(h, r, x)
    requires OneEach(h, x) || Within(regions, p + [key])
    ensures Single(Stored(h, c, key, x), r, regions)
  {
    var after, entry := Stored(h, c, key, x), p + [key];
    forall q, s | Reaches(after, Sub(r), q) && Find(after, Sub(r), q) == Find(after, Sub(r), s) && !Within(regions, q)
      ensures q == s
    {
      FindAfter(h, r, p, c, key, x, q);
      FindAfter(h, r, p, c, key, x, s);
      if entry <= q && entry <= s {
        WithinBelow(regions, entry, q);
        assert Reaches(h, x, q[|entry|..]);
        assert q == entry + q[|entry|..] && s == entry + s[|entry|..];
      } else if entry <= q {
        assert Reaches(h, Sub(r), s);
        assert false;
      } else {
        assert Reaches(h, Sub(r), q);
      }
    }
  }

  lemma WithinBelow(regions: seq<Path>, p: Path, q: Path)
    requires p <= q
    ensures Within(regions, p) ==> Within(regions, q)
  {
    if Within(regions, p) {
      var i :| 0 <= i < |regions| && regions[i] <= p;
      assert regions[i] <= q;
    }
  }

  // ----- Writing through a path -----------------------------------------------

  /** The heap with a new empty dictionary that nothing holds yet. */
  function WithEmpty(h: Heap): Heap {
    Heap(h.dicts[h.next := map[]], h.next + 1)
  }

  lemma {:induction false} EmptyFind(h: Heap, x: Cell, q: Path)
    requires Closed(h) && CellIn(h, x)
    ensures Find(WithEmpty(h), x, q) == Find(h, x, q) != Some(Sub(h.next))
    ensures Find(WithEmpty(h), Sub(h.next), q) == if q == [] then Some(Sub(h.next)) else None
  {
    forall s ensures Find(h, x, s) != Some(Sub(h.next)) {
      if Find(h, x, s).Some? {
        FindStaysIn(h, x, s);
      }
    }
    FindUntouched(h, WithEmpty(h), x, h.next, q);
  }

  lemma EmptyApart(h: Heap, r: Ref, cell: Cell, regions: seq<Path>)
    requires Closed(h) && r in h.dicts && CellIn(h, cell) && Single(h, r, regions) && Apart(h, r, cell)
    ensures
      var longer := WithEmpty(h);
      && Single(longer, r, regions) && Apart(longer, r, cell) && Apart(longer, r, Sub(h.next))
      && OneEach(longer, Sub(h.next)) && (OneEach(h, cell) ==> OneEach(longer, cell))
  {
    forall q { EmptyFind(h, Sub(r), q); }
    forall q { EmptyFind(h, cell, q); }
    assert forall q :: Reaches(WithEmpty(h), Sub(r), q) ==> Reaches(h, Sub(r), q);
    assert forall q :: Reaches(WithEmpty(h), cell, q) ==> Reaches(h, cell, q);
  }

  /** The cursor moves to a new dictionary. */
  lemma {:induction false} NewCursor(h: Heap, r: Ref, done: Path, c: Ref, key: string, cell: Cell, regions: seq<Path>)
    requires Closed(h) && r in h.dicts && c in h.dicts && CellIn(h, cell)
    requires Find(h, Sub(r), done) == Some(Sub(c)) && !Within(regions, done)
    requires Single(h, r, regions) && Apart(h, r, cell)
    ensures
      var longer := WithChild(h, c, key);
      && Closed(longer) && h.next in longer.dicts && CellIn(longer, cell)
      && Find(longer, Sub(r), done + [key]) == Some(Sub(h.next))
      && Single(longer, r, regions) && Apart(longer, r, cell) && (OneEach(h, cell) ==> OneEach(longer, cell))
  {
    var before, x := WithEmpty(h), Sub(h.next);
    ClosedSteps(h, c, key, cell);
    EmptyApart(h, r, cell, regions);
    EmptyFind(h, Sub(r), done);
    StoreOnce(before, r, done, c, x, regions);
    StoreSingle(before, r, done, c, key, x, regions);
    FindAfter(before, r, done, c, key, x, done + [key]);
    CellStaysApart(h, r, done, c, key, cell);
  }

  /** The value to be written is still apart from everything else. */
  lemma CellStaysApart(h: Heap, r: Ref, done: Path, c: Ref, key: string, cell: Cell)
    requires Closed(h) && r in h.dicts && c in h.dicts && CellIn(h, cell)
    requires OneStore(WithEmpty(h), r, done, c, Sub(h.next)) && Apart(WithEmpty(h), r, cell)
    ensures Apart(WithChild(h, c, key), r, cell)
    ensures OneEach(WithEmpty(h), cell) ==> OneEach(WithChild(h, c, key), cell)
  {
    var before, longer := WithEmpty(h), WithChild(h, c, key);
    assert Reaches(before, Sub(r), done);
    forall s ensures Find(longer, cell, s) == Find(before, cell, s) != Some(Sub(h.next)) {
      EmptyFind(h, cell, s);
      FindUntouched(before, longer, cell, c, s);
    }
    forall q, s | Reaches(longer, Sub(r), q) ensures Find(longer, Sub(r), q) != Find(longer, cell, s) {
      FindAfter(before, r, done, c, key, Sub(h.next), q);
      if done + [key] <= q {
        EmptyFind(h, cell, q[|done| + 1..]);
      } else {
        assert Reaches(before, Sub(r), q);
      }
    }
    assert forall s :: Reaches(longer, cell, s) ==> Reaches(before, cell, s);
  }

  /** A write that goes into no region keeps everything outside the regions single. */
  lemma {:induction false} WrittenSingle(h: Heap, r: Ref, done: Path, c: Ref, rest: Path, cell: Cell,
      regions: seq<Path>)
    requires Closed(h) && r in h.dicts && c in h.dicts && rest != [] && CellIn(h, cell)
    requires Find(h, Sub(r), done) == Some(Sub(c)) && NotInside(regions, done + rest)
    requires Single(h, r, regions) && Apart(h, r, cell) && (OneEach(h, cell) || Within(regions, done + rest))
    ensures Single(Written(h, c, rest, cell), r, regions)
    decreases |rest|
  {
    var key := rest[0];
    OutsideAbove(regions, done, rest);
    if |rest| == 1 {
      assert done + [key] == done + rest;
      StoreOnce(h, r, done, c, cell, regions);
      StoreSingle(h, r, done, c, key, cell, regions);
    } else {
      assert done + [key] + rest[1..] == done + rest;
      if HasChild(h, c, key) {
        ClosedSteps(h, c, key, cell);
        FindSnoc(h, Sub(r), done, key);
        WrittenSingle(h, r, done + [key], h.dicts[c][key].ref, rest[1..], cell, regions);
      } else {
        NewCursor(h, r, done, c, key, cell, regions);
        WrittenSingle(WithChild(h, c, key), r, done + [key], h.next, rest[1..], cell, regions);
      }
    }
  }

  lemma OutsideAbove(regions: seq<Path>, done: Path, rest: Path)
    requires NotInside(regions, done + rest) && rest != []
    ensures !Within(regions, done)
  {
    forall i | 0 <= i < |regions| ensures !(regions[i] <= done) {
      assert !(regions[i] < done + rest);
    }
  }

  // ----- Runs -----------------------------------------------------------------

  /** The parsed value holds none of its dictionaries twice. */
  ghost predicate Unshared(g: Graph) {
    OneEach(HeapOf(g), g.root)
  }

  lemma {:induction false} CopyFind(own: Heap, after: Heap, base: nat, x: Cell, q: Path)
    requires Copies(own, after, base) && Closed(own) && CellIn(own, x)
    ensures Find(after, Shifted(x, base), q) ==
            var found := Find(own, x, q); if found.Some? then Some(Shifted(found.value, base)) else None
    decreases |q|
  {
    if q != [] && x.Sub? {
      assert Copied(own, after, base, x.ref);
      if q[0] in own.dicts[x.ref] {
        CopyEntry(own, after, base, x.ref, q[0]);
        CopyFind(own, after, base, own.dicts[x.ref][q[0]], q[1..]);
      }
    }
  }

  lemma OwnClosed(g: Graph)
    ensures Closed(HeapOf(g)) && CellIn(HeapOf(g), g.root)
  {
    forall r, k | r in HeapOf(g).dicts && k in HeapOf(g).dicts[r] ensures CellIn(HeapOf(g), HeapOf(g).dicts[r][k]) {
      assert RefsBelow(g.dicts[r][k], |g.dicts|);
    }
  }

  lemma LoadedOneEach(h: Heap, g: Graph)
    requires Closed(h) && Unshared(g)
    ensures OneEach(Loaded(h, g), Shifted(g.root, h.next))
  {
    OwnClosed(g);
    LoadedCopies(h, g);
    CopyOneEach(HeapOf(g), Loaded(h, g), h.next, g.root);
  }

  lemma CopyOneEach(own: Heap, after: Heap, base: nat, x: Cell)
    requires Copies(own, after, base) && Closed(own) && CellIn(own, x) && OneEach(own, x)
    ensures OneEach(after, Shifted(x, base))
  {
    var y := Shifted(x, base);
    forall q, s | Reaches(after, y, q) && Find(after, y, q) == Find(after, y, s) ensures q == s {
      CopyFind(own, after, base, x, q);
      CopyFind(own, after, base, x, s);
      assert Reaches(own, x, q);
    }
  }

  /** A parsed value is apart from all that was there. */
  lemma LoadedApart(h: Heap, g: Graph, r: Ref, regions: seq<Path>)
    requires Closed(h) && r in h.dicts && Single(h, r, regions)
    ensures Single(Loaded(h, g), r, regions) && Apart(Loaded(h, g), r, Shifted(g.root, h.next))
  {
    var after, cell := Loaded(h, g), Shifted(g.root, h.next);
    forall q { LoadedFind(h, g, Sub(r), q); }
    assert forall q :: Reaches(after, Sub(r), q) ==> Reaches(h, Sub(r), q);
    forall q, s | Reaches(after, Sub(r), q) ensures Find(after, Sub(r), q) != Find(after, cell, s) {
      FindStaysIn(h, Sub(r), q);
      LoadedAvoids(h, g, cell, s);
    }
  }

  /** Where the values with shared dictionaries have been written. */
  ghost function Regions(writes: seq<HeapWrite>): seq<Path> {
    if writes == [] then []
    else
      var w := writes[|writes| - 1];
      Regions(writes[..|writes| - 1]) + if Unshared(w.value) then [] else [w.path]
  }

  /** No write goes below the path of an earlier one whose value shares dictionaries. */
  ghost predicate NoDescent(writes: seq<HeapWrite>) {
    forall i, j :: 0 <= i < j < |writes| && !Unshared(writes[i].value) ==> !(writes[i].path < writes[j].path)
  }

  lemma {:induction false} RegionOf(writes: seq<HeapWrite>, i: nat) returns (j: nat)
    requires i < |Regions(writes)|
    ensures j < |writes| && Regions(writes)[i] == writes[j].path && !Unshared(writes[j].value)
  {
    var init := writes[..|writes| - 1];
    if i < |Regions(init)| {
      j := RegionOf(init, i);
    } else {
      j := |init|;
    }
  }

  lemma {:induction false} LastNotInside(writes: seq<HeapWrite>, w: HeapWrite)
    requires NoDescent(writes + [w])
    ensures NotInside(Regions(writes), w.path) && NoDescent(writes)
  {
    assert forall i :: 0 <= i < |writes| ==> (writes + [w])[i] == writes[i];
    assert (writes + [w])[|writes|] == w;
    forall i | 0 <= i < |Regions(writes)| ensures !(Regions(writes)[i] < w.path) {
      var j := RegionOf(writes, i);
      assert (writes + [w])[j] == writes[j];
    }
  }

  /** A path that goes into no region is written through objects that no other path reaches. */
  lemma OutsideIsOneWay(h: Heap, r: Ref, path: Path, regions: seq<Path>)
    requires Closed(h) && r in h.dicts && path != [] && Single(h, r, regions) && NotInside(regions, path)
    ensures OneWay(h, r, path)
  {
    var j := Depth(h, r, path);
    ContainerAt(h, r, path);
    assert path == path[..j] + path[j..];
    OutsideAbove(regions, path[..j], path[j..]);
    assert Reaches(h, Sub(r), path[..j]);
  }

  lemma SingleStep(h: Heap, r: Ref, w: HeapWrite, regions: seq<Path>)
    requires Closed(h) && r in h.dicts && Single(h, r, regions) && NotInside(regions, w.path)
    requires Unshared(w.value) || Within(regions, w.path)
    ensures Single(OneWrite(h, r, w), r, regions)
  {
    LoadedApart(h, w.value, r, regions);
    if Unshared(w.value) {
      LoadedOneEach(h, w.value);
    }
    assert [] + w.path == w.path;
    WrittenSingle(Loaded(h, w.value), r, [], r, w.path, Shifted(w.value.root, h.next), regions);
  }

  lemma NextRegions(h: Heap, r: Ref, w: HeapWrite, regions: seq<Path>) returns (all: seq<Path>)
    requires Closed(h) && r in h.dicts && Single(h, r, regions) && NotInside(regions, w.path)
    ensures all == regions + if Unshared(w.value) then [] else [w.path]
    ensures Single(h, r, all) && NotInside(all, w.path) && (Unshared(w.value) || Within(all, w.path))
  {
    all := regions + if Unshared(w.value) then [] else [w.path];
    MoreRegions(h, r, regions, all);
    if !Unshared(w.value) {
      assert all[|regions|] == w.path;
    }
  }

  lemma MoreRegions(h: Heap, r: Ref, regions: seq<Path>, all: seq<Path>)
    requires Single(h, r, regions) && regions <= all
    ensures Single(h, r, all)
  {
    forall q | Within(regions, q) ensures Within(all, q) {
      var i :| 0 <= i < |regions| && regions[i] <= q;
      assert all[i] <= q;
    }
  }

  /**
    When no write goes below a shared value, every write of the run is made through
    objects that no other path reaches.
   */
  lemma {:induction false} RunWithoutDescent(h: Heap, r: Ref, t: Tree, writes: seq<HeapWrite>)
    requires Closed(h) && r in h.dicts && AllTrees(writes) && OneEach(h, Sub(r))
    requires NoDescent(writes)
    ensures Single(Applied(h, r, writes), r, Regions(writes)) && AllPlainly(h, r, t, writes)
  {
    if writes != [] {
      var init, w := writes[..|writes| - 1], writes[|writes| - 1];
      Fine(writes, |writes| - 1);
      assert writes == init + [w];
      LastNotInside(init, w);
      RunWithoutDescent(h, r, t, init);
      AppliedSnoc(h, r, init, w);
      OutsideIsOneWay(Applied(h, r, init), r, w.path, Regions(init));
      var all := NextRegions(Applied(h, r, init), r, w, Regions(init));
      SingleStep(Applied(h, r, init), r, w, all);
    }
  }

  /** The whole run then makes what the tree writes make, at every moment. */
  lemma {:induction false} RunWithoutDescentIsFaithful(h: Heap, r: Ref, t: Tree, writes: seq<HeapWrite>)
    requires Closed(h) && r in h.dicts && AllTrees(writes) && OneEach(h, Sub(r))
    requires NoDescent(writes) && Represents(h, Sub(r), t)
    ensures AlwaysFaithful(h, r, t, writes)
  {
    RunWithoutDescent(h, r, t, writes);
    RunExactly(h, r, t, writes);
  }

  // ----- What a write leaves as it was ----------------------------------------

  /**
    By every way to the object it changes, the write shows at some path; all of
    them are neither at, above nor below `q`.
   */
  ghost predicate Beside(h: Heap, r: Ref, path: Path, q: Path)
    requires Closed(h) && r in h.dicts && path != []
  {
    var c, tail := Container(h, r, path), path[Depth(h, r, path)..];
    forall s :: Find(h, Sub(r), s) == Some(Sub(c)) ==> Incomparable(s + tail, q)
  }

  /** Unless it ends there, the path meets no dictionary under the last key it follows. */
  lemma {:induction false} EndsAtContainer(h: Heap, r: Ref, path: Path)
    requires Closed(h) && r in h.dicts && path != []
    ensures
      var c, j := Container(h, r, path), Depth(h, r, path);
      j == |path| - 1 || !HasChild(h, c, path[j])
    decreases |path|
  {
    ClosedSteps(h, r, path[0], Plain(Other(0)));
    if |path| > 1 && HasChild(h, r, path[0]) {
      EndsAtContainer(h, h.dicts[r][path[0]].ref, path[1..]);
    }
  }

  lemma {:induction false} FindPrefix(h: Heap, x: Cell, p: Path, rest: Path)
    requires Find(h, x, p + rest).Some?
    ensures Find(h, x, p).Some?
    decreases |p|
  {
    if p != [] {
      assert (p + rest)[0] == p[0] && (p + rest)[1..] == p[1..] + rest;
      FindPrefix(h, h.dicts[x.ref][p[0]], p[1..], rest);
    }
  }

  /** A way that uses the entry which the write changes is not beside the write. */
  lemma {:induction false} EntryOnTheWay(h: Heap, r: Ref, path: Path, q: Path, m: nat)
    requires Closed(h) && r in h.dicts && path != [] && Find(h, Sub(r), q).Some?
    requires m < |q| && Find(h, Sub(r), q[..m]) == Some(Sub(Container(h, r, path)))
    requires q[m] == path[Depth(h, r, path)]
    ensures !Incomparable(q[..m] + path[Depth(h, r, path)..], q)
  {
    var j := Depth(h, r, path);
    EndsAtContainer(h, r, path);
    SameKey(q, m, path, j);
    if j < |path| - 1 {
      WayEnds(h, Sub(r), q, m, Container(h, r, path));
    }
  }

  lemma SameKey(q: Path, m: nat, path: Path, j: nat)
    requires m < |q| && j < |path| && q[m] == path[j]
    ensures j == |path| - 1 ==> q[..m] + path[j..] == q[..m + 1]
    ensures m == |q| - 1 ==> q <= q[..m] + path[j..]
  {
    assert q[..m] + path[j..] == q[..m + 1] + path[j + 1..];
  }

  /** A way through an entry that holds no dictionary ends there. */
  lemma {:induction false} WayEnds(h: Heap, x: Cell, q: Path, m: nat, c: Ref)
    requires m < |q| && Find(h, x, q).Some? && Find(h, x, q[..m]) == Some(Sub(c)) && c in h.dicts
    requires !HasChild(h, c, q[m])
    ensures m == |q| - 1
  {
    var entry, rest := q[..m] + [q[m]], q[m + 1..];
    assert entry + rest == q;
    FindPrefix(h, x, entry, rest);
    FindFurther(h, x, entry, rest);
    FindSnoc(h, x, q[..m], q[m]);
  }

  lemma {:induction false} EntryNotUsed(h: Heap, r: Ref, path: Path, q: Path, m: nat)
    requires Closed(h) && r in h.dicts && path != [] && Find(h, Sub(r), q).Some? && Beside(h, r, path, q)
    requires m < |q| && Find(h, Sub(r), q[..m]) == Some(Sub(Container(h, r, path)))
    ensures q[m] != path[Depth(h, r, path)]
  {
    if q[m] == path[Depth(h, r, path)] {
      EntryOnTheWay(h, r, path, q, m);
    }
  }

  lemma {:induction false} WayKept(h: Heap, r: Ref, path: Path, cell: Cell, q: Path, m: nat)
    requires Closed(h) && r in h.dicts && path != [] && CellIn(h, cell)
    requires Find(h, Sub(r), q).Some? && Beside(h, r, path, q) && m <= |q|
    ensures Find(Written(h, r, path, cell), Sub(r), q[..m]) == Find(h, Sub(r), q[..m])
    decreases m
  {
    if m > 0 {
      var init, after := q[..m - 1], Written(h, r, path, cell);
      assert q[..m] == init + [q[m - 1]];
      WriteChangesOneEntry(h, r, path, cell);
      WayKept(h, r, path, cell, q, m - 1);
      FindSnoc(h, Sub(r), init, q[m - 1]);
      FindSnoc(after, Sub(r), init, q[m - 1]);
      assert init + [q[m - 1]] + q[m..] == q;
      FindPrefix(h, Sub(r), init + [q[m - 1]], q[m..]);
      if Find(h, Sub(r), init) == Some(Sub(Container(h, r, path))) {
        EntryNotUsed(h, r, path, q, m - 1);
      }
    }
  }

  /** What is found at and below `q` stays as it is when the write shows only beside it. */
  lemma {:induction false} KeptBeside(h: Heap, r: Ref, path: Path, cell: Cell, q: Path, s: Path)
    requires Closed(h) && r in h.dicts && path != [] && CellIn(h, cell)
    requires Find(h, Sub(r), q).Some? && Beside(h, r, path, q)
    ensures Find(Written(h, r, path, cell), Sub(r), q + s) == Find(h, Sub(r), q + s)
  {
    var after, x, c := Written(h, r, path, cell), Find(h, Sub(r), q).value, Container(h, r, path);
    assert q[..|q|] == q;
    WayKept(h, r, path, cell, q, |q|);
    FindFurther(h, Sub(r), q, s);
    FindFurther(after, Sub(r), q, s);
    forall u ensures Find(h, x, u) != Some(Sub(c)) {
      FindFurther(h, Sub(r), q, u);
      assert q <= q + u <= (q + u) + path[Depth(h, r, path)..];
    }
    WriteChangesOneEntry(h, r, path, cell);
    FindStaysIn(h, Sub(r), q);
    FindUntouched(h, after, x, c, s);
  }

  // ----- What a write is read back as -----------------------------------------

  /** The way of the write does not itself use the entry that the write changes. */
  ghost predicate OwnWay(h: Heap, r: Ref, path: Path)
    requires Closed(h) && r in h.dicts && path != []
  {
    forall m :: 0 <= m < Depth(h, r, path) ==>
      Find(h, Sub(r), path[..m]) != Some(Sub(Container(h, r, path))) || path[m] != path[Depth(h, r, path)]
  }

  /** Where no dictionary holds itself, it never does. */
  lemma {:induction false} TreesHaveOwnWays(h: Heap, r: Ref, path: Path, t: Tree)
    requires Closed(h) && r in h.dicts && path != [] && Represents(h, Sub(r), t)
    ensures OwnWay(h, r, path)
  {
    var c, j := Container(h, r, path), Depth(h, r, path);
    ContainerAt(h, r, path);
    forall m | 0 <= m < j ensures Find(h, Sub(r), path[..m]) != Some(Sub(c)) {
      assert path[..m] <= path[..j] && |path[..m]| < |path[..j]|;
      if Find(h, Sub(r), path[..m]) == Some(Sub(c)) {
        WaysDiffer(h, Sub(r), t, c, path[..m], path[..j]);
      }
    }
  }

  lemma {:induction false} OwnWayBelow(h: Heap, r: Ref, path: Path)
    requires Closed(h) && r in h.dicts && |path| > 1 && HasChild(h, r, path[0]) && OwnWay(h, r, path)
    ensures h.dicts[r][path[0]].ref in h.dicts && OwnWay(h, h.dicts[r][path[0]].ref, path[1..])
    ensures r != Container(h, r, path) || path[0] != path[Depth(h, r, path)]
  {
    ClosedSteps(h, r, path[0], Plain(Other(0)));
    var child, j := h.dicts[r][path[0]].ref, Depth(h, r, path);
    assert path[..0] == [];
    forall m | 0 <= m < j - 1
      ensures Find(h, Sub(child), path[1..][..m]) != Some(Sub(Container(h, r, path))) ||
          path[1..][m] != path[1..][j - 1]
    {
      assert path[..m + 1][0] == path[0] && path[..m + 1][1..] == path[1..][..m];
      assert path[1..][m] == path[m + 1] && path[1..][j - 1] == path[j];
    }
  }

  lemma {:induction false} CellUntouched(h: Heap, r: Ref, key: string, cell: Cell, s: Path)
    requires Closed(h) && r in h.dicts && CellIn(h, cell) && Avoids(h, cell, r)
    ensures Find(WithChild(h, r, key), cell, s) == Find(h, cell, s) != Some(Sub(h.next))
  {
    EmptyFind(h, cell, s);
    FindUntouched(h, WithChild(h, r, key), cell, r, s);
  }

  /** Below the path, the value is found. */
  lemma {:induction false} WrittenFound(h: Heap, r: Ref, path: Path, cell: Cell, s: Path)
    requires Closed(h) && r in h.dicts && path != [] && CellIn(h, cell)
    requires OwnWay(h, r, path) && Avoids(h, cell, Container(h, r, path))
    ensures Find(Written(h, r, path, cell), Sub(r), path + s) == Find(h, cell, s)
    decreases |path|
  {
    var key, after := path[0], Written(h, r, path, cell);
    assert (path + s)[0] == key && (path + s)[1..] == path[1..] + s;
    WriteChangesOneEntry(h, r, path, cell);
    ClosedSteps(h, r, key, cell);
    if |path| == 1 {
      assert path[1..] + s == s;
      FindUntouched(h, after, cell, r, s);
    } else if HasChild(h, r, key) {
      OwnWayBelow(h, r, path);
      WrittenFound(h, h.dicts[r][key].ref, path[1..], cell, s);
    } else {
      var longer := WithChild(h, r, key);
      forall u { CellUntouched(h, r, key, cell, u); }
      assert !HasChild(longer, h.next, path[1]);
      WrittenFound(longer, h.next, path[1..], cell, s);
    }
  }

  // ----- What a path shows ----------------------------------------------------

  ghost predicate Alike(a: Option<Cell>, b: Option<Cell>) {
    && (a.None? <==> b.None?)
    && (a.Some? ==> (a.value.Plain? <==> b.value.Plain?) && (a.value.Plain? ==> a == b))
  }

  /** At and below the path lies what the parsed value holds. */
  ghost predicate Shows(h: Heap, r: Ref, path: Path, g: Graph) {
    forall s :: Alike(Find(h, Sub(r), path + s), Find(HeapOf(g), g.root, s))
  }

  lemma WriteShows(h: Heap, r: Ref, w: HeapWrite)
    requires Closed(h) && r in h.dicts && OwnWay(h, r, w.path)
    ensures Shows(OneWrite(h, r, w), r, w.path, w.value)
  {
    var g, loaded, cell := w.value, Loaded(h, w.value), Shifted(w.value.root, h.next);
    LoadedContainer(h, g, r, w.path);
    forall q { LoadedFind(h, g, Sub(r), q); }
    forall q { LoadedAvoids(h, g, cell, q); }
    OwnClosed(g);
    LoadedCopies(h, g);
    forall s ensures Alike(Find(OneWrite(h, r, w), Sub(r), w.path + s), Find(HeapOf(g), g.root, s)) {
      WrittenFound(loaded, r, w.path, cell, s);
      CopyFind(HeapOf(g), loaded, h.next, g.root, s);
    }
  }

  lemma StillShows(h: Heap, r: Ref, w: HeapWrite, q: Path, g: Graph)
    requires Closed(h) && r in h.dicts && Shows(h, r, q, g) && Beside(h, r, w.path, q)
    ensures Shows(OneWrite(h, r, w), r, q, g)
  {
    var loaded, cell := Loaded(h, w.value), Shifted(w.value.root, h.next);
    LoadedContainer(h, w.value, r, w.path);
    forall s { LoadedFind(h, w.value, Sub(r), s); }
    assert q + [] == q && Alike(Find(h, Sub(r), q + []), Find(HeapOf(g), g.root, []));
    forall s ensures Alike(Find(OneWrite(h, r, w), Sub(r), q + s), Find(HeapOf(g), g.root, s)) {
      KeptBeside(loaded, r, w.path, cell, q, s);
    }
  }

  /** Every write of the run, when it is made, shows only beside `q`. */
  ghost predicate AllBeside(h: Heap, r: Ref, writes: seq<HeapWrite>, q: Path)
    requires Closed(h) && r in h.dicts
  {
    writes == [] ||
    (var n := |writes| - 1;
     AllBeside(h, r, writes[..n], q) && Beside(Applied(h, r, writes[..n]), r, writes[n].path, q))
  }

  /** What a path shows stays there through a run of writes that show only beside it. */
  lemma {:induction false} RunStillShows(h: Heap, r: Ref, writes: seq<HeapWrite>, q: Path, g: Graph)
    requires Closed(h) && r in h.dicts && Shows(h, r, q, g) && AllBeside(h, r, writes, q)
    ensures Shows(Applied(h, r, writes), r, q, g)
  {
    if writes != [] {
      var n := |writes| - 1;
      RunStillShows(h, r, writes[..n], q, g);
      StillShows(Applied(h, r, writes[..n]), r, writes[n], q, g);
    }
  }

  /**
    After a run the path of a write shows its value, shared dictionaries or not, when
    every later write shows only beside it.
   */
  lemma {:induction false} WriteStaysShown(h: Heap, r: Ref, earlier: seq<HeapWrite>, w: HeapWrite,
      later: seq<HeapWrite>)
    requires Closed(h) && r in h.dicts
    requires OwnWay(Applied(h, r, earlier), r, w.path)
    requires AllBeside(OneWrite(Applied(h, r, earlier), r, w), r, later, w.path)
    ensures Shows(Applied(h, r, earlier + [w] + later), r, w.path, w.value)
  {
    var before := Applied(h, r, earlier);
    WriteShows(before, r, w);
    RunStillShows(OneWrite(before, r, w), r, later, w.path, w.value);
    AppliedSnoc(h, r, earlier, w);
    AppliedAppend(h, r, earlier + [w], later);
  }
}
