/**
  The dictionaries that configuration values are made of, as objects that can be
  shared, and the write through a path of them, in place.
 */
module ConfigHeap {
  import opened Prelude
  import opened ConfigTree

  /** The identity of a dictionary object. */
  type Ref = nat

  /** What a dictionary holds under a key: a scalar, or another dictionary object. */
  datatype Cell = Plain(scalar: Scalar) | Sub(ref: Ref)

  type Entries = map<string, Cell>

  /** All dictionary objects; `next` is the identity of the next one. */
  datatype Heap = Heap(dicts: map<Ref, Entries>, next: Ref)

  predicate CellIn(h: Heap, c: Cell) {
    c.Sub? ==> c.ref in h.dicts
  }

  /** Every reference leads to an object. */
  ghost predicate Closed(h: Heap) {
    && (forall r :: r in h.dicts ==> r < h.next)
    && (forall r, k :: r in h.dicts && k in h.dicts[r] ==> CellIn(h, h.dicts[r][k]))
  }

  /** What a path leads to from a cell. */
  function Find(h: Heap, c: Cell, path: Path): Option<Cell>
    decreases |path|
  {
    if path == [] then Some(c)
    else if c.Sub? && c.ref in h.dicts && path[0] in h.dicts[c.ref]
    then Find(h, h.dicts[c.ref][path[0]], path[1..])
    else None
  }

  /** One empty dictionary. */
  const ROOT: Heap := Heap(map[0 := map[]], 1)

  // ----- Writing --------------------------------------------------------------

  /** `cursor[key] = cell`. */
  function Stored(h: Heap, r: Ref, key: string, cell: Cell): Heap
    requires r in h.dicts
  {
    Heap(h.dicts[r := h.dicts[r][key := cell]], h.next)
  }

  /** Whether the cursor can move to a dictionary under the key. */
  predicate HasChild(h: Heap, r: Ref, key: string)
    requires r in h.dicts
  {
    key in h.dicts[r] && h.dicts[r][key].Sub?
  }

  /** `child = {}; cursor[key] = child`. */
  function WithChild(h: Heap, r: Ref, key: string): Heap
    requires r in h.dicts
  {
    Stored(Heap(h.dicts[h.next := map[]], h.next + 1), r, key, Sub(h.next))
  }

  lemma ClosedSteps(h: Heap, r: Ref, key: string, cell: Cell)
    requires Closed(h) && r in h.dicts && CellIn(h, cell)
    ensures Closed(Stored(h, r, key, cell))
    ensures Closed(WithChild(h, r, key)) && h.next in WithChild(h, r, key).dicts
    ensures HasChild(h, r, key) ==> h.dicts[r][key].ref in h.dicts
  {
    var stored, longer := Stored(h, r, key, cell), WithChild(h, r, key);
    forall s, k | s in stored.dicts && k in stored.dicts[s] ensures CellIn(stored, stored.dicts[s][k]) {
      assert stored.dicts[s][k] == cell || CellIn(h, h.dicts[s][k]);
    }
    forall s, k | s in longer.dicts && k in longer.dicts[s] ensures CellIn(longer, longer.dicts[s][k]) {
      assert longer.dicts[s][k] == Sub(h.next) || CellIn(h, h.dicts[s][k]);
    }
    assert HasChild(h, r, key) ==> CellIn(h, h.dicts[r][key]);
  }

  /** The heap after a write through `path`, from the object `r`. */
  function Written(h: Heap, r: Ref, path: Path, cell: Cell): (after: Heap)
    requires r in h.dicts && path != [] && CellIn(h, cell) && Closed(h)
    ensures Closed(after) && h.dicts.Keys <= after.dicts.Keys && h.next <= after.next
    decreases |path|
  {
    ClosedSteps(h, r, path[0], cell);
    if |path| == 1 then Stored(h, r, path[0], cell)
    else if HasChild(h, r, path[0]) then Written(h, h.dicts[r][path[0]].ref, path[1..], cell)
    else Written(WithChild(h, r, path[0]), h.next, path[1..], cell)
  }

  // ----- Parsed values --------------------------------------------------------

  predicate RefsBelow(c: Cell, n: nat) {
    c.Sub? ==> c.ref < n
  }

  predicate ValidGraph(g: RawGraph) {
    && RefsBelow(g.root, |g.dicts|)
    && forall i, k :: 0 <= i < |g.dicts| && k in g.dicts[i] ==> RefsBelow(g.dicts[i][k], |g.dicts|)
  }

  datatype RawGraph = Graph(dicts: seq<Entries>, root: Cell)

  /** A parsed value: its own dictionary objects, numbered from zero, which may share or even hold each other. */
  type Graph = g: RawGraph | ValidGraph(g) witness Graph([], Plain(Other(0)))

  function Shifted(c: Cell, base: nat): Cell {
    if c.Sub? then Sub(c.ref + base) else c
  }

  function ShiftedEntries(entries: Entries, base: nat): Entries {
    map k | k in entries :: Shifted(entries[k], base)
  }

  /** The entries of the value's dictionary that becomes the object `r`. */
  function LoadedEntries(g: Graph, base: nat, r: Ref): Entries
    requires base <= r < base + |g.dicts|
  {
    ShiftedEntries(g.dicts[r - base], base)
  }

  /** The heap when a parsed value has come into being. */
  function Loaded(h: Heap, g: Graph): (after: Heap)
    requires Closed(h)
    ensures Closed(after) && CellIn(after, Shifted(g.root, h.next)) && h.dicts.Keys <= after.dicts.Keys
    ensures forall r :: r in h.dicts ==> after.dicts[r] == h.dicts[r]
  {
    var after := Heap(
      h.dicts + map r: nat | h.next <= r < h.next + |g.dicts| :: LoadedEntries(g, h.next, r),
      h.next + |g.dicts|);
    LoadedKeeps(h, g, after);
    after
  }

  lemma LoadedKeeps(h: Heap, g: Graph, after: Heap)
    requires Closed(h) && after.next == h.next + |g.dicts|
    requires forall r :: r in after.dicts <==> r in h.dicts || h.next <= r < after.next
    requires forall r :: r in h.dicts ==> after.dicts[r] == h.dicts[r]
    requires forall r :: h.next <= r < after.next ==> after.dicts[r] == LoadedEntries(g, h.next, r)
    ensures Closed(after) && CellIn(after, Shifted(g.root, h.next))
  {
    forall r, k | r in after.dicts && k in after.dicts[r] ensures CellIn(after, after.dicts[r][k]) {
      if r in h.dicts {
        assert CellIn(h, h.dicts[r][k]);
      } else {
        assert RefsBelow(g.dicts[r - h.next][k], |g.dicts|);
      }
    }
  }

  /** A parsed value and the path it is written to. */
  datatype HeapWrite = HeapWrite(path: NonEmptyPath, value: Graph)

  type NonEmptyPath = p: Path | p != [] witness [""]

  function ScalarWrite(path: NonEmptyPath, s: Scalar): HeapWrite {
    HeapWrite(path, Graph([], Plain(s)))
  }

  function OneWrite(h: Heap, r: Ref, w: HeapWrite): (after: Heap)
    requires Closed(h) && r in h.dicts
    ensures Closed(after) && r in after.dicts
  {
    Written(Loaded(h, w.value), r, w.path, Shifted(w.value.root, h.next))
  }

  /** The heap after some writes from one object. */
  ghost function Applied(h: Heap, r: Ref, writes: seq<HeapWrite>): (after: Heap)
    requires Closed(h) && r in h.dicts
    ensures Closed(after) && r in after.dicts
  {
    if writes == [] then h
    else
      OneWrite(Applied(h, r, writes[..|writes| - 1]), r, writes[|writes| - 1])
  }

  lemma {:induction false} AppliedSnoc(h: Heap, r: Ref, writes: seq<HeapWrite>, w: HeapWrite)
    requires Closed(h) && r in h.dicts
    ensures Applied(h, r, writes + [w]) == OneWrite(Applied(h, r, writes), r, w)
  {
    assert (writes + [w])[..|writes|] == writes;
  }

  lemma {:induction false} BothOneMore(h: Heap, r: Ref, writes: seq<HeapWrite>, g: Heap, others: seq<HeapWrite>,
      w: HeapWrite)
    requires Closed(h) && r in h.dicts
    requires Closed(g) && r in g.dicts
    requires Applied(h, r, writes) == Applied(g, r, others)
    ensures Applied(h, r, writes + [w]) == Applied(g, r, others + [w])
  {
    AppliedSnoc(h, r, writes, w);
    AppliedSnoc(g, r, others, w);
  }

  lemma {:induction false} AppliedAppend(h: Heap, r: Ref, earlier: seq<HeapWrite>, later: seq<HeapWrite>)
    requires Closed(h) && r in h.dicts
    ensures Applied(h, r, earlier + later) == Applied(Applied(h, r, earlier), r, later)
    decreases |later|
  {
    if later == [] {
      assert earlier + later == earlier;
    } else {
      var init, w := later[..|later| - 1], later[|later| - 1];
      assert later == init + [w];
      assert earlier + later == earlier + init + [w];
      AppliedAppend(h, r, earlier, init);
      BothOneMore(h, r, earlier + init, Applied(h, r, earlier), init, w);
    }
  }

  /** All dictionary objects of a configuration, changed in place. */
  class DictHeap {
    var dicts: map<Ref, Entries>
    var next: Ref

    function Contents(): Heap
      reads this
    {
      Heap(dicts, next)
    }

    /** `{}`, numbered zero. */
    constructor ()
      ensures Contents() == ROOT
    {
      dicts, next := map[0 := map[]], 1;
    }

    /** `_set_nested`: the cursor moves along the path, through whatever objects it meets. */
    method SetNested(target: Ref, path: Path, value: Cell)
      requires Closed(Contents()) && target in dicts && path != [] && CellIn(Contents(), value)
      modifies this
      ensures Contents() == Written(old(Contents()), target, path, value)
    {
      var cursor := target;
      var i := 0;
      assert path[0..] == path;
      while i < |path| - 1
        invariant 0 <= i < |path| && cursor in dicts && Closed(Contents()) && CellIn(Contents(), value)
        invariant Written(old(Contents()), target, path, value) == Written(Contents(), cursor, path[i..], value)
      {
        var part := path[i];
        assert path[i..][0] == part && path[i..][1..] == path[i + 1..];
        ClosedSteps(Contents(), cursor, part, value);
        if part !in dicts[cursor] || dicts[cursor][part].Plain? {
          ghost var before := Contents();
          dicts := dicts[next := map[]];
          dicts := dicts[cursor := dicts[cursor][part := Sub(next)]];
          next := next + 1;
          assert Contents() == WithChild(before, cursor, part);
        }
        cursor := dicts[cursor][part].ref;
        i := i + 1;
      }
      assert path[i..] == [path[|path| - 1]];
      dicts := dicts[cursor := dicts[cursor][path[|path| - 1] := value]];
    }

    /** The objects of a parsed value join the others. */
    method Load(g: Graph) returns (root: Cell)
      requires Closed(Contents())
      modifies this
      ensures Contents() == Loaded(old(Contents()), g) && root == Shifted(g.root, old(next))
    {
      var after := Loaded(Contents(), g);
      root := Shifted(g.root, next);
      dicts, next := after.dicts, after.next;
    }
  }
}
