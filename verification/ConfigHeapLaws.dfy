/**
  When a write through a path of shared dictionary objects is the write it looks
  like: what it changes, and exactly when nothing else is seen to change.
 */
module ConfigHeapLaws {
  import opened Prelude
  import opened ConfigTree
  import opened ConfigHeap

  // ----- What one write changes -----------------------------------------------

  /** How many steps of the path lead through dictionaries that are there. */
  function Depth(h: Heap, r: Ref, path: Path): (j: nat)
    requires Closed(h) && r in h.dicts && path != []
    ensures j < |path|
    decreases |path|
  {
    ClosedSteps(h, r, path[0], Plain(Other(0)));
    if |path| > 1 && HasChild(h, r, path[0]) then 1 + Depth(h, h.dicts[r][path[0]].ref, path[1..]) else 0
  }

  /** The last of them: the one object that a write through the path changes. */
  function Container(h: Heap, r: Ref, path: Path): (c: Ref)
    requires Closed(h) && r in h.dicts && path != []
    ensures c in h.dicts
    decreases |path|
  {
    ClosedSteps(h, r, path[0], Plain(Other(0)));
    if |path| > 1 && HasChild(h, r, path[0]) then Container(h, h.dicts[r][path[0]].ref, path[1..]) else r
  }

  /** What the write puts there: the value itself, or the first of the new dictionaries that lead to it. */
  function NewCell(h: Heap, r: Ref, path: Path, cell: Cell): Cell
    requires Closed(h) && r in h.dicts && path != []
  {
    if Depth(h, r, path) == |path| - 1 then cell else Sub(h.next)
  }

  /** `h` and `after` have the same objects from before, except for `c`. */
  ghost predicate SameBut(h: Heap, after: Heap, c: Ref) {
    forall r :: r in h.dicts ==> r in after.dicts && (r != c ==> after.dicts[r] == h.dicts[r])
  }

  lemma PathTail(path: Path, j: nat)
    requires 0 < j < |path|
    ensures path[..j][0] == path[0] && path[..j][1..] == path[1..][..j - 1]
    ensures path[1..][j - 1] == path[j] && path[1..][j..] == path[j + 1..]
  {
  }

  lemma {:induction false} ContainerAt(h: Heap, r: Ref, path: Path)
    requires Closed(h) && r in h.dicts && path != []
    ensures Find(h, Sub(r), path[..Depth(h, r, path)]) == Some(Sub(Container(h, r, path)))
    decreases |path|
  {
    ClosedSteps(h, r, path[0], Plain(Other(0)));
    var j := Depth(h, r, path);
    if j > 0 {
      var child := h.dicts[r][path[0]].ref;
      ContainerAt(h, child, path[1..]);
      PathTail(path, j);
    }
  }

  /** New dictionaries are entered under one key of `r`, and leave the other objects as they are. */
  lemma {:induction false} NewChildrenApart(h: Heap, r: Ref, path: Path, cell: Cell)
    requires Closed(h) && r in h.dicts && |path| > 1 && !HasChild(h, r, path[0]) && CellIn(h, cell)
    ensures
      var after := Written(h, r, path, cell);
      SameBut(h, after, r) && after.dicts[r] == h.dicts[r][path[0] := Sub(h.next)]
    decreases |path|, 0
  {
    var longer := WithChild(h, r, path[0]);
    ClosedSteps(h, r, path[0], cell);
    assert !HasChild(longer, h.next, path[1..][0]);
    assert Container(longer, h.next, path[1..]) == h.next;
    WriteChangesOneEntry(longer, h.next, path[1..], cell);
    assert Written(h, r, path, cell) == Written(longer, h.next, path[1..], cell);
  }

  /** Of all the objects that were there, a write changes one, under one key. */
  lemma {:induction false} WriteChangesOneEntry(h: Heap, r: Ref, path: Path, cell: Cell)
    requires Closed(h) && r in h.dicts && path != [] && CellIn(h, cell)
    ensures
      var after, c := Written(h, r, path, cell), Container(h, r, path);
      && SameBut(h, after, c)
      && after.dicts[c] == h.dicts[c][path[Depth(h, r, path)] := NewCell(h, r, path, cell)]
    decreases |path|, 1
  {
    ClosedSteps(h, r, path[0], cell);
    if |path| > 1 {
      if HasChild(h, r, path[0]) {
        WriteChangesOneEntry(h, h.dicts[r][path[0]].ref, path[1..], cell);
      } else {
        NewChildrenApart(h, r, path, cell);
      }
    }
  }

  // ----- Trees that cells stand for -------------------------------------------

  /** What a cell stands for, when its objects do not hold each other in a circle; they may be shared. */
  ghost predicate Represents(h: Heap, c: Cell, t: Tree)
    decreases t
  {
    if c.Plain? then t == Leaf(c.scalar)
    else
      && t.Node? && c.ref in h.dicts && h.dicts[c.ref].Keys == t.children.Keys
      && forall k :: k in t.children ==> Represents(h, h.dicts[c.ref][k], t.children[k])
  }

  lemma {:induction false} RepresentsOne(h: Heap, c: Cell, t: Tree, u: Tree)
    requires Represents(h, c, t) && Represents(h, c, u)
    ensures t == u
    decreases t
  {
    if c.Sub? {
      forall k | k in t.children ensures t.children[k] == u.children[k] {
        RepresentsOne(h, h.dicts[c.ref][k], t.children[k], u.children[k]);
      }
      assert t.children == u.children;
    }
  }

  /** Walking the objects is looking up in the tree. */
  lemma {:induction false} FindIsLookup(h: Heap, c: Cell, t: Tree, path: Path)
    requires Represents(h, c, t)
    ensures Find(h, c, path).Some? <==> Lookup(t, path).Some?
    ensures Find(h, c, path).Some? ==> Represents(h, Find(h, c, path).value, Lookup(t, path).value)
    decreases |path|
  {
    if path != [] && c.Sub? && path[0] in h.dicts[c.ref] {
      FindIsLookup(h, h.dicts[c.ref][path[0]], t.children[path[0]], path[1..]);
    }
  }

  lemma {:induction false} FindFurther(h: Heap, c: Cell, p: Path, q: Path)
    requires Find(h, c, p).Some?
    ensures Find(h, c, p + q) == Find(h, Find(h, c, p).value, q)
    decreases |p|
  {
    if p == [] {
      assert p + q == q;
    } else {
      assert (p + q)[0] == p[0] && (p + q)[1..] == p[1..] + q;
      FindFurther(h, h.dicts[c.ref][p[0]], p[1..], q);
    }
  }

  lemma {:induction false} LookupFurther(t: Tree, p: Path, q: Path)
    requires Lookup(t, p).Some?
    ensures Lookup(t, p + q) == Lookup(Lookup(t, p).value, q)
    decreases |p|
  {
    if p == [] {
      assert p + q == q;
    } else {
      assert (p + q)[0] == p[0] && (p + q)[1..] == p[1..] + q;
      LookupFurther(t.children[p[0]], p[1..], q);
    }
  }

  lemma {:induction false} NotInItself(t: Tree, path: Path)
    requires path != []
    ensures Lookup(t, path) != Some(t)
    decreases t
  {
    if Lookup(t, path) == Some(t) {
      var k := path[0];
      var u := t.children[k];
      LookupFurther(u, path[1..], [k]);
      assert Lookup(t, [k]) == Some(u) by {
        assert [k][1..] == [];
      }
      NotInItself(u, path[1..] + [k]);
    }
  }

  /** No object with a tree is reached from itself. */
  lemma {:induction false} NoCircle(h: Heap, c: Cell, t: Tree, path: Path)
    requires Represents(h, c, t) && Find(h, c, path) == Some(c)
    ensures path == []
  {
    FindIsLookup(h, c, t, path);
    RepresentsOne(h, c, t, Lookup(t, path).value);
    if path != [] {
      NotInItself(t, path);
    }
  }

  // ----- What a write leaves alone --------------------------------------------

  /** The object `c` is not reached from `x`. */
  ghost predicate Avoids(h: Heap, x: Cell, c: Ref) {
    forall q :: Find(h, x, q) != Some(Sub(c))
  }

  /** The object `c` is reached from `x` by no path but `p`. */
  ghost predicate Sole(h: Heap, x: Cell, c: Ref, p: Path) {
    forall q :: Find(h, x, q) == Some(Sub(c)) ==> q == p
  }

  lemma {:induction false} FindStep(h: Heap, x: Cell, k: string, q: Path)
    requires x.Sub? && x.ref in h.dicts && k in h.dicts[x.ref]
    ensures Find(h, x, [k] + q) == Find(h, h.dicts[x.ref][k], q)
  {
    assert ([k] + q)[1..] == q;
  }

  lemma AvoidsBelow(h: Heap, x: Cell, c: Ref, k: string)
    requires Avoids(h, x, c) && x.Sub? && x.ref in h.dicts && k in h.dicts[x.ref]
    ensures x.ref != c && Avoids(h, h.dicts[x.ref][k], c)
  {
    assert Find(h, x, []) == Some(x);
    forall q ensures Find(h, h.dicts[x.ref][k], q) != Some(Sub(c)) {
      FindStep(h, x, k, q);
    }
  }

  lemma SoleBelow(h: Heap, x: Cell, c: Ref, p: Path, k: string)
    requires Sole(h, x, c, p) && x.Sub? && x.ref in h.dicts && k in h.dicts[x.ref]
    ensures p != [] && p[0] == k ==> Sole(h, h.dicts[x.ref][k], c, p[1..])
    ensures p == [] || p[0] != k ==> Avoids(h, h.dicts[x.ref][k], c)
    ensures p != [] ==> x.ref != c
  {
    assert Find(h, x, []) == Some(x);
    forall q | Find(h, h.dicts[x.ref][k], q) == Some(Sub(c)) ensures p == [k] + q {
      FindStep(h, x, k, q);
    }
  }

  /** What does not reach the changed object still stands for the same tree. */
  lemma {:induction false} Untouched(h: Heap, after: Heap, x: Cell, t: Tree, c: Ref)
    requires Represents(h, x, t) && Avoids(h, x, c) && SameBut(h, after, c)
    ensures Represents(after, x, t)
    decreases t
  {
    if x.Sub? {
      assert Find(h, x, []) == Some(x);
      forall k | k in t.children ensures Represents(after, after.dicts[x.ref][k], t.children[k]) {
        AvoidsBelow(h, x, c, k);
        Untouched(h, after, h.dicts[x.ref][k], t.children[k], c);
      }
    }
  }

  lemma {:induction false} FindUntouched(h: Heap, after: Heap, x: Cell, c: Ref, q: Path)
    requires Avoids(h, x, c) && SameBut(h, after, c) && (x.Sub? ==> x.ref in h.dicts) && Closed(h)
    ensures Find(after, x, q) == Find(h, x, q)
    decreases |q|
  {
    assert Find(h, x, []) == Some(x);
    if q != [] && x.Sub? && q[0] in h.dicts[x.ref] {
      AvoidsBelow(h, x, c, q[0]);
      FindUntouched(h, after, h.dicts[x.ref][q[0]], c, q[1..]);
    }
  }

  lemma {:induction false} FindStaysIn(h: Heap, x: Cell, q: Path)
    requires Closed(h) && CellIn(h, x) && Find(h, x, q).Some?
    ensures CellIn(h, Find(h, x, q).value)
    decreases |q|
  {
    if q != [] {
      FindStaysIn(h, h.dicts[x.ref][q[0]], q[1..]);
    }
  }

  // ----- A write as a tree write ----------------------------------------------

  lemma NodeWith(h: Heap, after: Heap, r: Ref, t: Tree, k: string, x: Cell, u: Tree)
    requires Represents(h, Sub(r), t) && r in after.dicts && after.dicts[r] == h.dicts[r][k := x]
    requires Represents(after, x, u)
    requires forall l :: l in t.children && l != k ==> Represents(after, h.dicts[r][l], t.children[l])
    ensures Represents(after, Sub(r), Node(t.children[k := u]))
  {
    var children := t.children[k := u];
    forall l | l in children ensures Represents(after, after.dicts[r][l], children[l]) {
    }
  }

  lemma SetBelow(t: Tree, path: Path, v: Tree)
    requires t.Node? && path != []
    ensures
      var k := path[0];
      var child := if k in t.children then t.children[k] else EMPTY;
      SetPath(t, path, v) == Node(t.children[k := SetPath(child, path[1..], v)])
  {
  }

  /** A scalar is written through as if it were an empty dictionary. */
  lemma {:induction false} SetThroughLeaf(s: Scalar, path: Path, v: Tree)
    requires path != []
    ensures SetPath(Leaf(s), path, v) == SetPath(EMPTY, path, v)
  {
  }

  /** The dictionaries that a write creates lead to the value and to nothing else. */
  lemma {:induction false} NewChild(h: Heap, r: Ref, k: string, cell: Cell, tv: Tree)
    requires Closed(h) && r in h.dicts && CellIn(h, cell) && Represents(h, cell, tv) && Avoids(h, cell, r)
    ensures
      var longer := WithChild(h, r, k);
      && Closed(longer) && h.next in longer.dicts && CellIn(longer, cell) && SameBut(h, longer, r)
      && Represents(longer, Sub(h.next), EMPTY) && Represents(longer, cell, tv)
      && Avoids(longer, cell, h.next) && Sole(longer, Sub(h.next), h.next, [])
  {
    var longer := WithChild(h, r, k);
    ClosedSteps(h, r, k, cell);
    Untouched(h, longer, cell, tv, r);
    forall q ensures Find(longer, cell, q) != Some(Sub(h.next)) {
      FindUntouched(h, longer, cell, r, q);
      if Find(h, cell, q).Some? {
        FindStaysIn(h, cell, q);
      }
    }
  }

  /** The new dictionaries of a write, from the first one on. */
  lemma {:induction false} NewDictionaries(h: Heap, r: Ref, path: Path, cell: Cell, tv: Tree)
    requires Closed(h) && r in h.dicts && |path| > 1 && !HasChild(h, r, path[0]) && CellIn(h, cell)
    requires Represents(h, cell, tv) && Avoids(h, cell, r)
    ensures Represents(Written(h, r, path, cell), Sub(h.next), SetPath(EMPTY, path[1..], tv))
    decreases |path|, 0
  {
    var longer := WithChild(h, r, path[0]);
    NewChild(h, r, path[0], cell, tv);
    assert Container(longer, h.next, path[1..]) == h.next && path[1..][..0] == [];
    WriteIsTreeWrite(longer, h.next, path[1..], cell, EMPTY, tv);
  }

  /**
    A write is the tree write, when the object it changes is reached by no other path
    and the value does not hold that object.
   */
  lemma {:induction false} WriteIsTreeWrite(h: Heap, r: Ref, path: Path, cell: Cell, t: Tree, tv: Tree)
    requires Closed(h) && r in h.dicts && path != [] && CellIn(h, cell)
    requires Represents(h, Sub(r), t) && Represents(h, cell, tv) && Avoids(h, cell, Container(h, r, path))
    requires Sole(h, Sub(r), Container(h, r, path), path[..Depth(h, r, path)])
    ensures Represents(Written(h, r, path, cell), Sub(r), SetPath(t, path, tv))
    decreases |path|, 1
  {
    var k, c, j, after := path[0], Container(h, r, path), Depth(h, r, path), Written(h, r, path, cell);
    WriteChangesOneEntry(h, r, path, cell);
    SetBelow(t, path, tv);
    forall l | l in t.children && l != k ensures Represents(after, h.dicts[r][l], t.children[l]) {
      SoleBelow(h, Sub(r), c, path[..j], l);
      Untouched(h, after, h.dicts[r][l], t.children[l], c);
    }
    if |path| == 1 {
      Untouched(h, after, cell, tv, c);
      NodeWith(h, after, r, t, k, cell, tv);
    } else if HasChild(h, r, k) {
      var child := h.dicts[r][k];
      SoleBelow(h, Sub(r), c, path[..j], k);
      PathTail(path, j);
      ClosedSteps(h, r, k, cell);
      WriteIsTreeWrite(h, child.ref, path[1..], cell, t.children[k], tv);
      assert h.dicts[r] == h.dicts[r][k := child];
      NodeWith(h, after, r, t, k, child, SetPath(t.children[k], path[1..], tv));
    } else {
      NewDictionaries(h, r, path, cell, tv);
      if k in t.children {
        SetThroughLeaf(t.children[k].value, path[1..], tv);
      }
      NodeWith(h, after, r, t, k, Sub(h.next), SetPath(EMPTY, path[1..], tv));
    }
  }

  // ----- Exactly when ---------------------------------------------------------

  /** The way to the changed object is not changed itself. */
  lemma {:induction false} WayUnchanged(h: Heap, after: Heap, x: Cell, t: Tree, c: Ref, q: Path)
    requires Represents(h, x, t) && SameBut(h, after, c) && Find(h, x, q) == Some(Sub(c))
    ensures Find(after, x, q) == Some(Sub(c))
    decreases |q|
  {
    if q != [] {
      if x == Sub(c) {
        NoCircle(h, x, t, q);
      }
      WayUnchanged(h, after, h.dicts[x.ref][q[0]], t.children[q[0]], c, q[1..]);
    }
  }

  lemma {:induction false} SetPathThrough(t: Tree, p: Path, s: Path, v: Tree)
    requires Lookup(t, p).Some?
    ensures SetPath(t, p + s, v) == SetPath(t, p, SetPath(Lookup(t, p).value, s, v))
    decreases |p|
  {
    if p == [] {
      assert p + s == s;
    } else {
      assert (p + s)[0] == p[0] && (p + s)[1..] == p[1..] + s;
      SetPathThrough(t.children[p[0]], p[1..], s, v);
    }
  }

  lemma {:induction false} SetPathSame(t: Tree, p: Path)
    requires Lookup(t, p).Some?
    ensures SetPath(t, p, Lookup(t, p).value) == t
    decreases |p|
  {
    if p != [] {
      SetPathSame(t.children[p[0]], p[1..]);
      assert t.children[p[0] := t.children[p[0]]] == t.children;
    }
  }

  /** A tree write that leaves one of the dictionaries on its path as it was changes nothing. */
  lemma {:induction false} SameOnTheWay(t: Tree, p: Path, s: Path, v: Tree)
    requires Lookup(t, p).Some? && SetPath(Lookup(t, p).value, s, v) == Lookup(t, p).value
    ensures SetPath(t, p + s, v) == t
  {
    SetPathThrough(t, p, s, v);
    SetPathSame(t, p);
  }

  /** Two different ways to one object do not lie on one path. */
  lemma {:induction false} WaysDiffer(h: Heap, x: Cell, t: Tree, c: Ref, p: Path, q: Path)
    requires Represents(h, x, t) && Find(h, x, p) == Some(Sub(c)) && Find(h, x, q) == Some(Sub(c)) && p <= q
    ensures p == q
  {
    FindIsLookup(h, x, t, p);
    FindFurther(h, x, p, q[|p|..]);
    assert p + q[|p|..] == q;
    NoCircle(h, Sub(c), Lookup(t, p).value, q[|p|..]);
  }

  /** Two ways to one object lead to one tree. */
  lemma {:induction false} SameTrees(h: Heap, x: Cell, t: Tree, c: Ref, p: Path, q: Path)
    requires Represents(h, x, t) && Find(h, x, p) == Some(Sub(c)) && Find(h, x, q) == Some(Sub(c))
    ensures Lookup(t, p).Some? && Lookup(t, p) == Lookup(t, q) && Represents(h, Sub(c), Lookup(t, p).value)
  {
    FindIsLookup(h, x, t, p);
    FindIsLookup(h, x, t, q);
    RepresentsOne(h, Sub(c), Lookup(t, p).value, Lookup(t, q).value);
  }

  lemma {:induction false} WaysBranch(h: Heap, x: Cell, t: Tree, c: Ref, path: Path, j: nat, q: Path)
    requires Represents(h, x, t) && j < |path| && q != path[..j]
    requires Find(h, x, path[..j]) == Some(Sub(c)) && Find(h, x, q) == Some(Sub(c))
    ensures !(q <= path) && !(path <= q)
  {
    if q <= path[..j] {
      WaysDiffer(h, x, t, c, q, path[..j]);
    } else if path[..j] <= q {
      WaysDiffer(h, x, t, c, path[..j], q);
    }
  }

  /** A tree write that keeps a dictionary on its path the same as one beside it changes nothing. */
  lemma {:induction false} SameBeside(t: Tree, path: Path, j: nat, tv: Tree, q: Path)
    requires j < |path| && Incomparable(path, q)
    requires Lookup(t, path[..j]).Some? && Lookup(t, path[..j]) == Lookup(t, q)
    requires Lookup(SetPath(t, path, tv), path[..j]) == Lookup(SetPath(t, path, tv), q)
    ensures SetPath(t, path, tv) == t
  {
    SetPathLookup(t, path, tv, q);
    SetPathLookup(t, path, tv, path[..j]);
    assert path[..j] + path[j..] == path;
    SameOnTheWay(t, path[..j], path[j..], tv);
  }

  /** If the object is reached by another path too, the write shows there as well. */
  lemma {:induction false} ShowsElsewhere(h: Heap, after: Heap, r: Ref, c: Ref, t: Tree, path: Path, j: nat,
      tv: Tree, q: Path)
    requires Represents(h, Sub(r), t) && SameBut(h, after, c) && j < |path|
    requires Find(h, Sub(r), path[..j]) == Some(Sub(c)) && Find(h, Sub(r), q) == Some(Sub(c)) && q != path[..j]
    requires Represents(after, Sub(r), SetPath(t, path, tv))
    ensures SetPath(t, path, tv) == t
  {
    var p, u := path[..j], SetPath(t, path, tv);
    WayUnchanged(h, after, Sub(r), t, c, p);
    WayUnchanged(h, after, Sub(r), t, c, q);
    SameTrees(h, Sub(r), t, c, p, q);
    SameTrees(after, Sub(r), u, c, p, q);
    WaysBranch(h, Sub(r), t, c, path, j, q);
    SameBeside(t, path, j, tv, q);
  }

  /** What the write is to put under the last key it follows in the tree. */
  ghost predicate CellSetsEntry(h: Heap, r: Ref, path: Path, cell: Cell, t: Tree, tv: Tree)
    requires Closed(h) && r in h.dicts && path != [] && CellIn(h, cell)
  {
    var j := Depth(h, r, path);
    && Lookup(t, path[..j]).Some? && Lookup(t, path[..j]).value.Node?
    && (var children := Lookup(t, path[..j]).value.children;
        var child := if path[j] in children then children[path[j]] else EMPTY;
        Represents(Written(h, r, path, cell), NewCell(h, r, path, cell), SetPath(child, path[j + 1..], tv)))
  }

  lemma {:induction false} CellSetsEntryBelow(h: Heap, r: Ref, path: Path, cell: Cell, t: Tree, tv: Tree)
    requires Closed(h) && r in h.dicts && |path| > 1 && CellIn(h, cell) && HasChild(h, r, path[0])
    requires Represents(h, Sub(r), t) && h.dicts[r][path[0]].ref in h.dicts
    requires CellSetsEntry(h, h.dicts[r][path[0]].ref, path[1..], cell, t.children[path[0]], tv)
    ensures CellSetsEntry(h, r, path, cell, t, tv)
  {
    PathTail(path, Depth(h, r, path));
  }

  /** What the write puts into the object stands for the rest of the tree write. */
  lemma {:induction false} NewCellRepresents(h: Heap, r: Ref, path: Path, cell: Cell, t: Tree, tv: Tree)
    requires Closed(h) && r in h.dicts && path != [] && CellIn(h, cell)
    requires Represents(h, Sub(r), t) && Represents(h, cell, tv) && Avoids(h, cell, Container(h, r, path))
    ensures CellSetsEntry(h, r, path, cell, t, tv)
    decreases |path|
  {
    var k, after := path[0], Written(h, r, path, cell);
    if |path| == 1 {
      WriteChangesOneEntry(h, r, path, cell);
      Untouched(h, after, cell, tv, r);
      assert path[1..] == [];
    } else if HasChild(h, r, k) {
      ClosedSteps(h, r, k, cell);
      NewCellRepresents(h, h.dicts[r][k].ref, path[1..], cell, t.children[k], tv);
      CellSetsEntryBelow(h, r, path, cell, t, tv);
    } else {
      NewDictionaries(h, r, path, cell, tv);
      if k in t.children {
        SetThroughLeaf(t.children[k].value, path[1..], tv);
      }
    }
  }

  /** An object changed to stand for the same tree changes nothing for any other. */
  lemma {:induction false} SameTreeKept(h: Heap, after: Heap, x: Cell, t: Tree, c: Ref, k: string, n: Cell, u: Tree)
    requires Represents(h, x, t) && SameBut(h, after, c) && c in h.dicts
    requires after.dicts[c] == h.dicts[c][k := n]
    requires Represents(h, Sub(c), u) && k in u.children && Represents(after, n, u.children[k])
    ensures Represents(after, x, t)
    decreases t
  {
    if x.Sub? {
      if x.ref == c {
        RepresentsOne(h, x, t, u);
      }
      forall l | l in t.children
        ensures l in after.dicts[x.ref] && Represents(after, after.dicts[x.ref][l], t.children[l])
      {
        if x.ref != c || l != k {
          SameTreeKept(h, after, h.dicts[x.ref][l], t.children[l], c, k, n, u);
        }
      }
    }
  }

  lemma {:induction false} EntryKept(t: Tree, path: Path, j: nat, tv: Tree)
    requires j < |path| && SetPath(t, path, tv) == t
    requires Lookup(t, path[..j]).Some? && Lookup(t, path[..j]).value.Node?
    ensures
      var children := Lookup(t, path[..j]).value.children;
      path[j] in children && SetPath(children[path[j]], path[j + 1..], tv) == children[path[j]]
  {
    var u := Lookup(t, path[..j]).value;
    SetPathLookup(t, path, tv, path[..j]);
    SetBelow(u, path[j..], tv);
    assert path[j..][0] == path[j] && path[j..][1..] == path[j + 1..];
  }

  /** A write that leaves the tree as it is leaves the objects standing for it. */
  lemma {:induction false} UnchangedTree(h: Heap, r: Ref, path: Path, cell: Cell, t: Tree, tv: Tree)
    requires Closed(h) && r in h.dicts && path != [] && CellIn(h, cell)
    requires Represents(h, Sub(r), t) && Represents(h, cell, tv) && Avoids(h, cell, Container(h, r, path))
    requires SetPath(t, path, tv) == t
    ensures Represents(Written(h, r, path, cell), Sub(r), t)
  {
    var j, c, after := Depth(h, r, path), Container(h, r, path), Written(h, r, path, cell);
    var k := path[j];
    WriteChangesOneEntry(h, r, path, cell);
    ContainerAt(h, r, path);
    FindIsLookup(h, Sub(r), t, path[..j]);
    NewCellRepresents(h, r, path, cell, t, tv);
    EntryKept(t, path, j, tv);
    SameTreeKept(h, after, Sub(r), t, c, k, NewCell(h, r, path, cell), Lookup(t, path[..j]).value);
  }

  /** No other path leads to the object the write changes. */
  ghost predicate OneWay(h: Heap, r: Ref, path: Path)
    requires Closed(h) && r in h.dicts && path != []
  {
    Sole(h, Sub(r), Container(h, r, path), path[..Depth(h, r, path)])
  }

  /**
    A write through shared objects is the tree write exactly when no other path leads
    to the object it changes, or when the tree write changes nothing anyway.
   */
  lemma {:induction false} WriteExactly(h: Heap, r: Ref, path: Path, cell: Cell, t: Tree, tv: Tree)
    requires Closed(h) && r in h.dicts && path != [] && CellIn(h, cell)
    requires Represents(h, Sub(r), t) && Represents(h, cell, tv) && Avoids(h, cell, Container(h, r, path))
    ensures Represents(Written(h, r, path, cell), Sub(r), SetPath(t, path, tv)) <==>
            OneWay(h, r, path) || SetPath(t, path, tv) == t
  {
    var j, c, after := Depth(h, r, path), Container(h, r, path), Written(h, r, path, cell);
    if OneWay(h, r, path) {
      WriteIsTreeWrite(h, r, path, cell, t, tv);
    } else if SetPath(t, path, tv) == t {
      UnchangedTree(h, r, path, cell, t, tv);
    } else if Represents(after, Sub(r), SetPath(t, path, tv)) {
      var q :| Find(h, Sub(r), q) == Some(Sub(c)) && q != path[..j];
      WriteChangesOneEntry(h, r, path, cell);
      ContainerAt(h, r, path);
      ShowsElsewhere(h, after, r, c, t, path, j, tv, q);
    }
  }

  // ----- Parsed values --------------------------------------------------------

  function HeapOf(g: Graph): Heap {
    Heap(map i: nat | i < |g.dicts| :: g.dicts[i], |g.dicts|)
  }

  /** The value stands for this tree: it holds no dictionary in itself. */
  ghost predicate GraphIs(g: Graph, t: Tree) {
    Represents(HeapOf(g), g.root, t)
  }

  /** The object `r` of `own` is in `after` too, moved by `base`. */
  ghost predicate Copied(own: Heap, after: Heap, base: nat, r: Ref)
    requires r in own.dicts
  {
    var s := r + base;
    s in after.dicts && after.dicts[s] == ShiftedEntries(own.dicts[r], base)
  }

  ghost predicate Copies(own: Heap, after: Heap, base: nat) {
    forall r :: r in own.dicts ==> Copied(own, after, base, r)
  }

  lemma LoadedCopies(h: Heap, g: Graph)
    requires Closed(h)
    ensures Copies(HeapOf(g), Loaded(h, g), h.next)
  {
    forall r | r in HeapOf(g).dicts ensures Copied(HeapOf(g), Loaded(h, g), h.next, r) {
      LoadedCopy(h, g, r);
    }
  }

  lemma LoadedCopy(h: Heap, g: Graph, r: Ref)
    requires Closed(h) && r in HeapOf(g).dicts
    ensures Copied(HeapOf(g), Loaded(h, g), h.next, r)
  {
    var s := r + h.next;
    assert LoadedEntries(g, h.next, s) == ShiftedEntries(g.dicts[r], h.next);
  }

  lemma CopyEntry(own: Heap, after: Heap, base: nat, r: Ref, k: string)
    requires Copies(own, after, base) && r in own.dicts && k in own.dicts[r]
    ensures
      var s := r + base;
      s in after.dicts && k in after.dicts[s] && after.dicts[s][k] == Shifted(own.dicts[r][k], base)
  {
    assert Copied(own, after, base, r);
  }

  lemma {:induction false} CopyRepresents(own: Heap, after: Heap, base: nat, x: Cell, t: Tree)
    requires Copies(own, after, base) && Represents(own, x, t)
    ensures Represents(after, Shifted(x, base), t)
    decreases t
  {
    if x.Sub? {
      forall k | k in t.children ensures Represents(after, after.dicts[x.ref + base][k], t.children[k]) {
        CopyRepresents(own, after, base, own.dicts[x.ref][k], t.children[k]);
      }
    }
  }

  /** From a parsed value no object is reached that was there before. */
  lemma {:induction false} LoadedAvoids(h: Heap, g: Graph, x: Cell, q: Path)
    requires Closed(h) && (x.Sub? ==> h.next <= x.ref < h.next + |g.dicts|)
    ensures
      var found := Find(Loaded(h, g), x, q);
      found.Some? && found.value.Sub? ==> h.next <= found.value.ref < h.next + |g.dicts|
    decreases |q|
  {
    var after := Loaded(h, g);
    if q != [] && x.Sub? && q[0] in after.dicts[x.ref] {
      assert after.dicts[x.ref] == LoadedEntries(g, h.next, x.ref);
      assert RefsBelow(g.dicts[x.ref - h.next][q[0]], |g.dicts|);
      LoadedAvoids(h, g, after.dicts[x.ref][q[0]], q[1..]);
    }
  }

  lemma {:induction false} LoadedFind(h: Heap, g: Graph, x: Cell, q: Path)
    requires Closed(h) && CellIn(h, x)
    ensures Find(Loaded(h, g), x, q) == Find(h, x, q)
    decreases |q|
  {
    if q != [] && x.Sub? && q[0] in h.dicts[x.ref] {
      LoadedFind(h, g, h.dicts[x.ref][q[0]], q[1..]);
    }
  }

  lemma {:induction false} LoadedKeepsTree(h: Heap, g: Graph, x: Cell, t: Tree)
    requires Closed(h) && Represents(h, x, t)
    ensures Represents(Loaded(h, g), x, t)
    decreases t
  {
    if x.Sub? {
      forall k | k in t.children ensures Represents(Loaded(h, g), h.dicts[x.ref][k], t.children[k]) {
        LoadedKeepsTree(h, g, h.dicts[x.ref][k], t.children[k]);
      }
    }
  }

  lemma {:induction false} LoadedContainer(h: Heap, g: Graph, r: Ref, path: Path)
    requires Closed(h) && r in h.dicts && path != []
    ensures Container(Loaded(h, g), r, path) == Container(h, r, path) &&
        Depth(Loaded(h, g), r, path) == Depth(h, r, path)
    decreases |path|
  {
    ClosedSteps(h, r, path[0], Plain(Other(0)));
    if |path| > 1 && HasChild(h, r, path[0]) {
      LoadedContainer(h, g, h.dicts[r][path[0]].ref, path[1..]);
    }
  }

  /** One write of a parsed value is the tree write, exactly when there is one way to what it changes. */
  lemma {:induction false} OneWriteExactly(h: Heap, r: Ref, w: HeapWrite, t: Tree, tv: Tree)
    requires Closed(h) && r in h.dicts
    requires Represents(h, Sub(r), t) && GraphIs(w.value, tv)
    ensures Represents(OneWrite(h, r, w), Sub(r), SetPath(t, w.path, tv)) <==>
            OneWay(h, r, w.path) || SetPath(t, w.path, tv) == t
  {
    var loaded, cell := Loaded(h, w.value), Shifted(w.value.root, h.next);
    LoadedCopies(h, w.value);
    CopyRepresents(HeapOf(w.value), loaded, h.next, w.value.root, tv);
    LoadedKeepsTree(h, w.value, Sub(r), t);
    LoadedContainer(h, w.value, r, w.path);
    forall q { LoadedAvoids(h, w.value, cell, q); }
    forall q { LoadedFind(h, w.value, Sub(r), q); }
    assert Avoids(loaded, cell, Container(loaded, r, w.path));
    assert OneWay(loaded, r, w.path) <==> OneWay(h, r, w.path);
    WriteExactly(loaded, r, w.path, cell, t, tv);
  }

  // ----- Runs of writes -------------------------------------------------------

  ghost predicate IsTree(g: Graph) {
    exists t :: GraphIs(g, t)
  }

  ghost function TreeOf(g: Graph): (t: Tree)
    requires IsTree(g)
    ensures GraphIs(g, t)
  {
    var t :| GraphIs(g, t);
    t
  }

  /** No value holds a dictionary in itself. */
  ghost predicate AllTrees(writes: seq<HeapWrite>) {
    forall w :: w in writes ==> IsTree(w.value)
  }

  ghost function TreeWrite(w: HeapWrite): Write
    requires IsTree(w.value)
  {
    Write(w.path, TreeOf(w.value))
  }

  ghost function TreeWrites(writes: seq<HeapWrite>): (tree: seq<Write>)
    requires AllTrees(writes)
    ensures |tree| == |writes|
  {
    seq(|writes|, i requires 0 <= i < |writes| => assert writes[i] in writes; TreeWrite(writes[i]))
  }

  lemma TreeWritesSnoc(writes: seq<HeapWrite>, w: HeapWrite)
    requires AllTrees(writes) && IsTree(w.value)
    ensures AllTrees(writes + [w]) && TreeWrites(writes + [w]) == TreeWrites(writes) + [TreeWrite(w)]
  {
  }

  /** After the writes the object stands for what the tree writes make of `t`. */
  ghost predicate Faithful(h: Heap, r: Ref, t: Tree, writes: seq<HeapWrite>)
    requires Closed(h) && r in h.dicts && AllTrees(writes)
  {
    Represents(Applied(h, r, writes), Sub(r), Apply(t, TreeWrites(writes)))
  }

  /** After `writes`, writing `w` meets no shared object, or changes nothing. */
  ghost predicate Plainly(h: Heap, r: Ref, t: Tree, writes: seq<HeapWrite>, w: HeapWrite)
    requires Closed(h) && r in h.dicts && AllTrees(writes) && IsTree(w.value)
  {
    var now := Apply(t, TreeWrites(writes));
    OneWay(Applied(h, r, writes), r, w.path) || SetPath(now, w.path, TreeOf(w.value)) == now
  }

  lemma FaithfulStep(h: Heap, r: Ref, t: Tree, writes: seq<HeapWrite>, w: HeapWrite)
    requires Closed(h) && r in h.dicts && AllTrees(writes) && IsTree(w.value)
    requires Faithful(h, r, t, writes)
    ensures AllTrees(writes + [w])
    ensures Faithful(h, r, t, writes + [w]) <==> Plainly(h, r, t, writes, w)
  {
    AppliedSnoc(h, r, writes, w);
    TreeWritesSnoc(writes, w);
    ApplySnoc(t, TreeWrites(writes), TreeWrite(w));
    OneWriteExactly(Applied(h, r, writes), r, w, Apply(t, TreeWrites(writes)), TreeOf(w.value));
  }

  lemma Fine(writes: seq<HeapWrite>, k: nat)
    requires AllTrees(writes) && k <= |writes|
    ensures AllTrees(writes[..k])
    ensures k < |writes| ==> IsTree(writes[k].value)
  {
    assert forall w :: w in writes[..k] ==> w in writes;
    assert k < |writes| ==> writes[k] in writes;
  }

  /** At every moment of the run. */
  ghost predicate AlwaysFaithful(h: Heap, r: Ref, t: Tree, writes: seq<HeapWrite>)
    requires Closed(h) && r in h.dicts && AllTrees(writes)
  {
    Faithful(h, r, t, writes) &&
    (writes == [] || (Fine(writes, |writes| - 1); AlwaysFaithful(h, r, t, writes[..|writes| - 1])))
  }

  /** Every write of the run, when it is made. */
  ghost predicate AllPlainly(h: Heap, r: Ref, t: Tree, writes: seq<HeapWrite>)
    requires Closed(h) && r in h.dicts && AllTrees(writes)
  {
    writes == [] ||
    (Fine(writes, |writes| - 1);
     AllPlainly(h, r, t, writes[..|writes| - 1]) && Plainly(h, r, t, writes[..|writes| - 1], writes[|writes| - 1]))
  }

  /**
    Through a whole run, the objects stand at every moment for what the tree writes
    make, exactly when no write that changes something goes through a shared object.
   */
  lemma {:induction false} RunExactly(h: Heap, r: Ref, t: Tree, writes: seq<HeapWrite>)
    requires Closed(h) && r in h.dicts && AllTrees(writes) && Represents(h, Sub(r), t)
    ensures AlwaysFaithful(h, r, t, writes) <==> AllPlainly(h, r, t, writes)
  {
    if writes == [] {
      assert TreeWrites([]) == [];
    } else {
      var init, w := writes[..|writes| - 1], writes[|writes| - 1];
      Fine(writes, |writes| - 1);
      assert writes == init + [w];
      RunExactly(h, r, t, init);
      if Faithful(h, r, t, init) {
        FaithfulStep(h, r, t, init, w);
      }
    }
  }

  // ----- A value that shares a dictionary -------------------------------------

  /** One dictionary under two keys, as an anchor and its alias give. */
  function Anchored(a: string, b: string, k: string, s: Scalar): Graph {
    Graph([map[a := Sub(1), b := Sub(1)], map[k := Plain(s)]], Sub(0))
  }

  function AnchoredAt(p: string, a: string, b: string, k: string, s: Scalar): HeapWrite {
    HeapWrite([p], Anchored(a, b, k, s))
  }

  /**
    A value with one dictionary under `a` and `b`, then a write below `b`, then one
    below `a`: the last one is seen below `b`, where the tree write put another value.
   */
  lemma SharedValueShows(p: string, a: string, b: string, k: string, s: Scalar, u: Scalar, v: Scalar)
    requires a != b && u != v
    ensures Closed(ROOT)
    ensures
      var value := OneWrite(ROOT, 0, AnchoredAt(p, a, b, k, s));
      var first := OneWrite(value, 0, ScalarWrite([p, b, k], u));
      var second := OneWrite(first, 0, ScalarWrite([p, a, k], v));
      Find(first, Sub(0), [p, b, k]) == Some(Plain(u)) && Find(second, Sub(0), [p, b, k]) == Some(Plain(v))
  {
    AnchoredHeap(p, a, b, k, s);
    ThroughBoth(OneWrite(ROOT, 0, AnchoredAt(p, a, b, k, s)), p, a, b, k, u, v);
  }

  lemma ThroughBoth(h: Heap, p: string, a: string, b: string, k: string, u: Scalar, v: Scalar)
    requires AnchorShape(h, p, a, b)
    ensures
      var first := OneWrite(h, 0, ScalarWrite([p, b, k], u));
      var second := OneWrite(first, 0, ScalarWrite([p, a, k], v));
      Find(first, Sub(0), [p, b, k]) == Some(Plain(u)) && Find(second, Sub(0), [p, b, k]) == Some(Plain(v))
  {
    ScalarBelow(h, p, b, k, u);
    var first := OneWrite(h, 0, ScalarWrite([p, b, k], u));
    FindThree(first, p, b, k);
    ScalarBelow(first, p, a, k, v);
    FindThree(OneWrite(first, 0, ScalarWrite([p, a, k], v)), p, b, k);
  }

  /** Object 1 under `p`, object 2 under both `a` and `b` of it. */
  ghost predicate AnchorShape(h: Heap, p: string, a: string, b: string) {
    && Closed(h) && {0, 1, 2} <= h.dicts.Keys
    && p in h.dicts[0] && h.dicts[0][p] == Sub(1)
    && a in h.dicts[1] && h.dicts[1][a] == Sub(2) && b in h.dicts[1] && h.dicts[1][b] == Sub(2)
  }

  lemma AnchoredHeap(p: string, a: string, b: string, k: string, s: Scalar)
    requires Closed(ROOT)
    ensures AnchorShape(OneWrite(ROOT, 0, AnchoredAt(p, a, b, k, s)), p, a, b)
  {
    LoadedAnchored(a, b, k, s);
    EntryWritten(Loaded(ROOT, Anchored(a, b, k, s)), p, a, b);
  }

  lemma LoadedAnchored(a: string, b: string, k: string, s: Scalar)
    requires Closed(ROOT)
    ensures
      var loaded := Loaded(ROOT, Anchored(a, b, k, s));
      {0, 1, 2} <= loaded.dicts.Keys && loaded.dicts[1] == map[a := Sub(2), b := Sub(2)]
  {
    var g := Anchored(a, b, k, s);
    assert LoadedEntries(g, 1, 1) == map[a := Sub(2), b := Sub(2)];
  }

  lemma {:induction false} EntryWritten(h: Heap, p: string, a: string, b: string)
    requires Closed(h) && {0, 1, 2} <= h.dicts.Keys && h.dicts[1] == map[a := Sub(2), b := Sub(2)]
    ensures AnchorShape(Written(h, 0, [p], Sub(1)), p, a, b)
  {
    assert Written(h, 0, [p], Sub(1)) == Stored(h, 0, p, Sub(1));
  }

  lemma ScalarBelow(h: Heap, p: string, c: string, k: string, s: Scalar)
    requires Closed(h) && {0, 1, 2} <= h.dicts.Keys && p in h.dicts[0] && h.dicts[0][p] == Sub(1)
    requires c in h.dicts[1] && h.dicts[1][c] == Sub(2)
    ensures
      var after := OneWrite(h, 0, ScalarWrite([p, c, k], s));
      && after.dicts[0] == h.dicts[0] && 1 in after.dicts && after.dicts[1] == h.dicts[1]
      && 2 in after.dicts && after.dicts[2] == h.dicts[2][k := Plain(s)]
  {
    var loaded := Loaded(h, Graph([], Plain(s)));
    assert loaded.dicts == h.dicts;
    assert [p, c, k][1..] == [c, k] && [c, k][1..] == [k];
    assert Written(loaded, 0, [p, c, k], Plain(s)) == Written(loaded, 1, [c, k], Plain(s));
    assert Written(loaded, 1, [c, k], Plain(s)) == Written(loaded, 2, [k], Plain(s));
  }

  lemma {:induction false} FindThree(h: Heap, p: string, b: string, k: string)
    requires {0, 1, 2} <= h.dicts.Keys && p in h.dicts[0] && h.dicts[0][p] == Sub(1)
    requires b in h.dicts[1] && h.dicts[1][b] == Sub(2) && k in h.dicts[2]
    ensures Find(h, Sub(0), [p, b, k]) == Some(h.dicts[2][k])
  {
    assert [p, b, k][1..] == [b, k] && [b, k][1..] == [k] && [k][1..] == [];
    assert Find(h, Sub(2), [k]) == Some(h.dicts[2][k]);
    assert Find(h, Sub(1), [b, k]) == Find(h, Sub(2), [k]);
  }
}
