/**
  Layered settings: the recursive merge of configuration trees and the path writes
  that environment variables make, with the laws of what a lookup then finds.
 */
module ConfigTree {
  import opened Prelude
  import opened Text

  /** Anything in a configuration that is not a dictionary. */
  datatype Scalar = Text(text: string) | Other(code: int)

  datatype Tree = Leaf(value: Scalar) | Node(children: Dict)

  type Dict = map<string, Tree>

  type Path = seq<string>

  const EMPTY: Tree := Node(map[])

  // ----- Merge ----------------------------------------------------------------

  /** Dictionaries merge key by key; anything else is replaced by the incoming value. */
  function Merge(base: Tree, incoming: Tree): Tree
    decreases incoming
  {
    if base.Node? && incoming.Node? then
      Node(map k | k in base.children.Keys + incoming.children.Keys ::
             if k !in incoming.children then base.children[k]
             else if k in base.children then Merge(base.children[k], incoming.children[k])
             else incoming.children[k])
    else incoming
  }

  /** `_deep_merge`: a copy of `base`, updated for every item of `incoming`. */
  method DeepMerge(base: Dict, incoming: Dict) returns (result: Dict)
    ensures Node(result) == Merge(Node(base), Node(incoming))
    decreases Node(incoming)
  {
    result := base;
    var todo := incoming.Keys;
    while todo != {}
      invariant todo <= incoming.Keys
      invariant result.Keys == base.Keys + (incoming.Keys - todo)
      invariant forall k :: k in result ==>
        result[k] == if k in incoming && k !in todo then Merge(Node(base), Node(incoming)).children[k] else base[k]
      decreases todo
    {
      var key :| key in todo;
      var value := incoming[key];
      if key in result && result[key].Node? && value.Node? {
        var merged := DeepMerge(result[key].children, value.children);
        result := result[key := Node(merged)];
      } else {
        result := result[key := value];
      }
      todo := todo - {key};
    }
  }

  /** What a path leads to; None when a key is missing or the path runs through a leaf. */
  function Lookup(t: Tree, path: Path): Option<Tree> {
    if path == [] then Some(t)
    else if t.Node? && path[0] in t.children then Lookup(t.children[path[0]], path[1..])
    else None
  }

  /** A leaf of `t` lies strictly above the end of the path. */
  predicate Cuts(t: Tree, path: Path) {
    path != [] && (t.Leaf? || (path[0] in t.children && Cuts(t.children[path[0]], path[1..])))
  }

  /**
    A leaf of the merged tree is a leaf of `incoming`, or a leaf of `base` at a path
    that `incoming` neither covers nor cuts; and all of those survive.
   */
  lemma {:induction false} LeafLaw(base: Tree, incoming: Tree, path: Path, value: Scalar)
    ensures Lookup(Merge(base, incoming), path) == Some(Leaf(value)) <==>
            || Lookup(incoming, path) == Some(Leaf(value))
            || (Lookup(base, path) == Some(Leaf(value)) && Lookup(incoming, path) == None && !Cuts(incoming, path))
    decreases |path|
  {
    if path != [] && base.Node? && incoming.Node? {
      var k := path[0];
      if k in base.children && k in incoming.children {
        LeafLaw(base.children[k], incoming.children[k], path[1..], value);
      }
    }
  }

  /** A dictionary is found in the merged tree exactly where one of the trees, uncontradicted, has one. */
  lemma {:induction false} NodeLaw(base: Tree, incoming: Tree, path: Path)
    ensures
      var found := Lookup(Merge(base, incoming), path);
      var (ofBase, ofIncoming) := (Lookup(base, path), Lookup(incoming, path));
      found.Some? && found.value.Node? <==>
      || (ofIncoming.Some? && ofIncoming.value.Node?)
      || (ofBase.Some? && ofBase.value.Node? && ofIncoming == None && !Cuts(incoming, path))
    decreases |path|
  {
    if path != [] && base.Node? && incoming.Node? {
      var k := path[0];
      if k in base.children && k in incoming.children {
        NodeLaw(base.children[k], incoming.children[k], path[1..]);
      }
    }
  }

  /** Every key of `a` is a key of `c`, recursively where both are dictionaries. */
  ghost predicate Absorbed(a: Tree, c: Tree)
    decreases a
  {
    a.Node? && c.Node? ==>
      forall k :: k in a.children ==> k in c.children && Absorbed(a.children[k], c.children[k])
  }

  lemma {:induction false} AbsorbedExactly(a: Tree, c: Tree)
    ensures Merge(a, c) == c <==> Absorbed(a, c)
    decreases c
  {
    if a.Node? && c.Node? {
      forall k | k in a.children && k in c.children
        ensures Merge(a.children[k], c.children[k]) == c.children[k] <==> Absorbed(a.children[k], c.children[k])
      {
        AbsorbedExactly(a.children[k], c.children[k]);
      }
      var merged := Merge(a, c).children;
      if Absorbed(a, c) {
        assert merged.Keys == c.children.Keys;
        assert merged == c.children;
      } else {
        var k :| k in a.children && !(k in c.children && Absorbed(a.children[k], c.children[k]));
        assert k in merged;
      }
    }
  }

  /** A leaf in the middle layer hides a dictionary that the last layer would bring back. */
  ghost predicate Conflict(a: Tree, b: Tree, c: Tree)
    decreases a
  {
    && a.Node? && c.Node?
    && if b.Leaf? then !Absorbed(a, c)
       else exists k :: k in a.children && k in b.children && k in c.children
                        && Conflict(a.children[k], b.children[k], c.children[k])
  }

  /** Merging three layers is associative exactly when there is no such conflict. */
  lemma {:induction false} AssociativeExactly(a: Tree, b: Tree, c: Tree)
    ensures Merge(Merge(a, b), c) == Merge(a, Merge(b, c)) <==> !Conflict(a, b, c)
    decreases c
  {
    if a.Node? && c.Node? {
      if b.Leaf? {
        AbsorbedExactly(a, c);
      } else {
        var left, right := Merge(Merge(a, b), c).children, Merge(a, Merge(b, c)).children;
        assert left.Keys == right.Keys;
        forall k | k in a.children && k in b.children && k in c.children
          ensures left[k] == right[k] <==> !Conflict(a.children[k], b.children[k], c.children[k])
        {
          AssociativeExactly(a.children[k], b.children[k], c.children[k]);
        }
        assert forall k :: k in left && !(k in a.children && k in b.children && k in c.children) ==>
            left[k] == right[k];
        if Conflict(a, b, c) {
          var k :| k in a.children && k in b.children && k in c.children
                   && Conflict(a.children[k], b.children[k], c.children[k]);
          assert left[k] != right[k];
        } else {
          assert left == right;
        }
      }
    }
  }

  /** Association does matter in general. */
  lemma AssociationMatters(x: string, p: string, q: string, v: Scalar)
    requires p != q
    ensures
      var (a, b, c) := (Node(map[x := Node(map[p := Leaf(v)])]), Node(map[x := Leaf(v)]),
                        Node(map[x := Node(map[q := Leaf(v)])]));
      Merge(Merge(a, b), c) != Merge(a, Merge(b, c))
  {
    var (a, b, c) := (Node(map[x := Node(map[p := Leaf(v)])]), Node(map[x := Leaf(v)]),
                      Node(map[x := Node(map[q := Leaf(v)])]));
    assert p in a.children[x].children && p !in c.children[x].children;
    assert Conflict(a.children[x], b.children[x], c.children[x]);
    assert Conflict(a, b, c);
    AssociativeExactly(a, b, c);
  }

  // ----- Layers ---------------------------------------------------------------

  /** File, environment, overrides, in increasing precedence; empty overrides are skipped. */
  function Layered(file: Dict, environment: Dict, overrides: Option<Dict>): Tree {
    var data := Merge(Node(file), Node(environment));
    if overrides.Some? && overrides.value != map[] then Merge(data, Node(overrides.value)) else data
  }

  /** `layer` says nothing about this path and does not cut it. */
  predicate Silent(layer: Tree, path: Path) {
    Lookup(layer, path) == None && !Cuts(layer, path)
  }

  lemma {:induction false} MergeEmpty(t: Tree)
    requires t.Node?
    ensures Merge(t, EMPTY) == t
  {
    assert Merge(t, EMPTY).children == t.children;
  }

  /** A leaf of the layered settings comes from the highest layer that is not silent about it. */
  lemma {:induction false} LayersByPrecedence(file: Dict, environment: Dict, overrides: Option<Dict>, path: Path,
      value: Scalar)
    requires path != []
    ensures
      var top := Node(if overrides.Some? then overrides.value else map[]);
      Lookup(Layered(file, environment, overrides), path) == Some(Leaf(value)) <==>
      || Lookup(top, path) == Some(Leaf(value))
      || (Silent(top, path) && Lookup(Node(environment), path) == Some(Leaf(value)))
      || (Silent(top, path) && Silent(Node(environment), path) && Lookup(Node(file), path) == Some(Leaf(value)))
  {
    var top := Node(if overrides.Some? then overrides.value else map[]);
    var data := Merge(Node(file), Node(environment));
    MergeEmpty(data);
    LeafLaw(Node(file), Node(environment), path, value);
    LeafLaw(data, top, path, value);
  }

  // ----- Path writes ----------------------------------------------------------

  /** Writes `value` at `path`; a missing or scalar step on the way becomes a dictionary. */
  function SetPath(t: Tree, path: Path, value: Tree): Tree
    decreases |path|
  {
    if path == [] then value
    else
      var children := if t.Node? then t.children else map[];
      var child := if path[0] in children then children[path[0]] else EMPTY;
      Node(children[path[0] := SetPath(child, path[1..], value)])
  }

  predicate Incomparable(p: Path, q: Path) {
    !(p <= q) && !(q <= p)
  }

  /** After a write, a lookup at or below the path sees the value, and one beside it sees what was there. */
  lemma {:induction false} SetPathLookup(t: Tree, path: Path, value: Tree, q: Path)
    ensures path <= q ==> Lookup(SetPath(t, path, value), q) == Lookup(value, q[|path|..])
    ensures Incomparable(path, q) ==> Lookup(SetPath(t, path, value), q) == Lookup(t, q)
    ensures q < path ==>
      Lookup(SetPath(t, path, value), q) ==
      Some(SetPath(if Lookup(t, q).Some? then Lookup(t, q).value else EMPTY, path[|q|..], value))
    decreases |path|
  {
    if path != [] && q != [] && path[0] == q[0] {
      var children := if t.Node? then t.children else map[];
      var child := if path[0] in children then children[path[0]] else EMPTY;
      SetPathLookup(child, path[1..], value, q[1..]);
      assert path <= q <==> path[1..] <= q[1..];
      assert q <= path <==> q[1..] <= path[1..];
      if path <= q {
        assert q[1..][|path[1..]|..] == q[|path|..];
      } else if q <= path {
        assert path[1..][|q[1..]|..] == path[|q|..];
      }
      if path[0] !in children {
        EmptyLookup(q[1..]);
      }
    }
  }

  lemma {:induction false} EmptyLookup(q: Path)
    ensures q != [] ==> Lookup(EMPTY, q) == None
  {
  }

  lemma IncomparableTails(p: Path, q: Path)
    requires Incomparable(p, q) && p[0] == q[0]
    ensures Incomparable(p[1..], q[1..])
  {
    assert p == [p[0]] + p[1..] && q == [q[0]] + q[1..];
  }

  /** Writes at incomparable paths commute. */
  lemma {:induction false} SetPathsCommute(t: Tree, p: Path, v: Tree, q: Path, w: Tree)
    requires Incomparable(p, q)
    ensures SetPath(SetPath(t, p, v), q, w) == SetPath(SetPath(t, q, w), p, v)
    decreases |p|
  {
    var children := if t.Node? then t.children else map[];
    if p[0] == q[0] {
      var child := if p[0] in children then children[p[0]] else EMPTY;
      IncomparableTails(p, q);
      SetPathsCommute(child, p[1..], v, q[1..], w);
      SetPathTwice(t, p, v, q, w);
      SetPathTwice(t, q, w, p, v);
    } else {
      SetPathsApart(t, p, v, q, w);
      SetPathsApart(t, q, w, p, v);
    }
  }

  /** Two writes under different first keys change the two children separately. */
  lemma {:induction false} SetPathsApart(t: Tree, p: Path, v: Tree, q: Path, w: Tree)
    requires p != [] && q != [] && p[0] != q[0]
    ensures
      var children := if t.Node? then t.children else map[];
      var atP := if p[0] in children then children[p[0]] else EMPTY;
      var atQ := if q[0] in children then children[q[0]] else EMPTY;
      SetPath(SetPath(t, p, v), q, w) ==
      Node(children[p[0] := SetPath(atP, p[1..], v)][q[0] := SetPath(atQ, q[1..], w)])
  {
  }

  /** Two writes under the same first key are two writes into its child. */
  lemma SetPathTwice(t: Tree, p: Path, v: Tree, q: Path, w: Tree)
    requires p != [] && q != [] && p[0] == q[0]
    ensures
      var children := if t.Node? then t.children else map[];
      var child := if p[0] in children then children[p[0]] else EMPTY;
      SetPath(SetPath(t, p, v), q, w) == Node(children[p[0] := SetPath(SetPath(child, p[1..], v), q[1..], w)])
  {
    var children := if t.Node? then t.children else map[];
    assert SetPath(SetPath(t, p, v), q, w).children.Keys == children.Keys + {p[0]};
  }

  datatype Write = Write(path: Path, value: Tree)

  function Apply(t: Tree, writes: seq<Write>): Tree
    decreases |writes|
  {
    if writes == [] then t else Apply(SetPath(t, writes[0].path, writes[0].value), writes[1..])
  }

  ghost predicate PairwiseIncomparable(writes: seq<Write>) {
    forall i, j :: 0 <= i < j < |writes| ==> Incomparable(writes[i].path, writes[j].path)
  }

  lemma {:induction false} BringToFront(t: Tree, writes: seq<Write>, j: nat)
    requires PairwiseIncomparable(writes) && j < |writes|
    ensures Apply(t, writes) == Apply(SetPath(t, writes[j].path, writes[j].value), writes[..j] + writes[j + 1..])
    decreases j
  {
    if j == 0 {
      assert writes[..0] + writes[1..] == writes[1..];
    } else {
      var w, x := writes[0], writes[j];
      var t1 := SetPath(t, w.path, w.value);
      BringToFront(t1, writes[1..], j - 1);
      SetPathsCommute(t, w.path, w.value, x.path, x.value);
      var rest := writes[..j] + writes[j + 1..];
      assert rest[1..] == writes[1..][..j - 1] + writes[1..][j..];
      assert rest[0] == w;
    }
  }

  lemma {:induction false} ApplyAppend(t: Tree, xs: seq<Write>, ys: seq<Write>)
    ensures Apply(t, xs + ys) == Apply(Apply(t, xs), ys)
    decreases |xs|
  {
    if xs == [] {
      assert xs + ys == ys;
    } else {
      assert (xs + ys)[1..] == xs[1..] + ys;
      ApplyAppend(SetPath(t, xs[0].path, xs[0].value), xs[1..], ys);
    }
  }

  lemma {:induction false} ApplySnoc(t: Tree, writes: seq<Write>, w: Write)
    ensures Apply(t, writes + [w]) == SetPath(Apply(t, writes), w.path, w.value)
  {
    ApplyAppend(t, writes, [w]);
    assert [w][1..] == [];
  }

  ghost predicate AllIncomparable(writes: seq<Write>, path: Path) {
    forall i :: 0 <= i < |writes| ==> Incomparable(writes[i].path, path)
  }

  lemma {:induction false} WritesBeside(t: Tree, writes: seq<Write>, path: Path)
    requires AllIncomparable(writes, path)
    ensures Lookup(Apply(t, writes), path) == Lookup(t, path)
    decreases |writes|
  {
    if writes != [] {
      SetPathLookup(t, writes[0].path, writes[0].value, path);
      WritesBeside(SetPath(t, writes[0].path, writes[0].value), writes[1..], path);
    }
  }

  /** A write is what a lookup finds, whatever came before, unless a later write is at, above or below its path. */
  lemma {:induction false} WrittenStays(t: Tree, earlier: seq<Write>, w: Write, later: seq<Write>)
    requires AllIncomparable(later, w.path)
    ensures Lookup(Apply(t, earlier + [w] + later), w.path) == Some(w.value)
  {
    ApplyAppend(t, earlier + [w], later);
    ApplyAppend(t, earlier, [w]);
    assert [w][1..] == [];
    SetPathLookup(Apply(t, earlier), w.path, w.value, w.path);
    WritesBeside(Apply(t, earlier + [w]), later, w.path);
  }

  /** Pairwise incomparable writes give the same tree in any order. */
  lemma {:induction false} WritesInAnyOrder(t: Tree, writes: seq<Write>, others: seq<Write>)
    requires PairwiseIncomparable(writes) && multiset(writes) == multiset(others)
    ensures Apply(t, writes) == Apply(t, others)
    decreases |others|
  {
    if others == [] {
      assert |multiset(writes)| == 0;
    } else {
      var x := others[0];
      var j := FirstOfOthers(writes, others);
      BringToFront(t, writes, j);
      StillIncomparable(writes, j);
      WritesInAnyOrder(SetPath(t, x.path, x.value), writes[..j] + writes[j + 1..], others[1..]);
    }
  }

  /** Where the first of the others is, and that without it the two are still the same. */
  lemma FirstOfOthers<T>(s: seq<T>, others: seq<T>) returns (j: nat)
    requires multiset(s) == multiset(others) && others != []
    ensures j < |s| && s[j] == others[0]
    ensures multiset(s[..j] + s[j + 1..]) == multiset(others[1..])
  {
    j := Where(s, others[0]);
    RemoveAt(s, j);
    RemoveAt(others, 0);
    assert others[..0] + others[1..] == others[1..];
  }

  lemma Where<T>(s: seq<T>, x: T) returns (j: nat)
    requires x in multiset(s)
    ensures j < |s| && s[j] == x
  {
    assert x in s;
    j :| 0 <= j < |s| && s[j] == x;
  }

  lemma RemoveAt<T>(s: seq<T>, j: nat)
    requires j < |s|
    ensures multiset(s[..j] + s[j + 1..]) == multiset(s) - multiset{s[j]}
  {
    assert s == s[..j] + [s[j]] + s[j + 1..];
  }

  lemma StillIncomparable(writes: seq<Write>, j: nat)
    requires PairwiseIncomparable(writes) && j < |writes|
    ensures PairwiseIncomparable(writes[..j] + writes[j + 1..])
  {
    var rest := writes[..j] + writes[j + 1..];
    assert forall i :: 0 <= i < |rest| ==> rest[i] == writes[if i < j then i else i + 1];
  }
}
