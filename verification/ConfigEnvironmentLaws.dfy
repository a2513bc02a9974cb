/**
  The environment layer: in which orders the variables may be listed, and what each of
  them sets, when their values may share dictionaries.
 */
module ConfigEnvironmentLaws {
  import opened Prelude
  import opened ConfigTree
  import opened ConfigHeap
  import opened ConfigHeapLaws
  import opened ConfigHeapRuns
  import opened ConfigEnvironment

  ghost predicate DistinctNames(environ: seq<Binding>) {
    forall i, j :: 0 <= i < j < |environ| ==> environ[i].name != environ[j].name
  }

  lemma {:induction false} ValueOfMember(environ: seq<Binding>, name: string)
    ensures
      var found := ValueOf(environ, name);
      if found.Some? then Binding(name, found.value) in environ
      else forall b :: b in environ ==> b.name != name
  {
    if environ != [] {
      ValueOfMember(environ[1..], name);
      assert environ[0] in environ;
    }
  }

  lemma {:induction false} SameValues(environ: seq<Binding>, others: seq<Binding>, name: string)
    requires DistinctNames(environ) && multiset(environ) == multiset(others)
    ensures ValueOf(environ, name) == ValueOf(others, name)
  {
    ValueOfMember(environ, name);
    ValueOfMember(others, name);
    assert forall b :: b in environ <==> b in multiset(environ);
    assert forall b :: b in others <==> b in multiset(others);
  }

  lemma {:induction false} SameAliasWrites(aliases: seq<Alias>, environ: seq<Binding>, others: seq<Binding>)
    requires DistinctNames(environ) && multiset(environ) == multiset(others)
    ensures AliasWrites(aliases, environ) == AliasWrites(aliases, others)
  {
    if aliases != [] {
      SameAliasWrites(aliases[..|aliases| - 1], environ, others);
      SameValues(environ, others, aliases[|aliases| - 1].name);
    }
  }

  /** No value holds a dictionary in itself. */
  ghost predicate ReadsTrees(read: Reader, environ: seq<Binding>) {
    forall b :: b in environ && read(b).Ok? && read(b).value.Some? ==> IsTree(read(b).value.value.value)
  }

  lemma {:induction false} NestedTrees(read: Reader, environ: seq<Binding>)
    requires ReadsTrees(read, environ) && NestedWrites(read, environ).Ok?
    ensures AllTrees(NestedWrites(read, environ).value)
  {
    if environ != [] {
      var init, last := environ[..|environ| - 1], environ[|environ| - 1];
      assert environ == init + [last];
      NestedTrees(read, init);
      assert last in environ;
    }
  }

  ghost function Contributor(read: Reader): Binding -> multiset<Write> {
    (b: Binding) =>
      if read(b).Ok? && read(b).value.Some? && IsTree(read(b).value.value.value)
      then multiset{TreeWrite(read(b).value.value)} else multiset{}
  }

  ghost function Contributions(share: Binding -> multiset<Write>, environ: seq<Binding>): multiset<Write> {
    if environ == [] then multiset{}
    else Contributions(share, environ[..|environ| - 1]) + share(environ[|environ| - 1])
  }

  lemma {:induction false} NestedWritesContribute(read: Reader, environ: seq<Binding>)
    requires ReadsTrees(read, environ) && NestedWrites(read, environ).Ok?
    ensures AllTrees(NestedWrites(read, environ).value)
    ensures multiset(TreeWrites(NestedWrites(read, environ).value)) == Contributions(Contributor(read), environ)
  {
    NestedTrees(read, environ);
    if environ != [] {
      var init, last := environ[..|environ| - 1], environ[|environ| - 1];
      assert environ == init + [last] && last in environ;
      NestedWritesContribute(read, init);
      var writes := NestedWrites(read, init).value;
      if read(last).value.Some? {
        TreeWritesSnoc(writes, read(last).value.value);
      } else {
        assert writes + [] == writes;
      }
    }
  }

  lemma {:induction false} NestedWritesOk(read: Reader, environ: seq<Binding>)
    ensures NestedWrites(read, environ).Ok? <==> forall b :: b in environ ==> read(b).Ok?
  {
    if environ != [] {
      var init, last := environ[..|environ| - 1], environ[|environ| - 1];
      assert environ == init + [last];
      NestedWritesOk(read, init);
      assert last in environ;
    }
  }

  lemma {:induction false} ContributionsRemove(share: Binding -> multiset<Write>, environ: seq<Binding>, j: nat)
    requires j < |environ|
    ensures Contributions(share, environ) == Contributions(share, environ[..j] + environ[j + 1..]) + share(environ[j])
  {
    var n := |environ| - 1;
    if j < n {
      var init, last := environ[..n], environ[n];
      var rest := init[..j] + init[j + 1..];
      ContributionsRemove(share, init, j);
      ContributionsSnoc(share, rest, last);
      SameWithout(environ, j);
      SumSwap(Contributions(share, rest), share(environ[j]), share(last));
    } else {
      assert environ[..j] + environ[j + 1..] == environ[..n];
    }
  }

  lemma SameWithout(environ: seq<Binding>, j: nat)
    requires j < |environ| - 1
    ensures
      var init, last := environ[..|environ| - 1], environ[|environ| - 1];
      init[j] == environ[j] && environ[..j] + environ[j + 1..] == init[..j] + init[j + 1..] + [last]
  {
  }

  lemma SumSwap(a: multiset<Write>, b: multiset<Write>, c: multiset<Write>)
    ensures a + b + c == a + c + b
  {
  }

  lemma {:induction false} ContributionsSnoc(share: Binding -> multiset<Write>, environ: seq<Binding>, b: Binding)
    ensures Contributions(share, environ + [b]) == Contributions(share, environ) + share(b)
  {
    assert (environ + [b])[..|environ|] == environ;
  }

  lemma TakeOut(share: Binding -> multiset<Write>, environ: seq<Binding>, b: Binding) returns (rest: seq<Binding>)
    requires b in multiset(environ)
    ensures multiset(rest) == multiset(environ) - multiset{b}
    ensures Contributions(share, environ) == Contributions(share, rest) + share(b)
  {
    var j :| 0 <= j < |environ| && environ[j] == b;
    rest := environ[..j] + environ[j + 1..];
    ContributionsRemove(share, environ, j);
    RemoveAt(environ, j);
  }

  lemma LastOut(environ: seq<Binding>)
    requires environ != []
    ensures multiset(environ[..|environ| - 1]) == multiset(environ) - multiset{environ[|environ| - 1]}
    ensures environ[|environ| - 1] in multiset(environ)
  {
    assert environ == environ[..|environ| - 1] + [environ[|environ| - 1]];
  }

  lemma {:induction false} SameContributions(share: Binding -> multiset<Write>, environ: seq<Binding>,
      others: seq<Binding>)
    requires multiset(environ) == multiset(others)
    ensures Contributions(share, environ) == Contributions(share, others)
    decreases |environ|
  {
    if environ == [] {
      assert |multiset(others)| == 0;
    } else {
      LastOut(environ);
      var rest := TakeOut(share, others, environ[|environ| - 1]);
      SameContributions(share, environ[..|environ| - 1], rest);
    }
  }

  // ----- The layer as a tree --------------------------------------------------

  lemma ScalarIsTree(path: NonEmptyPath, s: Scalar)
    ensures IsTree(ScalarWrite(path, s).value) && Unshared(ScalarWrite(path, s).value)
  {
    var g := ScalarWrite(path, s).value;
    assert GraphIs(g, Leaf(s));
    forall q ensures !Reaches(HeapOf(g), g.root, q) {
      if q != [] {
        assert Find(HeapOf(g), g.root, q) == None;
      }
    }
  }

  lemma {:induction false} AliasesPlain(aliases: seq<Alias>, environ: seq<Binding>, w: HeapWrite)
    requires w in AliasWrites(aliases, environ)
    ensures IsTree(w.value) && Unshared(w.value)
  {
    var alias := aliases[|aliases| - 1];
    var value := ValueOf(environ, alias.name);
    if value.Some? && w == ScalarWrite(alias.Path(), Text(value.value)) {
      ScalarIsTree(alias.Path(), Text(value.value));
    } else {
      AliasesPlain(aliases[..|aliases| - 1], environ, w);
    }
  }

  lemma {:induction false} LayerTrees(read: Reader, aliases: seq<Alias>, environ: seq<Binding>)
    requires EnvironmentWrites(read, aliases, environ).Ok? && ReadsTrees(read, environ)
    ensures AllTrees(AliasWrites(aliases, environ)) && AllTrees(NestedWrites(read, environ).value)
    ensures AllTrees(EnvironmentWrites(read, aliases, environ).value)
  {
    NestedTrees(read, environ);
    forall w | w in AliasWrites(aliases, environ) ensures IsTree(w.value) {
      AliasesPlain(aliases, environ, w);
    }
  }

  lemma EmptyLayer()
    ensures Closed(ROOT) && Represents(ROOT, Sub(0), EMPTY) && OneEach(ROOT, Sub(0))
  {
    forall q ensures Find(ROOT, Sub(0), q) == if q == [] then Some(Sub(0)) else None {
    }
  }

  /** Where no variable goes below a value that shares dictionaries, the layer is the tree its writes make. */
  lemma LayerIsTree(read: Reader, aliases: seq<Alias>, environ: seq<Binding>)
    requires EnvironmentWrites(read, aliases, environ).Ok? && ReadsTrees(read, environ)
    requires NoDescent(EnvironmentWrites(read, aliases, environ).value)
    ensures AllTrees(EnvironmentWrites(read, aliases, environ).value)
    ensures
      var writes := EnvironmentWrites(read, aliases, environ).value;
      Represents(EnvironmentHeap(read, aliases, environ), Sub(0), Apply(EMPTY, TreeWrites(writes)))
  {
    var writes := EnvironmentWrites(read, aliases, environ).value;
    LayerTrees(read, aliases, environ);
    EmptyLayer();
    RunWithoutDescentIsFaithful(ROOT, 0, EMPTY, writes);
    assert Faithful(ROOT, 0, EMPTY, writes);
  }

  lemma TreeWritesAppend(a: seq<HeapWrite>, b: seq<HeapWrite>)
    requires AllTrees(a) && AllTrees(b)
    ensures AllTrees(a + b) && TreeWrites(a + b) == TreeWrites(a) + TreeWrites(b)
  {
  }

  // ----- The order of the variables -------------------------------------------

  ghost predicate ApartPaths(writes: seq<HeapWrite>) {
    forall i, j :: 0 <= i < j < |writes| ==> Incomparable(writes[i].path, writes[j].path)
  }

  /** Plain names, then prefixed ones at separate paths: none goes below another's value. */
  lemma {:induction false} ApartIsNoDescent(aliases: seq<Alias>, environ: seq<Binding>, nested: seq<HeapWrite>)
    requires ApartPaths(nested)
    ensures NoDescent(AliasWrites(aliases, environ) + nested)
  {
    var first := AliasWrites(aliases, environ);
    var writes := first + nested;
    forall i, j | 0 <= i < j < |writes| && !Unshared(writes[i].value) ensures !(writes[i].path < writes[j].path) {
      if i < |first| {
        AliasesPlain(aliases, environ, first[i]);
      } else {
        assert Incomparable(nested[i - |first|].path, nested[j - |first|].path);
      }
    }
  }

  /** The order of pairwise incomparable writes does not matter to that either. */
  lemma {:induction false} IncomparableInAnyOrder(writes: seq<Write>, others: seq<Write>)
    requires PairwiseIncomparable(writes) && multiset(writes) == multiset(others)
    ensures PairwiseIncomparable(others)
    decreases |others|
  {
    if others != [] {
      var j := FirstOfOthers(writes, others);
      var rest := writes[..j] + writes[j + 1..];
      StillIncomparable(writes, j);
      IncomparableInAnyOrder(rest, others[1..]);
      forall k | 1 <= k < |others| ensures Incomparable(others[0].path, others[k].path) {
        assert others[k] == others[1..][k - 1] && others[k] in multiset(others[1..]);
        var m := Where(rest, others[k]);
        assert rest[m] == writes[if m < j then m else m + 1];
      }
      FirstApart(others);
    }
  }

  lemma FirstApart(writes: seq<Write>)
    requires writes != [] && PairwiseIncomparable(writes[1..])
    requires forall k :: 1 <= k < |writes| ==> Incomparable(writes[0].path, writes[k].path)
    ensures PairwiseIncomparable(writes)
  {
    forall i, j | 0 <= i < j < |writes| ensures Incomparable(writes[i].path, writes[j].path) {
      if i > 0 {
        assert writes[i] == writes[1..][i - 1] && writes[j] == writes[1..][j - 1];
      }
    }
  }

  lemma ApartTrees(writes: seq<HeapWrite>)
    requires AllTrees(writes)
    ensures PairwiseIncomparable(TreeWrites(writes)) <==> ApartPaths(writes)
  {
    assert forall i :: 0 <= i < |writes| ==> TreeWrites(writes)[i].path == writes[i].path;
  }

  /**
    Listing the variables in another order gives the same layer, as long as no
    prefixed name addresses a path at or above that of another.
   */
  lemma {:induction false} EnvironmentOrderFree(read: Reader, aliases: seq<Alias>, environ: seq<Binding>,
      others: seq<Binding>)
    requires DistinctNames(environ) && multiset(environ) == multiset(others) && ReadsTrees(read, environ)
    requires NestedWrites(read, environ).Ok? ==> ApartPaths(NestedWrites(read, environ).value)
    ensures EnvironmentWrites(read, aliases, environ).Ok? <==> EnvironmentWrites(read, aliases, others).Ok?
    ensures EnvironmentWrites(read, aliases, environ).Ok? ==>
      exists t ::
        && Represents(EnvironmentHeap(read, aliases, environ), Sub(0), t)
        && Represents(EnvironmentHeap(read, aliases, others), Sub(0), t)
  {
    assert forall b :: b in environ <==> b in multiset(environ);
    assert forall b :: b in others <==> b in multiset(others);
    NestedWritesOk(read, environ);
    NestedWritesOk(read, others);
    if EnvironmentWrites(read, aliases, environ).Ok? {
      var a, b := NestedWrites(read, environ).value, NestedWrites(read, others).value;
      SameAliasWrites(aliases, environ, others);
      NestedWritesContribute(read, environ);
      NestedWritesContribute(read, others);
      SameContributions(Contributor(read), environ, others);
      ApartTrees(a);
      ApartTrees(b);
      IncomparableInAnyOrder(TreeWrites(a), TreeWrites(b));
      ApartIsNoDescent(aliases, environ, a);
      ApartIsNoDescent(aliases, others, b);
      LayerIsTree(read, aliases, environ);
      LayerIsTree(read, aliases, others);
      SameLayerTree(AliasWrites(aliases, environ), a, b);
    }
  }

  lemma SameLayerTree(first: seq<HeapWrite>, a: seq<HeapWrite>, b: seq<HeapWrite>)
    requires AllTrees(a) && AllTrees(b) && AllTrees(first + a) && AllTrees(first + b)
    requires PairwiseIncomparable(TreeWrites(a)) && multiset(TreeWrites(a)) == multiset(TreeWrites(b))
    ensures Apply(EMPTY, TreeWrites(first + a)) == Apply(EMPTY, TreeWrites(first + b))
  {
    assert forall w :: w in first ==> w in first + a;
    TreeWritesAppend(first, a);
    TreeWritesAppend(first, b);
    ApplyAppend(EMPTY, TreeWrites(first), TreeWrites(a));
    ApplyAppend(EMPTY, TreeWrites(first), TreeWrites(b));
    WritesInAnyOrder(Apply(EMPTY, TreeWrites(first)), TreeWrites(a), TreeWrites(b));
  }

  // ----- What a variable sets -------------------------------------------------

  lemma {:induction false} NestedWritesAppend(read: Reader, a: seq<Binding>, b: seq<Binding>)
    requires NestedWrites(read, a + b).Ok?
    ensures NestedWrites(read, a).Ok? && NestedWrites(read, b).Ok?
    ensures NestedWrites(read, a + b).value == NestedWrites(read, a).value + NestedWrites(read, b).value
    decreases |b|
  {
    if b == [] {
      assert a + b == a;
    } else {
      assert (a + b)[..|a + b| - 1] == a + b[..|b| - 1];
      NestedWritesAppend(read, a, b[..|b| - 1]);
    }
  }

  lemma OneVariable(read: Reader, b: Binding, w: HeapWrite)
    requires read(b) == Ok(Some(w))
    ensures NestedWrites(read, [b]) == Ok([w])
  {
    assert [b][..0] == [] && NestedWrites(read, []) == Ok([]);
    assert [] + [w] == [w];
  }

  /** The writes of an environment, with that of variable `i` among them. */
  lemma {:induction false} WritesAround(read: Reader, aliases: seq<Alias>, environ: seq<Binding>, i: nat, w: HeapWrite)
    requires i < |environ| && EnvironmentWrites(read, aliases, environ).Ok? && read(environ[i]) == Ok(Some(w))
    ensures NestedWrites(read, environ[..i]).Ok? && NestedWrites(read, environ[i + 1..]).Ok?
    ensures EnvironmentWrites(read, aliases, environ).value ==
            AliasWrites(aliases, environ) + NestedWrites(read, environ[..i]).value + [w] +
            NestedWrites(read, environ[i + 1..]).value
  {
    assert environ == environ[..i + 1] + environ[i + 1..] && environ[..i + 1] == environ[..i] + [environ[i]];
    NestedWritesAppend(read, environ[..i + 1], environ[i + 1..]);
    NestedWritesAppend(read, environ[..i], [environ[i]]);
    OneVariable(read, environ[i], w);
  }

  /**
    A prefixed variable sets what its value holds, at its path, over every plain name
    and every earlier variable, when all later ones show only beside that path.
   */
  lemma {:induction false} VariableIsShown(read: Reader, aliases: seq<Alias>, environ: seq<Binding>, i: nat,
      w: HeapWrite)
    requires i < |environ| && EnvironmentWrites(read, aliases, environ).Ok? && read(environ[i]) == Ok(Some(w))
    requires NestedWrites(read, environ[..i]).Ok? && NestedWrites(read, environ[i + 1..]).Ok?
    requires
      var before := Applied(ROOT, 0, AliasWrites(aliases, environ) + NestedWrites(read, environ[..i]).value);
      && OwnWay(before, 0, w.path)
      && AllBeside(OneWrite(before, 0, w), 0, NestedWrites(read, environ[i + 1..]).value, w.path)
    ensures Shows(EnvironmentHeap(read, aliases, environ), 0, w.path, w.value)
  {
    WritesAround(read, aliases, environ, i, w);
    WriteStaysShown(ROOT, 0, AliasWrites(aliases, environ) + NestedWrites(read, environ[..i]).value, w,
                    NestedWrites(read, environ[i + 1..]).value);
  }

  /** No variable after position `i` writes at, above or below the path of `w`. */
  ghost predicate NotOverwritten(read: Reader, environ: seq<Binding>, i: nat, w: HeapWrite) {
    forall j :: i < j < |environ| && read(environ[j]).Ok? && read(environ[j]).value.Some? ==>
      Incomparable(read(environ[j]).value.value.path, w.path)
  }

  lemma {:induction false} NestedMember(read: Reader, environ: seq<Binding>, v: HeapWrite)
    requires NestedWrites(read, environ).Ok? && v in NestedWrites(read, environ).value
    ensures exists j :: 0 <= j < |environ| && read(environ[j]) == Ok(Some(v))
  {
    var init, last := environ[..|environ| - 1], environ[|environ| - 1];
    if read(last) != Ok(Some(v)) {
      NestedMember(read, init, v);
      var j :| 0 <= j < |init| && read(init[j]) == Ok(Some(v));
      assert environ[j] == init[j];
    }
  }

  /**
    Where no variable goes below a value that shares dictionaries, it is enough that
    no later variable writes at, above or below the path.
   */
  lemma VariableReachesItsPath(read: Reader, aliases: seq<Alias>, environ: seq<Binding>, i: nat, w: HeapWrite)
    requires i < |environ| && EnvironmentWrites(read, aliases, environ).Ok? && ReadsTrees(read, environ)
    requires read(environ[i]) == Ok(Some(w)) && NotOverwritten(read, environ, i, w)
    requires NoDescent(EnvironmentWrites(read, aliases, environ).value)
    ensures IsTree(w.value)
    ensures
      var found := Find(EnvironmentHeap(read, aliases, environ), Sub(0), w.path);
      found.Some? && Represents(EnvironmentHeap(read, aliases, environ), found.value, TreeOf(w.value))
  {
    WritesAround(read, aliases, environ, i, w);
    var earlier := AliasWrites(aliases, environ) + NestedWrites(read, environ[..i]).value;
    var later := NestedWrites(read, environ[i + 1..]).value;
    LayerIsTree(read, aliases, environ);
    forall v | v in later ensures Incomparable(v.path, w.path) {
      NestedMember(read, environ[i + 1..], v);
      var j :| 0 <= j < |environ[i + 1..]| && read(environ[i + 1..][j]) == Ok(Some(v));
      assert environ[i + 1 + j] == environ[i + 1..][j];
    }
    TreeStays(earlier, w, later);
    FindIsLookup(EnvironmentHeap(read, aliases, environ), Sub(0), Apply(EMPTY, TreeWrites(earlier + [w] + later)),
        w.path);
  }

  lemma TreeStays(earlier: seq<HeapWrite>, w: HeapWrite, later: seq<HeapWrite>)
    requires AllTrees(earlier + [w] + later)
    requires forall v :: v in later ==> Incomparable(v.path, w.path)
    ensures IsTree(w.value)
    ensures Lookup(Apply(EMPTY, TreeWrites(earlier + [w] + later)), w.path) == Some(TreeOf(w.value))
  {
    assert w in earlier + [w] + later;
    assert forall v :: v in earlier || v in later ==> v in earlier + [w] + later;
    TreeWritesAppend(earlier, [w]);
    TreeWritesAppend(earlier + [w], later);
    assert TreeWrites([w]) == [TreeWrite(w)];
    forall k | 0 <= k < |later| ensures Incomparable(TreeWrites(later)[k].path, w.path) {
      assert later[k] in later;
    }
    WrittenStays(EMPTY, TreeWrites(earlier), TreeWrite(w), TreeWrites(later));
  }

  /** The heap after the first `n` prefixed variables. */
  ghost function HeapAfter(read: Reader, environ: seq<Binding>, n: nat): (h: Heap)
    requires n <= |environ| && NestedWrites(read, environ[..n]).Ok?
    ensures Closed(h) && 0 in h.dicts
  {
    Applied(ROOT, 0, NestedWrites(read, environ[..n]).value)
  }

  lemma NextVariable(read: Reader, environ: seq<Binding>, n: nat, w: HeapWrite) returns (after: Heap)
    requires n < |environ| && NestedWrites(read, environ[..n]).Ok? && read(environ[n]) == Ok(Some(w))
    ensures after == OneWrite(HeapAfter(read, environ, n), 0, w)
    ensures NestedWrites(read, environ[..n + 1]).Ok? && HeapAfter(read, environ, n + 1) == after
  {
    NestedWritesNext(read, environ, n);
    AppliedSnoc(ROOT, 0, NestedWrites(read, environ[..n]).value, w);
    after := HeapAfter(read, environ, n + 1);
  }

  lemma NoVariable(read: Reader, environ: seq<Binding>)
    ensures Closed(ROOT) && NestedWrites(read, environ[..0]).Ok? && HeapAfter(read, environ, 0) == ROOT
  {
    assert environ[..0] == [];
  }

  lemma ThreeVariables(read: Reader, environ: seq<Binding>, x: HeapWrite, y: HeapWrite, z: HeapWrite)
    returns (after: Heap)
    requires |environ| >= 3
    requires read(environ[0]) == Ok(Some(x)) && read(environ[1]) == Ok(Some(y)) && read(environ[2]) == Ok(Some(z))
    ensures NestedWrites(read, environ[..3]).Ok? && HeapAfter(read, environ, 3) == after
    ensures Closed(ROOT) && after == OneWrite(OneWrite(OneWrite(ROOT, 0, x), 0, y), 0, z)
  {
    NoVariable(read, environ);
    after := NextVariable(read, environ, 0, x);
    after := NextVariable(read, environ, 1, y);
    after := NextVariable(read, environ, 2, z);
  }

  /**
    Three variables: one whose value holds one dictionary under `a` and `b`, one that
    writes below `b`, one that writes below `a`. The last is not at, above or below the
    path of the second, and yet its value is the one found there.
   */
  lemma SharedVariableShows(read: Reader, environ: seq<Binding>, p: string, a: string, b: string, k: string,
      s: Scalar, u: Scalar, v: Scalar)
    requires |environ| == 3 && a != b && u != v
    requires read(environ[0]) == Ok(Some(AnchoredAt(p, a, b, k, s)))
    requires read(environ[1]) == Ok(Some(ScalarWrite([p, b, k], u)))
    requires read(environ[2]) == Ok(Some(ScalarWrite([p, a, k], v)))
    ensures Incomparable([p, a, k], [p, b, k]) && NestedWrites(read, environ[..3]).Ok?
    ensures Find(HeapAfter(read, environ, 3), Sub(0), [p, b, k]) == Some(Plain(v))
  {
    assert [p, a, k][1] != [p, b, k][1];
    SharedValueShows(p, a, b, k, s, u, v);
    var after := ThreeVariables(read, environ,
                                AnchoredAt(p, a, b, k, s), ScalarWrite([p, b, k], u), ScalarWrite([p, a, k], v));
  }
}
