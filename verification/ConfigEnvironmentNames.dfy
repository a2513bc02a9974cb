/**
  What the names and values of environment variables mean: the path a prefixed name
  spells, the value it is given, and what the layer then holds there.
 */
module ConfigEnvironmentNames {
  import opened Prelude
  import opened Text
  import opened ConfigTree
  import opened ConfigHeap
  import opened ConfigHeapLaws
  import opened ConfigHeapRuns
  import opened ConfigEnvironment
  import opened ConfigEnvironmentLaws

  // ----- Names ----------------------------------------------------------------

  predicate DoubleAt(s: string, j: int) {
    0 <= j && j + 1 < |s| && s[j] == '_' && s[j + 1] == '_'
  }

  lemma {:induction false} FirstDouble(s: string)
    ensures
      var r := DoubleUnderscore(s);
      && (0 <= r ==> DoubleAt(s, r) && forall j :: DoubleAt(s, j) ==> r <= j)
      && (r < 0 ==> forall j :: !DoubleAt(s, j))
  {
    if |s| >= 2 && !(s[0] == s[1] == '_') {
      FirstDouble(s[1..]);
      assert forall j :: 0 < j ==> DoubleAt(s, j) == DoubleAt(s[1..], j - 1);
    }
  }

  /** Components that can be told apart again when they are joined by two underscores. */
  ghost predicate Separable(parts: seq<string>) {
    && parts != []
    && (forall i, j :: 0 <= i < |parts| ==> !DoubleAt(parts[i], j))
    && (forall i :: 0 <= i < |parts| - 1 && parts[i] != "" ==> parts[i][|parts[i]| - 1] != '_')
  }

  lemma {:induction false} JoinFirst(parts: seq<string>, separator: string)
    requires |parts| > 1
    ensures Join(parts, separator) == parts[0] + separator + Join(parts[1..], separator)
  {
    JoinPrepend(parts[0], parts[1..], separator);
    assert [parts[0]] + parts[1..] == parts;
  }

  lemma {:induction false} SplitFirst(first: string, rest: string)
    requires forall j :: !DoubleAt(first, j)
    requires first != "" ==> first[|first| - 1] != '_'
    ensures SplitDouble(first + "__" + rest) == [first] + SplitDouble(rest)
  {
    var s := first + "__" + rest;
    FirstDouble(s);
    assert DoubleAt(s, |first|);
    forall j | 0 <= j < |first| ensures !DoubleAt(s, j) {
      assert s[j] == first[j] && !DoubleAt(first, j);
      assert j + 1 < |first| ==> s[j + 1] == first[j + 1];
    }
    assert s[..|first|] == first && s[|first| + 2..] == rest;
  }

  lemma SeparableTail(parts: seq<string>)
    requires Separable(parts) && |parts| > 1
    ensures Separable(parts[1..]) && (parts[0] != "" ==> parts[0][|parts[0]| - 1] != '_')
    ensures forall j :: !DoubleAt(parts[0], j)
  {
    assert forall i :: 0 <= i < |parts| - 1 ==> parts[1..][i] == parts[i + 1];
  }

  /** Splitting gives back the components that were joined. */
  lemma {:induction false} JoinedParts(parts: seq<string>)
    requires Separable(parts)
    ensures SplitDouble(Join(parts, "__")) == parts
    decreases |parts|
  {
    if |parts| == 1 {
      FirstDouble(parts[0]);
      assert [parts[0]] == parts;
    } else {
      SeparableTail(parts);
      JoinFirst(parts, "__");
      JoinedParts(parts[1..]);
      SplitFirst(parts[0], Join(parts[1..], "__"));
    }
  }

  /** Every text is split into such components, so no other components spell it. */
  lemma {:induction false} SplitParts(s: string)
    ensures Separable(SplitDouble(s)) && Join(SplitDouble(s), "__") == s
    decreases |s|
  {
    var k := DoubleUnderscore(s);
    FirstDouble(s);
    if 0 <= k {
      var first, rest := s[..k], SplitDouble(s[k + 2..]);
      SplitParts(s[k + 2..]);
      JoinPrepend(first, rest, "__");
      assert s == first + "__" + s[k + 2..];
      forall j ensures !DoubleAt(first, j) {
        assert DoubleAt(first, j) ==> DoubleAt(s, j);
      }
      assert first != "" ==> !DoubleAt(s, k - 1) && first[k - 1] == s[k - 1];
      SeparablePrepend(first, rest);
    }
  }

  lemma SeparablePrepend(first: string, rest: seq<string>)
    requires Separable(rest) && (forall j :: !DoubleAt(first, j)) && (first != "" ==> first[|first| - 1] != '_')
    ensures Separable([first] + rest)
  {
    var parts := [first] + rest;
    assert forall i :: 0 < i < |parts| ==> parts[i] == rest[i - 1];
  }

  // ----- Values ---------------------------------------------------------------

  /** The name that spells these components. */
  function NameOf(parts: seq<string>): string {
    "ENTERPRISE_RAG__" + Join(parts, "__")
  }

  /** No component is empty in lower case. */
  predicate Named(p: Platform, parts: seq<string>) {
    forall i :: 0 <= i < |parts| ==> p.lower(parts[i]) != ""
  }

  /** The path that components address: each in lower case, none of them empty. */
  predicate Addresses(p: Platform, parts: seq<string>, path: Path) {
    && |path| == |parts| && forall i :: 0 <= i < |path| ==> path[i] == p.lower(parts[i]) && path[i] != ""
  }

  /** What a value is parsed to; a text that stands for nothing is kept as it is. */
  predicate Means(p: Platform, text: string, value: Graph) {
    match p.yaml(text)
    case Nothing => value == Graph([], Plain(Text(text)))
    case Parsed(parsed) => value == parsed
    case Malformed => false
  }

  /**
    A variable named by the prefix and components writes what its value means at
    their path. Nothing is written when a component is empty in lower case, and a
    malformed value is an error only otherwise.
   */
  lemma PrefixedVariable(p: Platform, b: Binding, parts: seq<string>)
    requires Separable(parts) && b.name == NameOf(parts)
    ensures
      var read := PrefixedReader(p)(b);
      && (read == Ok(None) <==> !Named(p, parts))
      && (read.Err? <==> Named(p, parts) && p.yaml(b.value) == Malformed)
      && (read.Ok? && read.value.Some? ==>
            Addresses(p, parts, read.value.value.path) && Means(p, b.value, read.value.value.value))
  {
    assert b.name[|NESTED_PREFIX|..] == Join(parts, "__");
    JoinedParts(parts);
    var path := Lowered(p.lower, parts);
    assert forall i :: 0 <= i < |parts| ==> path[i] == p.lower(parts[i]);
  }

  /** Any other variable writes nothing. */
  lemma OtherVariable(p: Platform, b: Binding)
    ensures PrefixedReader(p)(b) == Ok(None) || exists parts :: Separable(parts) && b.name == NameOf(parts)
  {
    if StartsWith(b.name, NESTED_PREFIX) {
      var rest := b.name[|NESTED_PREFIX|..];
      SplitParts(rest);
      assert b.name == NESTED_PREFIX + rest;
      assert Separable(SplitDouble(rest)) && b.name == NameOf(SplitDouble(rest));
    }
  }

  /** A variable that is given a path, and a value, by its name and text. */
  ghost predicate Sets(p: Platform, b: Binding, path: Path, value: Graph) {
    Means(p, b.value, value) && exists parts :: Separable(parts) && b.name == NameOf(parts) && Addresses(p, parts, path)
  }

  lemma SetsExactly(p: Platform, b: Binding, path: NonEmptyPath, value: Graph)
    ensures PrefixedReader(p)(b) == Ok(Some(HeapWrite(path, value))) <==> Sets(p, b, path, value)
  {
    var read := PrefixedReader(p)(b);
    OtherVariable(p, b);
    if exists parts :: Separable(parts) && b.name == NameOf(parts) {
      var parts :| Separable(parts) && b.name == NameOf(parts);
      PrefixedVariable(p, b, parts);
      if Sets(p, b, path, value) {
        var others :| Separable(others) && b.name == NameOf(others) && Addresses(p, others, path);
        assert b.name[|NESTED_PREFIX|..] == Join(parts, "__") == Join(others, "__");
        JoinedParts(parts);
        JoinedParts(others);
        assert read.Ok? && read.value.Some? && path == read.value.value.path;
      }
    }
  }

  /** The layer is made exactly when no variable that addresses a path has a malformed value. */
  lemma LayerExactly(p: Platform, environ: seq<Binding>)
    ensures EnvironmentWrites(PrefixedReader(p), ENV_ALIASES, environ).Ok? <==>
      forall b, parts :: b in environ && Separable(parts) && b.name == NameOf(parts) && Named(p, parts) ==>
        p.yaml(b.value) != Malformed
  {
    NestedWritesOk(PrefixedReader(p), environ);
    forall b, parts | b in environ && Separable(parts) && b.name == NameOf(parts)
      ensures PrefixedReader(p)(b).Err? <==>
        Named(p, parts) && p.yaml(b.value) == Malformed
    {
      PrefixedVariable(p, b, parts);
    }
    forall b | b in environ && PrefixedReader(p)(b).Err?
      ensures exists parts :: Separable(parts) && b.name == NameOf(parts)
    {
      OtherVariable(p, b);
    }
  }

  // ----- What the layer holds -------------------------------------------------

  ghost predicate ValuesAreTrees(p: Platform, environ: seq<Binding>) {
    forall b, value :: b in environ && Means(p, b.value, value) ==> IsTree(value)
  }

  lemma ReadsOnlyTrees(p: Platform, environ: seq<Binding>)
    requires ValuesAreTrees(p, environ)
    ensures ReadsTrees(PrefixedReader(p), environ)
  {
    var read := PrefixedReader(p);
    forall b | b in environ && read(b).Ok? && read(b).value.Some? ensures IsTree(read(b).value.value.value) {
      SetsExactly(p, b, read(b).value.value.path, read(b).value.value.value);
    }
  }

  /** The layer of an environment, with the table of plain names. */
  ghost function Layer(p: Platform, environ: seq<Binding>): Heap
    requires EnvironmentWrites(PrefixedReader(p), ENV_ALIASES, environ).Ok?
  {
    EnvironmentHeap(PrefixedReader(p), ENV_ALIASES, environ)
  }

  /** No later variable is given a path at, above or below this one. */
  ghost predicate LeftAlone(p: Platform, environ: seq<Binding>, from: nat, path: Path) {
    forall j, other, value :: from <= j < |environ| && Sets(p, environ[j], other, value) ==> Incomparable(other, path)
  }

  /**
    A prefixed variable is found at the path its name spells in lower case, with what
    its text means: as a tree, and as the text itself when it stands for nothing.
   */
  lemma {:induction false} PrefixedVariableSets(p: Platform, environ: seq<Binding>, i: nat, path: NonEmptyPath,
      value: Graph)
    requires EnvironmentWrites(PrefixedReader(p), ENV_ALIASES, environ).Ok? && ValuesAreTrees(p, environ)
    requires NoDescent(EnvironmentWrites(PrefixedReader(p), ENV_ALIASES, environ).value)
    requires i < |environ| && Sets(p, environ[i], path, value) && LeftAlone(p, environ, i + 1, path)
    ensures IsTree(value)
    ensures
      var found := Find(Layer(p, environ), Sub(0), path);
      && found.Some? && Represents(Layer(p, environ), found.value, TreeOf(value))
      && (p.yaml(environ[i].value).Nothing? ==> found == Some(Plain(Text(environ[i].value))))
  {
    var read := PrefixedReader(p);
    ReadsOnlyTrees(p, environ);
    SetsExactly(p, environ[i], path, value);
    forall j | i < j < |environ| && read(environ[j]).Ok? && read(environ[j]).value.Some?
      ensures Incomparable(read(environ[j]).value.value.path, path)
    {
      var w := read(environ[j]).value.value;
      SetsExactly(p, environ[j], w.path, w.value);
    }
    VariableReachesItsPath(read, ENV_ALIASES, environ, i, HeapWrite(path, value));
  }

  lemma {:induction false} AliasWritesAppend(a: seq<Alias>, b: seq<Alias>, environ: seq<Binding>)
    ensures AliasWrites(a + b, environ) == AliasWrites(a, environ) + AliasWrites(b, environ)
  {
    if b == [] {
      assert a + b == a;
    } else {
      assert (a + b)[..|a + b| - 1] == a + b[..|b| - 1];
      AliasWritesAppend(a, b[..|b| - 1], environ);
    }
  }

  lemma {:induction false} AliasMember(aliases: seq<Alias>, environ: seq<Binding>, w: HeapWrite)
    requires w in AliasWrites(aliases, environ)
    ensures exists j :: 0 <= j < |aliases| && w.path == aliases[j].Path()
  {
    var init, last := aliases[..|aliases| - 1], aliases[|aliases| - 1];
    if w in AliasWrites(init, environ) {
      AliasMember(init, environ, w);
      var j :| 0 <= j < |init| && w.path == init[j].Path();
      assert aliases[j] == init[j];
    } else {
      assert aliases[|aliases| - 1].Path() == w.path;
    }
  }

  /** The writes around that of one plain name. */
  lemma {:induction false} AliasAround(aliases: seq<Alias>, environ: seq<Binding>, k: nat, text: string)
    requires k < |aliases| && ValueOf(environ, aliases[k].name) == Some(text)
    ensures AliasWrites(aliases, environ) ==
      AliasWrites(aliases[..k], environ) + [ScalarWrite(aliases[k].Path(), Text(text))] +
      AliasWrites(aliases[k + 1..], environ)
  {
    assert aliases == aliases[..k + 1] + aliases[k + 1..] && aliases[..k + 1] == aliases[..k] + [aliases[k]];
    AliasWritesAppend(aliases[..k + 1], aliases[k + 1..], environ);
    AliasWritesAppend(aliases[..k], [aliases[k]], environ);
    assert [aliases[k]][..0] == [];
  }

  /** No two plain names of a table stand for one setting. */
  ghost predicate SettingsDiffer(aliases: seq<Alias>) {
    forall i, j :: 0 <= i < j < |aliases| ==> aliases[i].Path() != aliases[j].Path()
  }

  /** The value of a plain name is found, as a text, at its setting, when no prefixed variable is given a path there. */
  lemma {:induction false} AliasReachesItsPath(read: Reader, aliases: seq<Alias>, environ: seq<Binding>, k: nat,
      text: string)
    requires EnvironmentWrites(read, aliases, environ).Ok? && ReadsTrees(read, environ) && SettingsDiffer(aliases)
    requires NoDescent(EnvironmentWrites(read, aliases, environ).value)
    requires k < |aliases| && ValueOf(environ, aliases[k].name) == Some(text)
    requires forall v :: v in NestedWrites(read, environ).value ==> Incomparable(v.path, aliases[k].Path())
    ensures Find(EnvironmentHeap(read, aliases, environ), Sub(0), [aliases[k].section, aliases[k].setting]) ==
            Some(Plain(Text(text)))
  {
    var w := ScalarWrite(aliases[k].Path(), Text(text));
    var earlier := AliasWrites(aliases[..k], environ);
    var later := AliasWrites(aliases[k + 1..], environ) + NestedWrites(read, environ).value;
    AliasAround(aliases, environ, k, text);
    assert EnvironmentWrites(read, aliases, environ).value == earlier + [w] + later;
    LayerIsTree(read, aliases, environ);
    forall v | v in later ensures Incomparable(v.path, w.path) {
      if v in AliasWrites(aliases[k + 1..], environ) {
        AliasMember(aliases[k + 1..], environ, v);
        var j :| 0 <= j < |aliases[k + 1..]| && v.path == aliases[k + 1..][j].Path();
        assert v.path == aliases[k + 1 + j].Path();
      }
    }
    TreeStays(earlier, w, later);
    FindIsLookup(EnvironmentHeap(read, aliases, environ), Sub(0), Apply(EMPTY, TreeWrites(earlier + [w] + later)),
                 w.path);
  }

  lemma FirstSettingsDiffer(i: nat, j: nat)
    requires i < j < |ENV_ALIASES| && i < 3
    ensures ENV_ALIASES[i].Path() != ENV_ALIASES[j].Path()
  {
    assert ENV_ALIASES[i].setting != ENV_ALIASES[j].setting;
  }

  lemma EarlySettingsDiffer(i: nat, j: nat)
    requires 3 <= i < j < |ENV_ALIASES| && i < 7
    ensures ENV_ALIASES[i].Path() != ENV_ALIASES[j].Path()
  {
    assert ENV_ALIASES[i].setting != ENV_ALIASES[j].setting;
  }

  lemma LaterSettingsDiffer(i: nat, j: nat)
    requires 7 <= i < j < |ENV_ALIASES| && i < 13
    ensures ENV_ALIASES[i].Path() != ENV_ALIASES[j].Path()
  {
    assert ENV_ALIASES[i].setting != ENV_ALIASES[j].setting;
  }

  lemma LastSettingsDiffer(i: nat, j: nat)
    requires 13 <= i < j < |ENV_ALIASES|
    ensures ENV_ALIASES[i].Path() != ENV_ALIASES[j].Path()
  {
    assert ENV_ALIASES[i].setting != ENV_ALIASES[j].setting;
  }

  lemma TableSettingsDiffer()
    ensures SettingsDiffer(ENV_ALIASES)
  {
    forall i, j | 0 <= i < j < |ENV_ALIASES| ensures ENV_ALIASES[i].Path() != ENV_ALIASES[j].Path() {
      if i < 3 {
        FirstSettingsDiffer(i, j);
      } else if i < 7 {
        EarlySettingsDiffer(i, j);
      } else if i < 13 {
        LaterSettingsDiffer(i, j);
      } else {
        LastSettingsDiffer(i, j);
      }
    }
  }

  /** A plain name of the table sets its text, unparsed, at its setting. */
  lemma PlainVariableSets(p: Platform, environ: seq<Binding>, b: Binding, k: nat)
    requires EnvironmentWrites(PrefixedReader(p), ENV_ALIASES, environ).Ok? && ValuesAreTrees(p, environ)
    requires NoDescent(EnvironmentWrites(PrefixedReader(p), ENV_ALIASES, environ).value)
    requires DistinctNames(environ) && b in environ && k < |ENV_ALIASES| && b.name == ENV_ALIASES[k].name
    requires LeftAlone(p, environ, 0, [ENV_ALIASES[k].section, ENV_ALIASES[k].setting])
    ensures Find(Layer(p, environ), Sub(0), [ENV_ALIASES[k].section, ENV_ALIASES[k].setting]) ==
            Some(Plain(Text(b.value)))
  {
    var read := PrefixedReader(p);
    ReadsOnlyTrees(p, environ);
    TableSettingsDiffer();
    OnlyValue(environ, b);
    forall v | v in NestedWrites(read, environ).value ensures Incomparable(v.path, ENV_ALIASES[k].Path()) {
      NestedMember(read, environ, v);
      var j :| 0 <= j < |environ| && read(environ[j]) == Ok(Some(v));
      SetsExactly(p, environ[j], v.path, v.value);
    }
    AliasReachesItsPath(read, ENV_ALIASES, environ, k, b.value);
  }

  lemma {:induction false} OnlyValue(environ: seq<Binding>, b: Binding)
    requires DistinctNames(environ) && b in environ
    ensures ValueOf(environ, b.name) == Some(b.value)
  {
    ValueOfMember(environ, b.name);
  }
}
