/**
  The layer that environment variables make: one dictionary, written into variable by
  variable with values that may share dictionaries.
 */
module ConfigEnvironment {
  import opened Prelude
  import opened Text
  import opened ConfigTree
  import opened ConfigHeap

  datatype Binding = Binding(name: string, value: string)

  /** `yaml.safe_load`: nothing, a value, or an exception. */
  datatype Yaml = Nothing | Parsed(value: Graph) | Malformed

  datatype Platform = Platform(lower: string -> string, yaml: string -> Yaml)

  const NESTED_PREFIX := "ENTERPRISE_RAG__"

  /** A plain variable name and the setting it stands for. */
  datatype Alias = Alias(name: string, section: string, setting: string) {
    function Path(): NonEmptyPath {
      [section, setting]
    }
  }

  const ENV_ALIASES: seq<Alias> := [
    Alias("APP_ENVIRONMENT", "app", "environment"),
    Alias("APP_COMMIT_SHA", "app", "commit_sha"),
    Alias("PUBLIC_BASE_URL", "app", "public_base_url"),
    Alias("MCP_PUBLIC_BASE_URL", "app", "mcp_public_base_url"),
    Alias("DATABASE_URL", "credentials", "database_url"),
    Alias("SESSION_SECRET", "credentials", "session_secret"),
    Alias("ADMIN_BOOTSTRAP_EMAIL", "credentials", "admin_bootstrap_email"),
    Alias("ADMIN_BOOTSTRAP_PASSWORD", "credentials", "admin_bootstrap_password"),
    Alias("LLM_BASE_URL", "credentials", "llm_base_url"),
    Alias("LLM_API_KEY", "credentials", "llm_api_key"),
    Alias("LLM_MODEL", "credentials", "llm_model"),
    Alias("EMBEDDING_BASE_URL", "credentials", "embedding_base_url"),
    Alias("EMBEDDING_API_KEY", "credentials", "embedding_api_key"),
    Alias("EMBEDDING_MODEL", "credentials", "embedding_model"),
    Alias("RERANK_BASE_URL", "credentials", "rerank_base_url"),
    Alias("RERANK_API_KEY", "credentials", "rerank_api_key"),
    Alias("RERANK_MODEL", "credentials", "rerank_model"),
    Alias("VECTOR_STORE_URI", "credentials", "vector_store_uri"),
    Alias("VECTOR_STORE_TOKEN", "credentials", "vector_store_token"),
    Alias("VECTOR_STORE_DATABASE", "credentials", "vector_store_database"),
    Alias("WORKER_POLL_INTERVAL_SECONDS", "worker", "poll_interval_seconds"),
    Alias("WORKER_RECOVERY_INTERVAL_SECONDS", "worker", "recovery_interval_seconds"),
    Alias("WORKER_RECOVERY_LIMIT", "worker", "recovery_limit"),
    Alias("WORKER_LEASE_SECONDS", "worker", "lease_seconds"),
    Alias("VISION_BASE_URL", "credentials", "vision_base_url"),
    Alias("VISION_API_KEY", "credentials", "vision_api_key"),
    Alias("VISION_MODEL", "credentials", "vision_model"),
    Alias("SILICONFLOW_BASE_URL", "credentials", "siliconflow_base_url"),
    Alias("SILICONFLOW_API_KEY", "credentials", "siliconflow_api_key"),
    Alias("MCP_TOKEN_PEPPER", "credentials", "mcp_token_pepper"),
    Alias("METRICS_TOKEN", "credentials", "metrics_token"),
    Alias("ALLOW_INSECURE_DEMO_ADMIN", "security", "allow_insecure_demo_admin"),
    Alias("ALLOW_SINGLE_PROCESS_DEMO_RUNTIME", "security", "allow_single_process_demo_runtime")
  ]

  function ValueOf(environ: seq<Binding>, name: string): Option<string> {
    if environ == [] then None
    else if environ[0].name == name then Some(environ[0].value)
    else ValueOf(environ[1..], name)
  }

  /** Writes of the plain variable names, in the order of the table `aliases`. */
  function AliasWrites(aliases: seq<Alias>, environ: seq<Binding>): seq<HeapWrite> {
    if aliases == [] then []
    else
      var alias := aliases[|aliases| - 1];
      var value := ValueOf(environ, alias.name);
      AliasWrites(aliases[..|aliases| - 1], environ) +
      if value.Some? then [ScalarWrite(alias.Path(), Text(value.value))] else []
  }

  /** `s.split("__")`. */
  function SplitDouble(s: string): (parts: seq<string>)
    ensures parts != []
    decreases |s|
  {
    var k := DoubleUnderscore(s);
    if k < 0 then [s] else [s[..k]] + SplitDouble(s[k + 2..])
  }

  function DoubleUnderscore(s: string): (r: int)
    ensures -1 <= r && (0 <= r ==> r + 2 <= |s|)
  {
    if |s| < 2 then -1
    else if s[0] == s[1] == '_' then 0
    else
      var r := DoubleUnderscore(s[1..]);
      if r < 0 then -1 else r + 1
  }

  function Lowered(lower: string -> string, parts: seq<string>): Path {
    seq(|parts|, i requires 0 <= i < |parts| => lower(parts[i]))
  }

  /** The write of one prefixed variable; an empty path component makes it none. */
  function NestedWrite(p: Platform, b: Binding): Result<Option<HeapWrite>, ()> {
    if !StartsWith(b.name, NESTED_PREFIX) then Ok(None)
    else
      var path := Lowered(p.lower, SplitDouble(b.name[|NESTED_PREFIX|..]));
      if exists i :: 0 <= i < |path| && path[i] == "" then Ok(None)
      else match p.yaml(b.value)
        case Malformed => Err(())
        case Nothing => Ok(Some(ScalarWrite(path, Text(b.value))))
        case Parsed(value) => Ok(Some(HeapWrite(path, value)))
  }

  function Added(write: Option<HeapWrite>): seq<HeapWrite> {
    if write.Some? then [write.value] else []
  }

  /** How one variable is read. */
  type Reader = Binding -> Result<Option<HeapWrite>, ()>

  function PrefixedReader(p: Platform): Reader {
    (b: Binding) => NestedWrite(p, b)
  }

  function NestedWrites(read: Reader, environ: seq<Binding>): Result<seq<HeapWrite>, ()> {
    if environ == [] then Ok([])
    else
      var earlier :- NestedWrites(read, environ[..|environ| - 1]);
      var write :- read(environ[|environ| - 1]);
      Ok(earlier + Added(write))
  }

  /** Every write of an environment: the table's names first, then the prefixed names in order. */
  function EnvironmentWrites(read: Reader, aliases: seq<Alias>, environ: seq<Binding>): Result<seq<HeapWrite>, ()> {
    var nested :- NestedWrites(read, environ);
    Ok(AliasWrites(aliases, environ) + nested)
  }

  /** The layer that an environment makes. */
  ghost function EnvironmentHeap(read: Reader, aliases: seq<Alias>, environ: seq<Binding>): (h: Heap)
    requires EnvironmentWrites(read, aliases, environ).Ok?
    ensures Closed(h) && 0 in h.dicts
  {
    Applied(ROOT, 0, EnvironmentWrites(read, aliases, environ).value)
  }

  lemma {:induction false} NestedWritesFail(read: Reader, environ: seq<Binding>, i: nat)
    requires i <= |environ| && NestedWrites(read, environ[..i]).Err?
    ensures NestedWrites(read, environ).Err?
    decreases |environ| - i
  {
    if i < |environ| {
      assert environ[..i + 1][..i] == environ[..i];
      NestedWritesFail(read, environ, i + 1);
    } else {
      assert environ[..i] == environ;
    }
  }

  /** A scalar brings no objects of its own. */
  lemma {:induction false} ScalarIsStored(h: Heap, path: NonEmptyPath, s: Scalar)
    requires Closed(h) && 0 in h.dicts
    ensures OneWrite(h, 0, ScalarWrite(path, s)) == Written(h, 0, path, Plain(s))
  {
    assert Loaded(h, Graph([], Plain(s))).dicts == h.dicts;
    assert Loaded(h, Graph([], Plain(s))) == h;
  }

  /** One more text, written after `earlier`. */
  method WriteText(heap: DictHeap, path: NonEmptyPath, text: string, ghost before: Heap, ghost earlier: seq<HeapWrite>)
    requires Closed(before) && 0 in before.dicts && heap.Contents() == Applied(before, 0, earlier)
    modifies heap
    ensures heap.Contents() == Applied(before, 0, earlier + [ScalarWrite(path, Text(text))])
  {
    ScalarIsStored(heap.Contents(), path, Text(text));
    AppliedSnoc(before, 0, earlier, ScalarWrite(path, Text(text)));
    heap.SetNested(0, path, Plain(Text(text)));
  }

  /** The loop over the table of plain names. */
  method WriteAliases(heap: DictHeap, aliases: seq<Alias>, environ: seq<Binding>)
    requires Closed(heap.Contents()) && 0 in heap.dicts
    modifies heap
    ensures heap.Contents() == Applied(old(heap.Contents()), 0, AliasWrites(aliases, environ))
  {
    ghost var before := heap.Contents();
    var i := 0;
    while i < |aliases|
      invariant 0 <= i <= |aliases|
      invariant heap.Contents() == Applied(before, 0, AliasWrites(aliases[..i], environ))
    {
      ghost var earlier := AliasWrites(aliases[..i], environ);
      assert aliases[..i + 1][..i] == aliases[..i];
      var value := ValueOf(environ, aliases[i].name);
      if value.Some? {
        WriteText(heap, aliases[i].Path(), value.value, before, earlier);
      } else {
        assert earlier + [] == earlier;
      }
      i := i + 1;
    }
    assert aliases[..i] == aliases;
  }

  lemma NestedWritesNext(read: Reader, environ: seq<Binding>, i: nat)
    requires i < |environ| && NestedWrites(read, environ[..i]).Ok?
    ensures
      var write := read(environ[i]);
      if write.Ok? then
        NestedWrites(read, environ[..i + 1]) == Ok(NestedWrites(read, environ[..i]).value + Added(write.value))
      else NestedWrites(read, environ[..i + 1]).Err?
  {
    assert environ[..i + 1][..i] == environ[..i] && environ[..i + 1][i] == environ[i];
  }

  /** One more value, if there is one, parsed and written after `earlier`. */
  method WriteOptional(heap: DictHeap, write: Option<HeapWrite>, ghost before: Heap, ghost earlier: seq<HeapWrite>)
    returns (ghost writes: seq<HeapWrite>)
    requires Closed(before) && 0 in before.dicts && heap.Contents() == Applied(before, 0, earlier)
    modifies heap
    ensures writes == earlier + Added(write) && heap.Contents() == Applied(before, 0, writes)
  {
    writes := earlier + Added(write);
    if write.Some? {
      AppliedSnoc(before, 0, earlier, write.value);
      var value := heap.Load(write.value.value);
      heap.SetNested(0, write.value.path, value);
    } else {
      assert writes == earlier;
    }
  }

  /** The loop over the prefixed names; false when a value is malformed. */
  method WriteNested(read: Reader, heap: DictHeap, environ: seq<Binding>) returns (written: bool)
    requires Closed(heap.Contents()) && 0 in heap.dicts
    modifies heap
    ensures written <==> NestedWrites(read, environ).Ok?
    ensures written ==> heap.Contents() == Applied(old(heap.Contents()), 0, NestedWrites(read, environ).value)
  {
    ghost var before := heap.Contents();
    ghost var writes: seq<HeapWrite> := [];
    var i := 0;
    while i < |environ|
      invariant 0 <= i <= |environ| && NestedWrites(read, environ[..i]) == Ok(writes)
      invariant heap.Contents() == Applied(before, 0, writes)
    {
      NestedWritesNext(read, environ, i);
      var write := read(environ[i]);
      if write.Err? {
        NestedWritesFail(read, environ, i + 1);
        return false;
      }
      writes := WriteOptional(heap, write.value, before, writes);
      i := i + 1;
    }
    assert environ[..i] == environ;
    return true;
  }

  /** One dictionary, written into variable by variable. */
  method LayerData(read: Reader, aliases: seq<Alias>, environ: seq<Binding>) returns (data: Result<DictHeap, ()>)
    ensures data.Ok? <==> EnvironmentWrites(read, aliases, environ).Ok?
    ensures data.Ok? ==> fresh(data.value) && data.value.Contents() == EnvironmentHeap(read, aliases, environ)
  {
    var heap := new DictHeap();
    WriteAliases(heap, aliases, environ);
    var written := WriteNested(read, heap, environ);
    if written {
      AppliedAppend(ROOT, 0, AliasWrites(aliases, environ), NestedWrites(read, environ).value);
    }
    return if written then Ok(heap) else Err(());
  }

  /** `_environment_data`, with the table of names above. */
  method EnvironmentData(p: Platform, environ: seq<Binding>) returns (data: Result<DictHeap, ()>)
    ensures data.Ok? <==> EnvironmentWrites(PrefixedReader(p), ENV_ALIASES, environ).Ok?
    ensures data.Ok? ==>
      fresh(data.value) && data.value.Contents() == EnvironmentHeap(PrefixedReader(p), ENV_ALIASES, environ)
  {
    data := LayerData(PrefixedReader(p), ENV_ALIASES, environ);
  }
}
