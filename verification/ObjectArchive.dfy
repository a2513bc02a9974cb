/**
  Archives of a content-addressed object store: writing one, and restoring one
  into a root that may already hold objects.

  A root is what lies in its tree, by path relative to the root with `/` between
  components. An archive is the sequence of its tar members. SHA-256
  and the JSON codec are the members of `Platform`.
 */
module ObjectArchive {
  import opened Prelude
  import opened Text
  import opened Json

  const DIGEST_LENGTH := 64
  const CHUNK_SIZE := 1024 * 1024
  const MANIFEST_NAME := "manifest.json"
  const OBJECT_PREFIX := "objects/"

  datatype Platform = Platform(
    sha: Bytes -> string,              // hexadecimal digest
    parseJson: Bytes -> Option<Json>,  // None: not JSON
    encodeJson: Json -> Bytes)

  datatype ArchiveError =
    | SymlinkFound | NonFileFound | InvalidKey | DigestMismatch
    | ManifestUnreadable | ManifestUnsupported | NoObjectList | InvalidObject | InvalidMetadata | BadKey
    | InvalidManifestEntry | UnsupportedEntry | ManifestNotFirst | UnknownOrDuplicate | StreamFault
    | SymlinkRefused | PathBlocked | ContentMismatch | RefusesReplace | Incomplete

  /** Size and digest that the manifest promises for a key. */
  datatype Expected = Expected(size: int, digest: string)

  datatype Entry = Entry(key: string, size: int, digest: string)

  /**
    A tar member, or the point at which the stream cannot be read on. A stream can
    also fail inside the content of a member, which is then not `whole`.
   */
  datatype TarMember = Packed(name: string, isFile: bool, content: Bytes, whole: bool) | Broken

  /** Besides files and directories, a root may hold symbolic links and special files. */
  datatype Root = Root(files: map<string, Bytes>, dirs: set<string>, links: set<string>, specials: set<string>) {
    predicate Holds(path: string) {
      path in files || path in dirs || path in links || path in specials
    }
  }

  const EMPTY_ROOT := Root(map[], {}, {}, {})

  // ----- Keys -----------------------------------------------------------------

  predicate IsHex(s: string) {
    forall i :: 0 <= i < |s| ==> '0' <= s[i] <= '9' || 'a' <= s[i] <= 'f'
  }

  /** `sha256/aa/bb/` followed by 64 digits, everything after the first part hexadecimal. */
  predicate ValidKey(key: string) {
    var parts := Split(key, '/');
    && |parts| == 4 && parts[0] == "sha256"
    && |parts[1]| == 2 && |parts[2]| == 2 && |parts[3]| == DIGEST_LENGTH
    && IsHex(parts[1]) && IsHex(parts[2]) && IsHex(parts[3])
  }

  /** `key.rsplit("/", 1)[-1]`. */
  function DigestPart(key: string): string {
    var parts := Split(key, '/');
    parts[|parts| - 1]
  }

  /** Every directory above a path. */
  function Parents(path: string): set<string> {
    set i | 0 <= i < |path| && path[i] == '/' :: path[..i]
  }

  // ----- Writing --------------------------------------------------------------

  function Measure(p: Platform, content: Bytes): Expected {
    Expected(|content|, p.sha(content))
  }

  /** Manifest entries for the files among the walked paths; directories are passed over, nothing else is. */
  function Entries(p: Platform, root: Root, walk: seq<string>): Result<seq<Entry>, ArchiveError>
    requires forall path :: path in walk ==> root.Holds(path)
  {
    if walk == [] then Ok([])
    else
      var earlier :- Entries(p, root, walk[..|walk| - 1]);
      var path := walk[|walk| - 1];
      if path in root.links then Err(SymlinkFound)
      else if path in root.dirs then Ok(earlier)
      else if path !in root.files then Err(NonFileFound)
      else if !ValidKey(path) then Err(InvalidKey)
      else
        var found := Measure(p, root.files[path]);
        if found.digest != DigestPart(path) then Err(DigestMismatch)
        else Ok(earlier + [Entry(path, found.size, found.digest)])
  }

  function EntryJson(e: Entry): Json {
    Object([Member("key", String(e.key)), Member("sha256", String(e.digest)), Member("size", Int(e.size))])
  }

  function ManifestJson(entries: seq<Entry>): Json {
    Object([
      Member("objects", Array(seq(|entries|, i requires 0 <= i < |entries| => EntryJson(entries[i])))),
      Member("schema_version", Int(1))])
  }

  function ObjectMembers(root: Root, entries: seq<Entry>): seq<TarMember>
    requires forall i :: 0 <= i < |entries| ==> entries[i].key in root.files
  {
    seq(|entries|, i requires 0 <= i < |entries| =>
      Packed(OBJECT_PREFIX + entries[i].key, true, root.files[entries[i].key], true))
  }

  /** An entry that describes a walked file, lying at the key of its own digest. */
  predicate Describes(p: Platform, root: Root, walk: seq<string>, e: Entry) {
    && e.key in walk && e.key in root.files && e.key !in root.dirs && ValidKey(e.key)
    && e.size == |root.files[e.key]| && e.digest == p.sha(root.files[e.key]) == DigestPart(e.key)
  }

  lemma {:induction false} EntriesNameFiles(p: Platform, root: Root, walk: seq<string>)
    requires forall path :: path in walk ==> root.Holds(path)
    ensures
      var entries := Entries(p, root, walk);
      entries.Ok? ==> forall i :: 0 <= i < |entries.value| ==> Describes(p, root, walk, entries.value[i])
  {
    if walk != [] {
      var init, last := walk[..|walk| - 1], walk[|walk| - 1];
      assert walk == init + [last];
      EntriesNameFiles(p, root, init);
      var entries := Entries(p, root, walk);
      if entries.Ok? {
        var earlier := Entries(p, root, init).value;
        forall i | 0 <= i < |entries.value| ensures Describes(p, root, walk, entries.value[i]) {
          if i < |earlier| {
            assert entries.value[i] == earlier[i] && Describes(p, root, init, earlier[i]);
          } else {
            assert entries.value[i] == Entry(last, |root.files[last]|, p.sha(root.files[last]));
          }
        }
      }
    }
  }

  function Archive(p: Platform, root: Root, walk: seq<string>): Result<seq<TarMember>, ArchiveError>
    requires forall path :: path in walk ==> root.Holds(path)
  {
    EntriesNameFiles(p, root, walk);
    var entries :- Entries(p, root, walk);
    Ok([Packed(MANIFEST_NAME, true, p.encodeJson(ManifestJson(entries)), true)] + ObjectMembers(root, entries))
  }

  // ----- Reading the manifest -------------------------------------------------

  /** Python's view of a JSON value as an integer: a boolean is one. */
  function AsInteger(v: Json): Option<int> {
    match v
    case Int(i) => Some(i)
    case Bool(b) => Some(if b then 1 else 0)
    case _ => None
  }

  /** `value == 1`. */
  predicate EqualsOne(v: Json) {
    AsInteger(v) == Some(1) || v == Float(1.0)
  }

  type Manifest = map<string, Expected>

  function ReadItem(item: Json, expected: Manifest): Result<Entry, ArchiveError> {
    if !item.Object? then Err(InvalidObject)
    else
      var key, size, digest := Get(item.members, "key"), Get(item.members, "size"), Get(item.members, "sha256");
      if !(key.Some? && key.value.String? && size.Some? && AsInteger(size.value).Some?
           && AsInteger(size.value).value >= 0 && digest.Some? && digest.value.String?
           && |digest.value.s| == DIGEST_LENGTH && IsHex(digest.value.s)) then Err(InvalidMetadata)
      else if !ValidKey(key.value.s) then Err(InvalidKey)
      else if digest.value.s != DigestPart(key.value.s) || key.value.s in expected then Err(BadKey)
      else Ok(Entry(key.value.s, AsInteger(size.value).value, digest.value.s))
  }

  function ReadItems(items: seq<Json>): Result<Manifest, ArchiveError> {
    if items == [] then Ok(map[])
    else
      var expected :- ReadItems(items[..|items| - 1]);
      var entry :- ReadItem(items[|items| - 1], expected);
      Ok(expected[entry.key := Expected(entry.size, entry.digest)])
  }

  function ManifestItems(p: Platform, payload: Bytes): Result<seq<Json>, ArchiveError> {
    var value := p.parseJson(payload);
    if value.None? then Err(ManifestUnreadable)
    else if !value.value.Object? then Err(ManifestUnsupported)
    else
      var version, objects := Get(value.value.members, "schema_version"), Get(value.value.members, "objects");
      if version.None? || !EqualsOne(version.value) then Err(ManifestUnsupported)
      else if objects.None? || !objects.value.Array? then Err(NoObjectList)
      else Ok(objects.value.items)
  }

  function ReadManifest(p: Platform, payload: Bytes): Result<Manifest, ArchiveError> {
    var items :- ManifestItems(p, payload);
    ReadItems(items)
  }

  lemma {:induction false} ReadItemsFail(items: seq<Json>, i: nat)
    requires i <= |items| && ReadItems(items[..i]).Err?
    ensures ReadItems(items) == ReadItems(items[..i])
    decreases |items| - i
  {
    if i < |items| {
      assert items[..i + 1][..i] == items[..i];
      ReadItemsFail(items, i + 1);
    } else {
      assert items[..i] == items;
    }
  }

  /** `_manifest`: the loop over the listed objects. */
  method ParseManifest(p: Platform, payload: Bytes) returns (result: Result<Manifest, ArchiveError>)
    ensures result == ReadManifest(p, payload)
  {
    var objects := ManifestItems(p, payload);
    if objects.Err? {
      return Err(objects.error);
    }
    var items := objects.value;
    var expected: Manifest := map[];
    var i := 0;
    while i < |items|
      invariant 0 <= i <= |items|
      invariant ReadItems(items[..i]) == Ok(expected)
    {
      assert items[..i + 1][..i] == items[..i];
      var entry := ReadItem(items[i], expected);
      if entry.Err? {
        ReadItemsFail(items, i + 1);
        return Err(entry.error);
      }
      expected := expected[entry.value.key := Expected(entry.value.size, entry.value.digest)];
      i := i + 1;
    }
    assert items[..i] == items;
    return Ok(expected);
  }

  // ----- Restoring ------------------------------------------------------------

  /**
    One object: the directories are made before the content is checked, and an
    object already there must already be right.
   */
  function RestoreOne(p: Platform, root: Root, key: string, expected: Expected, content: Bytes, whole: bool):
    (Result<(), ArchiveError>, Root)
  {
    if !ValidKey(key) then (Err(InvalidKey), root)
    else if !(Parents(key) + {key} !! root.links) then (Err(SymlinkRefused), root)
    else if Parents(key) !! root.files.Keys + root.specials then
      var made := root.(dirs := root.dirs + Parents(key));
      if !whole then (Err(StreamFault), made)
      else if Measure(p, content) != expected then (Err(ContentMismatch), made)
      else if made.Holds(key) then
        if key !in root.files || key in made.dirs || Measure(p, root.files[key]) != expected
            then (Err(RefusesReplace), made)
        else (Ok(()), made)
      else (Ok(()), made.(files := root.files[key := content]))
    else (Err(PathBlocked), root)
  }

  /** Progress of a restore: the manifest once read, and the keys restored so far. */
  datatype Progress = Progress(expected: Option<Manifest>, restored: set<string>)

  function RestoreMembers(p: Platform, root: Root, progress: Progress, members: seq<TarMember>):
    (Result<nat, ArchiveError>, Root)
    decreases |members|
  {
    if members == [] then
      if progress.expected.None? || progress.restored != progress.expected.value.Keys then (Err(Incomplete), root)
      else (Ok(|progress.restored|), root)
    else if members[0].Broken? then (Err(StreamFault), root)
    else
      var member := members[0];
      if member.name == MANIFEST_NAME then
        if progress.expected.Some? || !member.isFile then (Err(InvalidManifestEntry), root)
        else if !member.whole then (Err(StreamFault), root)
        else
          var manifest := ReadManifest(p, member.content);
          if manifest.Err? then (Err(manifest.error), root)
          else RestoreMembers(p, root, progress.(expected := Some(manifest.value)), members[1..])
      else if !StartsWith(member.name, OBJECT_PREFIX) || !member.isFile then (Err(UnsupportedEntry), root)
      else if progress.expected.None? then (Err(ManifestNotFirst), root)
      else
        var key := member.name[|OBJECT_PREFIX|..];
        if key !in progress.expected.value || key in progress.restored then (Err(UnknownOrDuplicate), root)
        else
          var (done, after) := RestoreOne(p, root, key, progress.expected.value[key], member.content, member.whole);
          if done.Err? then (Err(done.error), after)
          else RestoreMembers(p, after, progress.(restored := progress.restored + {key}), members[1..])
  }

  const START := Progress(None, {})

  function Restore(p: Platform, root: Root, members: seq<TarMember>): (Result<nat, ArchiveError>, Root) {
    RestoreMembers(p, root, START, members)
  }

  // ----- The store on disk ----------------------------------------------------

  /** A root directory, changed file by file. */
  class ObjectStore {
    const p: Platform
    var files: map<string, Bytes>
    var dirs: set<string>
    var links: set<string>
    var specials: set<string>

    function Contents(): Root
      reads this
    {
      Root(files, dirs, links, specials)
    }

    constructor (p: Platform)
      ensures this.p == p && Contents() == EMPTY_ROOT
    {
      this.p := p;
      files, dirs, links, specials := map[], {}, {}, {};
    }

    /** Reads a file to its end, feeding the digest and counting, chunk by chunk. */
    method DigestContent(content: Bytes) returns (found: Expected)
      ensures found.size == |content| && found.digest == p.sha(content)
    {
      var fed: Bytes, size := [], 0;
      while size < |content|
        invariant 0 <= size <= |content| && fed == content[..size]
      {
        var next := if |content| - size < CHUNK_SIZE then |content| else size + CHUNK_SIZE;
        var chunk := content[size..next];
        fed := fed + chunk;
        size := size + |chunk|;
      }
      assert content[..size] == content;
      return Expected(size, p.sha(fed));
    }

    /** `_object_manifest`; `walk` lists every file and directory once. */
    method ObjectManifest(walk: seq<string>) returns (result: Result<seq<Entry>, ArchiveError>)
      requires forall path :: path in walk ==> Contents().Holds(path)
      ensures result == Entries(p, Contents(), walk)
    {
      var entries: seq<Entry> := [];
      var i := 0;
      while i < |walk|
        invariant 0 <= i <= |walk|
        invariant Entries(p, Contents(), walk[..i]) == Ok(entries)
      {
        assert walk[..i + 1][..i] == walk[..i];
        var path := walk[i];
        if path in links {
          EntriesFail(p, Contents(), walk, i + 1);
          return Err(SymlinkFound);
        }
        if path !in dirs {
          if path !in files {
            EntriesFail(p, Contents(), walk, i + 1);
            return Err(NonFileFound);
          }
          if !ValidKey(path) {
            EntriesFail(p, Contents(), walk, i + 1);
            return Err(InvalidKey);
          }
          var found := DigestContent(files[path]);
          if found.digest != DigestPart(path) {
            EntriesFail(p, Contents(), walk, i + 1);
            return Err(DigestMismatch);
          }
          entries := entries + [Entry(path, found.size, found.digest)];
        }
        i := i + 1;
      }
      assert walk[..i] == walk;
      return Ok(entries);
    }

    method CreateArchive(walk: seq<string>) returns (result: Result<(nat, seq<TarMember>), ArchiveError>)
      requires forall path :: path in walk ==> Contents().Holds(path)
      ensures result.Ok? == Archive(p, Contents(), walk).Ok?
      ensures result.Err? ==> Archive(p, Contents(), walk) == Err(result.error)
      ensures result.Ok? ==>
        Archive(p, Contents(), walk) == Ok(result.value.1) && result.value.0 + 1 == |result.value.1|
    {
      EntriesNameFiles(p, Contents(), walk);
      var listed := ObjectManifest(walk);
      if listed.Err? {
        return Err(listed.error);
      }
      var entries := listed.value;
      var members := [Packed(MANIFEST_NAME, true, p.encodeJson(ManifestJson(entries)), true)];
      ghost var head := members;
      var i := 0;
      while i < |entries|
        invariant 0 <= i <= |entries|
        invariant members == head + ObjectMembers(Contents(), entries)[..i]
      {
        members := members + [Packed(OBJECT_PREFIX + entries[i].key, true, files[entries[i].key], true)];
        i := i + 1;
      }
      assert ObjectMembers(Contents(), entries)[..i] == ObjectMembers(Contents(), entries);
      return Ok((|entries|, members));
    }

    method RestoreMember(key: string, expected: Expected, content: Bytes, whole: bool)
      returns (result: Result<(), ArchiveError>)
      modifies this
      ensures (result, Contents()) == RestoreOne(p, old(Contents()), key, expected, content, whole)
    {
      if !ValidKey(key) {
        return Err(InvalidKey);
      }
      if !(Parents(key) + {key} !! links) {
        return Err(SymlinkRefused);
      }
      if !(Parents(key) !! files.Keys + specials) {
        return Err(PathBlocked);
      }
      dirs := dirs + Parents(key);
      if !whole {
        return Err(StreamFault);
      }
      var found := DigestContent(content);
      if found != expected {
        return Err(ContentMismatch);
      }
      if Contents().Holds(key) {
        if key !in files || key in dirs {
          return Err(RefusesReplace);
        }
        var present := DigestContent(files[key]);
        if present != expected {
          return Err(RefusesReplace);
        }
      } else {
        files := files[key := content];
      }
      return Ok(());
    }

    method RestoreArchive(members: seq<TarMember>) returns (result: Result<nat, ArchiveError>)
      modifies this
      ensures (result, Contents()) == Restore(p, old(Contents()), members)
    {
      var expected: Option<Manifest> := None;
      var restored: set<string> := {};
      var i := 0;
      assert members[0..] == members;
      while i < |members|
        invariant 0 <= i <= |members|
        invariant Restore(p, old(Contents()), members) ==
                  RestoreMembers(p, Contents(), Progress(expected, restored), members[i..])
      {
        var member := members[i];
        assert members[i..][1..] == members[i + 1..];
        i := i + 1;
        if member.Broken? {
          return Err(StreamFault);
        }
        if member.name == MANIFEST_NAME {
          if expected.Some? || !member.isFile {
            return Err(InvalidManifestEntry);
          }
          if !member.whole {
            return Err(StreamFault);
          }
          var manifest := ParseManifest(p, member.content);
          if manifest.Err? {
            return Err(manifest.error);
          }
          expected := Some(manifest.value);
          continue;
        }
        if !StartsWith(member.name, OBJECT_PREFIX) || !member.isFile {
          return Err(UnsupportedEntry);
        }
        if expected.None? {
          return Err(ManifestNotFirst);
        }
        var key := member.name[|OBJECT_PREFIX|..];
        if key !in expected.value || key in restored {
          return Err(UnknownOrDuplicate);
        }
        var done := RestoreMember(key, expected.value[key], member.content, member.whole);
        if done.Err? {
          return Err(done.error);
        }
        restored := restored + {key};
      }
      if expected.None? || restored != expected.value.Keys {
        return Err(Incomplete);
      }
      return Ok(|restored|);
    }
  }

  lemma {:induction false} EntriesFail(p: Platform, root: Root, walk: seq<string>, i: nat)
    requires forall path :: path in walk ==> root.Holds(path)
    requires i <= |walk| && Entries(p, root, walk[..i]).Err?
    ensures Entries(p, root, walk) == Entries(p, root, walk[..i])
    decreases |walk| - i
  {
    if i < |walk| {
      assert walk[..i + 1][..i] == walk[..i];
      EntriesFail(p, root, walk, i + 1);
    } else {
      assert walk[..i] == walk;
    }
  }
}
