/**
  Safety of restoring any archive whatsoever, and convergence: restoring what was
  archived succeeds after any history of failed attempts.
 */
module ObjectArchiveLaws {
  import opened Prelude
  import opened Text
  import opened Json
  import opened ObjectArchive

  // ----- Keys -----------------------------------------------------------------

  function TotalLength(parts: seq<string>): nat {
    if parts == [] then 0 else |parts[0]| + TotalLength(parts[1..])
  }

  lemma {:induction false} SplitLength(s: string, c: char)
    ensures |s| == TotalLength(Split(s, c)) + |Split(s, c)| - 1
    decreases |s|
  {
    var k := IndexOf(s, c);
    if 0 <= k {
      SplitLength(s[k + 1..], c);
      assert Split(s, c)[1..] == Split(s[k + 1..], c);
    } else {
      assert [s][1..] == [];
    }
  }

  lemma KeyLength(key: string)
    requires ValidKey(key)
    ensures |key| == 77
  {
    var parts := Split(key, '/');
    SplitLength(key, '/');
    assert parts[1..][1..] == parts[2..] && parts[2..][1..] == parts[3..] && parts[3..][1..] == [];
    assert TotalLength(parts[3..]) == |parts[3]| + TotalLength([]);
    assert TotalLength(parts[2..]) == |parts[2]| + TotalLength(parts[3..]);
    assert TotalLength(parts[1..]) == |parts[1]| + TotalLength(parts[2..]);
  }

  /** Where the first separator stands, a string is split; `SplitOff` reads that the other way round. */
  lemma {:induction false} SplitAt(s: string, c: char, k: nat)
    requires k < |s| && s[k] == c && c !in s[..k]
    ensures Split(s, c) == [s[..k]] + Split(s[k + 1..], c)
  {
    IndexOfUnique(s, c, k);
  }

  lemma {:induction false} SplitOff(s: string, c: char)
    requires |Split(s, c)| > 1
    ensures
      var first := Split(s, c)[0];
      |first| < |s| && s[..|first|] == first && s[|first|] == c && Split(s[|first| + 1..], c) == Split(s, c)[1..]
  {
  }

  predicate HexDigit(c: char) {
    '0' <= c <= '9' || 'a' <= c <= 'f'
  }

  /** An object key, place by place. */
  predicate PlacedKey(key: string) {
    && |key| == 77 && key[..7] == "sha256/" && key[9] == '/' && key[12] == '/'
    && HexDigit(key[7]) && HexDigit(key[8]) && HexDigit(key[10]) && HexDigit(key[11])
    && forall i :: 13 <= i < 77 ==> HexDigit(key[i])
  }

  /** The form of an object key, with the directories above it and the digest in it. */
  lemma KeyForm(key: string)
    ensures ValidKey(key) <==> PlacedKey(key)
    ensures ValidKey(key) ==> DigestPart(key) == key[13..] && Parents(key) == {key[..6], key[..9], key[..12]}
  {
    if ValidKey(key) {
      ValidKeyForm(key);
    } else if PlacedKey(key) {
      FormOfValidKey(key);
    }
  }

  lemma ValidKeyForm(key: string)
    requires ValidKey(key)
    ensures PlacedKey(key)
    ensures DigestPart(key) == key[13..] && Parents(key) == {key[..6], key[..9], key[..12]}
  {
    KeyLength(key);
    SplitOff(key, '/');
    SplitOff(key[7..], '/');
    SplitOff(key[7..][3..], '/');
    var digest := key[7..][3..][3..];
    assert digest == key[13..] && IndexOf(digest, '/') < 0 && Split(digest, '/') == [digest];
    ParentsOfKey(key);
  }

  lemma FormOfValidKey(key: string)
    requires PlacedKey(key)
    ensures ValidKey(key)
  {
    assert IsHex(key[7..9]) && IsHex(key[10..12]) && IsHex(key[13..]);
    KeyParts(key, key[7..9], key[10..12], key[13..]);
  }

  lemma {:induction false} SplitStep(s: string, k: nat, first: string, rest: string, later: seq<string>)
    requires k < |s| && s[k] == '/' && first == s[..k] && '/' !in first && rest == s[k + 1..]
    requires Split(rest, '/') == later
    ensures Split(s, '/') == [first] + later
  {
    SplitAt(s, '/', k);
  }

  lemma {:induction false} KeyParts(key: string, first: string, second: string, digest: string)
    requires |key| == 77 && key[..7] == "sha256/" && key[9] == '/' && key[12] == '/'
    requires first == key[7..9] && second == key[10..12] && digest == key[13..]
    requires IsHex(first) && IsHex(second) && IsHex(digest)
    ensures Split(key, '/') == ["sha256", first, second, digest]
  {
    assert Split(digest, '/') == [digest];
    SplitStep(key[10..], 2, second, digest, [digest]);
    SplitStep(key[7..], 2, first, key[10..], [second, digest]);
    assert key[..6] == key[..7][..6] == "sha256" && key[6] == key[..7][6];
    SplitStep(key, 6, "sha256", key[7..], [first, second, digest]);
  }

  lemma ParentsOfKey(key: string)
    requires PlacedKey(key)
    ensures Parents(key) == {key[..6], key[..9], key[..12]}
  {
    assert forall i :: 0 <= i < 7 ==> key[i] == key[..7][i];
    assert forall i :: 0 <= i < 77 && key[i] == '/' ==> i == 6 || i == 9 || i == 12;
  }

  /** No directory above an object has the form of an object key itself. */
  lemma ParentsAreNoKeys(key: string, dir: string)
    requires ValidKey(key) && dir in Parents(key)
    ensures !ValidKey(dir)
  {
    KeyLength(key);
    if ValidKey(dir) {
      KeyLength(dir);
    }
  }

  // ----- Safety ---------------------------------------------------------------

  /** Keys are well formed and name the digests they are listed with. */
  ghost predicate Sound(m: Manifest) {
    forall key :: key in m ==> ValidKey(key) && m[key].digest == DigestPart(key)
  }

  lemma {:induction false} ManifestsAreSound(items: seq<Json>)
    requires ReadItems(items).Ok?
    ensures Sound(ReadItems(items).value) && |ReadItems(items).value| == |items|
  {
    if items != [] {
      ManifestsAreSound(items[..|items| - 1]);
    }
  }

  /** Nothing that was there has changed, and what is new is named by its own digest. */
  ghost predicate SafelyGrown(p: Platform, before: Root, after: Root) {
    && before.files.Keys <= after.files.Keys
    && (forall key :: key in before.files ==> after.files[key] == before.files[key])
    && (forall key :: key in after.files && key !in before.files ==>
          ValidKey(key) && p.sha(after.files[key]) == DigestPart(key))
    && before.dirs <= after.dirs
    && (forall dir :: dir in after.dirs && dir !in before.dirs ==> !ValidKey(dir))
    && after.links == before.links && after.specials == before.specials
  }

  lemma RestoreOneIsSafe(p: Platform, root: Root, key: string, expected: Expected, content: Bytes, whole: bool)
    requires ValidKey(key) && expected.digest == DigestPart(key)
    ensures
      var (result, after) := RestoreOne(p, root, key, expected, content, whole);
      && SafelyGrown(p, root, after)
      && after.files.Keys <= root.files.Keys + {key}
      && (result.Ok? ==>
            key in after.files && |after.files[key]| == expected.size && p.sha(after.files[key]) == expected.digest)
  {
    forall dir | dir in Parents(key) ensures !ValidKey(dir) {
      ParentsAreNoKeys(key, dir);
    }
  }

  lemma SafelyGrownTransitive(p: Platform, a: Root, b: Root, c: Root)
    requires SafelyGrown(p, a, b) && SafelyGrown(p, b, c)
    ensures SafelyGrown(p, a, c)
  {
  }

  /** The listed objects among `keys` are in the root, with the listed size and digest. */
  ghost predicate Present(p: Platform, root: Root, m: Manifest, keys: set<string>) {
    && keys <= m.Keys && keys <= root.files.Keys
    && forall key :: key in keys ==> |root.files[key]| == m[key].size && p.sha(root.files[key]) == m[key].digest
  }

  lemma PresentAfter(p: Platform, before: Root, after: Root, m: Manifest, keys: set<string>)
    requires Present(p, before, m, keys) && SafelyGrown(p, before, after)
    ensures Present(p, after, m, keys)
  {
  }

  /** Restoring after the manifest has been read. */
  lemma {:induction false} RestoreObjects(p: Platform, root: Root, m: Manifest, restored: set<string>,
      members: seq<TarMember>)
    requires Sound(m) && Present(p, root, m, restored)
    ensures
      var (result, after) := RestoreMembers(p, root, Progress(Some(m), restored), members);
      && SafelyGrown(p, root, after)
      && after.files.Keys <= root.files.Keys + m.Keys
      && (result.Ok? ==> result.value == |m| && Present(p, after, m, m.Keys))
    decreases |members|
  {
    if members != [] && members[0].Packed? && members[0].name != MANIFEST_NAME
       && StartsWith(members[0].name, OBJECT_PREFIX) && members[0].isFile {
      var key := members[0].name[|OBJECT_PREFIX|..];
      if key in m && key !in restored {
        RestoreOneIsSafe(p, root, key, m[key], members[0].content, members[0].whole);
        var (done, after) := RestoreOne(p, root, key, m[key], members[0].content, members[0].whole);
        if done.Ok? {
          PresentAfter(p, root, after, m, restored);
          RestoreObjects(p, after, m, restored + {key}, members[1..]);
          SafelyGrownTransitive(p, root, after,
            RestoreMembers(p, after, Progress(Some(m), restored + {key}), members[1..]).1);
        }
      }
    } else if members == [] && restored == m.Keys {
      assert |m.Keys| == |m|;
    }
  }

  /** The manifest of an archive, when its first member is a readable one. */
  function ArchiveManifest(p: Platform, members: seq<TarMember>): Option<Manifest> {
    if members != [] && members[0].Packed? && members[0].name == MANIFEST_NAME && members[0].isFile && members[0].whole
       && ReadManifest(p, members[0].content).Ok?
    then Some(ReadManifest(p, members[0].content).value) else None
  }

  /**
    Any archive at all, whether restoring it succeeds or fails part way: no file
    already there changes, every new file lies at a key that its content hashes to
    and that the manifest lists; and success means that exactly the manifest's
    objects were restored.
   */
  lemma RestoreIsSafe(p: Platform, root: Root, members: seq<TarMember>)
    ensures
      var (result, after) := Restore(p, root, members);
      var manifest := ArchiveManifest(p, members);
      && SafelyGrown(p, root, after)
      && (manifest.None? ==> result.Err? && after == root)
      && (manifest.Some? ==> after.files.Keys <= root.files.Keys + manifest.value.Keys)
      && (result.Ok? ==> result.value == |manifest.value| && Present(p, after, manifest.value, manifest.value.Keys))
  {
    if ArchiveManifest(p, members).Some? {
      var m := ArchiveManifest(p, members).value;
      ManifestsAreSound(ManifestItems(p, members[0].content).value);
      RestoreObjects(p, root, m, {}, members[1..]);
    }
  }

  // ----- Clean roots ----------------------------------------------------------

  /** Only objects, each named by its own digest, and no directory in the place of one. */
  ghost predicate Clean(p: Platform, root: Root) {
    && (forall key :: key in root.files ==> ValidKey(key) && p.sha(root.files[key]) == DigestPart(key))
    && (forall dir :: dir in root.dirs ==> !ValidKey(dir))
    && root.links == {} && root.specials == {}
  }

  /** The root after any number of restores, of any archives, each failed or not. */
  function RestoreAll(p: Platform, root: Root, archives: seq<seq<TarMember>>): Root {
    if archives == [] then root
    else Restore(p, RestoreAll(p, root, archives[..|archives| - 1]), archives[|archives| - 1]).1
  }

  lemma {:induction false} RestoresStayClean(p: Platform, root: Root, archives: seq<seq<TarMember>>)
    requires Clean(p, root)
    ensures Clean(p, RestoreAll(p, root, archives)) && SafelyGrown(p, root, RestoreAll(p, root, archives))
  {
    if archives != [] {
      var init := archives[..|archives| - 1];
      RestoresStayClean(p, root, init);
      var before := RestoreAll(p, root, init);
      RestoreIsSafe(p, before, archives[|archives| - 1]);
      SafelyGrownTransitive(p, root, before, RestoreAll(p, root, archives));
    }
  }

  /** Where both roots hold an object, a different content would have a different digest. */
  ghost predicate NoCollision(p: Platform, a: Root, b: Root) {
    forall key :: key in a.files && key in b.files && p.sha(a.files[key]) == p.sha(b.files[key]) ==>
      a.files[key] == b.files[key]
  }

  /** `walk` lists everything in the root once. */
  ghost predicate Walks(root: Root, walk: seq<string>) {
    && Distinct(walk) && root.files.Keys !! root.dirs
    && (root.files.Keys + root.dirs) !! (root.links + root.specials)
    && (forall path :: path in walk <==> root.Holds(path))
  }

  // ----- What is archived -----------------------------------------------------

  /**
    Archiving succeeds exactly when every file lies at the key of its own digest,
    and only directories lie beside them.
   */
  lemma ArchiveExactly(p: Platform, source: Root, walk: seq<string>)
    requires Walks(source, walk)
    ensures Archive(p, source, walk).Ok? <==>
      && source.links == {} && source.specials == {}
      && forall key :: key in source.files ==> ValidKey(key) && p.sha(source.files[key]) == DigestPart(key)
  {
    EntriesExactly(p, source, walk);
    if source.links != {} {
      var path :| path in source.links;
      assert path in walk && !Archivable(p, source, path);
    } else if source.specials != {} {
      var path :| path in source.specials;
      assert path in walk && !Archivable(p, source, path);
    } else {
      assert forall path :: path in walk ==> path in source.files || path in source.dirs;
      assert forall key :: key in source.files ==> key in walk && key !in source.dirs;
    }
  }

  /** A path that the walk may meet. */
  predicate Archivable(p: Platform, source: Root, path: string) {
    && path !in source.links
    && (path in source.dirs ||
        (path in source.files && ValidKey(path) && p.sha(source.files[path]) == DigestPart(path)))
  }

  lemma {:induction false} EntriesExactly(p: Platform, source: Root, walk: seq<string>)
    requires forall path :: path in walk ==> source.Holds(path)
    ensures Entries(p, source, walk).Ok? <==> forall path :: path in walk ==> Archivable(p, source, path)
  {
    if walk != [] {
      var init, last := walk[..|walk| - 1], walk[|walk| - 1];
      assert walk == init + [last];
      EntriesExactly(p, source, init);
      assert last in walk && forall path :: path in init ==> path in walk;
    }
  }

  /** Why a walked path stops the listing, unless it is a directory or an object in its place. */
  ghost predicate StopsListing(p: Platform, root: Root, path: string, e: ArchiveError) {
    if path in root.links then e == SymlinkFound
    else if path in root.dirs then false
    else if path !in root.files then e == NonFileFound
    else if !ValidKey(path) then e == InvalidKey
    else p.sha(root.files[path]) != DigestPart(path) && e == DigestMismatch
  }

  /** A refused listing names the defect of the first path that may not be met. */
  lemma {:induction false} ListingStopsAtFirst(p: Platform, source: Root, walk: seq<string>) returns (i: nat)
    requires forall path :: path in walk ==> source.Holds(path)
    requires Entries(p, source, walk).Err?
    ensures i < |walk| && StopsListing(p, source, walk[i], Entries(p, source, walk).error)
    ensures forall j :: 0 <= j < i ==> Archivable(p, source, walk[j])
  {
    var init := walk[..|walk| - 1];
    if Entries(p, source, init).Err? {
      i := ListingStopsAtFirst(p, source, init);
    } else {
      i := |init|;
      EntriesExactly(p, source, init);
      assert forall j :: 0 <= j < i ==> walk[j] in init;
    }
  }

  /** An entry describes a file of the source that lies at the key of its own digest. */
  ghost predicate EntryOf(p: Platform, source: Root, e: Entry) {
    && e.key in source.files && ValidKey(e.key)
    && e.size == |source.files[e.key]| && e.digest == p.sha(source.files[e.key]) == DigestPart(e.key)
  }

  ghost predicate EntriesOf(p: Platform, source: Root, entries: seq<Entry>) {
    && DistinctKeys(entries)
    && (forall i :: 0 <= i < |entries| ==> EntryOf(p, source, entries[i]))
  }

  ghost predicate DistinctKeys(entries: seq<Entry>) {
    forall i, j :: 0 <= i < j < |entries| ==> entries[i].key != entries[j].key
  }

  function EntryKeys(entries: seq<Entry>): set<string> {
    set i | 0 <= i < |entries| :: entries[i].key
  }

  lemma {:induction false} EntriesListFiles(p: Platform, source: Root, walk: seq<string>)
    requires forall path :: path in walk ==> source.Holds(path)
    requires Distinct(walk) && Entries(p, source, walk).Ok?
    ensures EntriesOf(p, source, Entries(p, source, walk).value)
    ensures EntryKeys(Entries(p, source, walk).value) == (set path | path in walk && path !in source.dirs)
  {
    EntriesNameFiles(p, source, walk);
    if walk != [] {
      var init, last := walk[..|walk| - 1], walk[|walk| - 1];
      assert walk == init + [last] && last !in init;
      EntriesListFiles(p, source, init);
      EntriesNameFiles(p, source, init);
      if last !in source.dirs {
        var earlier, entries := Entries(p, source, init).value, Entries(p, source, walk).value;
        KeysSnoc(earlier, entries[|earlier|]);
      }
    }
  }

  lemma KeysSnoc(entries: seq<Entry>, e: Entry)
    ensures EntryKeys(entries + [e]) == EntryKeys(entries) + {e.key}
  {
    var longer := entries + [e];
    assert longer[|entries|] == e;
    assert forall i :: 0 <= i < |entries| ==> longer[i] == entries[i];
  }

  // ----- What an archive holds ------------------------------------------------

  /** The listed files stand in the order of the walk. */
  lemma {:induction false} EntriesKeepOrder(p: Platform, source: Root, walk: seq<string>)
    requires forall path :: path in walk ==> source.Holds(path)
    requires Distinct(walk) && Entries(p, source, walk).Ok?
    ensures WalkOrder(Entries(p, source, walk).value, walk)
  {
    if walk != [] {
      var init, last := walk[..|walk| - 1], walk[|walk| - 1];
      assert walk == init + [last];
      EntriesKeepOrder(p, source, init);
      EntriesNameFiles(p, source, init);
      var earlier, entries := Entries(p, source, init).value, Entries(p, source, walk).value;
      forall i, j, a, b | 0 <= i < j < |entries| && FoundAt(walk, a, entries[i]) && FoundAt(walk, b, entries[j])
        ensures a < b
      {
        assert entries[i] == earlier[i] && Describes(p, source, init, earlier[i]);
        assert FoundAt(init, a, earlier[i]);
        if j < |earlier| {
          assert entries[j] == earlier[j] && Describes(p, source, init, earlier[j]);
          assert FoundAt(init, b, earlier[j]);
        }
      }
    }
  }

  ghost predicate FoundAt(walk: seq<string>, a: int, e: Entry) {
    0 <= a < |walk| && walk[a] == e.key
  }

  ghost predicate WalkOrder(entries: seq<Entry>, walk: seq<string>) {
    forall i, j, a, b ::
      0 <= i < j < |entries| && FoundAt(walk, a, entries[i]) && FoundAt(walk, b, entries[j]) ==> a < b
  }

  /** What a manifest says of the object in a tar member: its key, its size and its digest. */
  ghost predicate Lists(p: Platform, source: Root, item: Json, member: TarMember) {
    && item.Object? && member.Packed? && member.isFile && member.whole
    && var key := Get(item.members, "key");
    && key.Some? && key.value.String? && key.value.s in source.files && ValidKey(key.value.s)
    && var content := source.files[key.value.s];
    && Get(item.members, "size") == Some(Int(|content|))
    && Get(item.members, "sha256") == Some(String(p.sha(content)))
    && member.name == "objects/" + key.value.s && member.content == content
  }

  /** What a list in a manifest says of the objects behind it, in their order. */
  ghost predicate ListsAll(p: Platform, source: Root, items: seq<Json>, objects: seq<TarMember>) {
    |objects| == |items| && forall i :: 0 <= i < |items| ==> Lists(p, source, items[i], objects[i])
  }

  /** The manifest in front of the objects: version one and a list that describes each object, in their order. */
  lemma {:induction false} ArchiveHolds(p: Platform, source: Root, walk: seq<string>)
    returns (manifest: Json, items: seq<Json>)
    requires Walks(source, walk) && Archive(p, source, walk).Ok?
    ensures
      var members := Archive(p, source, walk).value;
      && |members| == 1 + |source.files|
      && members[0] == Packed("manifest.json", true, p.encodeJson(manifest), true)
      && manifest.Object? && Get(manifest.members, "schema_version") == Some(Int(1))
      && Get(manifest.members, "objects") == Some(Array(items))
      && ListsAll(p, source, items, members[1..])
  {
    var entries := Entries(p, source, walk).value;
    manifest, items := ManifestJson(entries), EntriesJson(entries);
    EntriesListFiles(p, source, walk);
    AsManyEntries(p, source, walk, entries);
    ManifestByKey(entries);
    ObjectsListed(p, source, entries);
    assert Archive(p, source, walk).value[1..] == ObjectMembers(source, entries);
  }

  lemma AsManyEntries(p: Platform, source: Root, walk: seq<string>, entries: seq<Entry>)
    requires Walks(source, walk) && EntriesOf(p, source, entries)
    requires EntryKeys(entries) == (set path | path in walk && path !in source.dirs)
    ensures |entries| == |source.files|
  {
    ListingKeys(entries);
    assert forall key :: key in EntryKeys(entries) ==> key in source.files;
    assert EntryKeys(entries) == source.files.Keys;
    assert |source.files.Keys| == |source.files|;
  }

  lemma ManifestByKey(entries: seq<Entry>)
    ensures ManifestJson(entries).Object?
    ensures Get(ManifestJson(entries).members, "schema_version") == Some(Int(1))
    ensures Get(ManifestJson(entries).members, "objects") == Some(Array(EntriesJson(entries)))
  {
    var members := ManifestJson(entries).members;
    GetMember(members, 0);
    GetMember(members, 1);
  }

  lemma ObjectsListed(p: Platform, source: Root, entries: seq<Entry>)
    requires EntriesOf(p, source, entries)
    ensures forall i :: 0 <= i < |entries| ==> entries[i].key in source.files
    ensures ListsAll(p, source, EntriesJson(entries), ObjectMembers(source, entries))
  {
    forall i | 0 <= i < |entries|
      ensures entries[i].key in source.files
      ensures Lists(p, source, EntryJson(entries[i]),
                    Packed(OBJECT_PREFIX + entries[i].key, true, source.files[entries[i].key], true))
    {
      EntryLists(p, source, entries[i]);
    }
  }

  lemma EntryLists(p: Platform, source: Root, e: Entry)
    requires EntryOf(p, source, e)
    ensures Lists(p, source, EntryJson(e), Packed(OBJECT_PREFIX + e.key, true, source.files[e.key], true))
  {
    var item := EntryJson(e).members;
    GetMember(item, 0);
    GetMember(item, 1);
    GetMember(item, 2);
  }

  // ----- Reading back the manifest --------------------------------------------

  function Listing(entries: seq<Entry>): Manifest {
    if entries == [] then map[]
    else
      var e := entries[|entries| - 1];
      Listing(entries[..|entries| - 1])[e.key := Expected(e.size, e.digest)]
  }

  lemma {:induction false} ListingKeys(entries: seq<Entry>)
    requires DistinctKeys(entries)
    ensures Listing(entries).Keys == EntryKeys(entries) && |Listing(entries)| == |entries|
  {
    if entries != [] {
      var init, e := entries[..|entries| - 1], entries[|entries| - 1];
      assert entries == init + [e];
      ListingKeys(init);
      KeysSnoc(init, e);
      assert e.key !in EntryKeys(init);
    }
  }

  lemma {:induction false} ListingAt(entries: seq<Entry>, i: nat)
    requires DistinctKeys(entries) && i < |entries|
    ensures entries[i].key in Listing(entries)
    ensures Listing(entries)[entries[i].key] == Expected(entries[i].size, entries[i].digest)
  {
    if i < |entries| - 1 {
      ListingAt(entries[..|entries| - 1], i);
    }
  }

  function EntriesJson(entries: seq<Entry>): seq<Json> {
    seq(|entries|, i requires 0 <= i < |entries| => EntryJson(entries[i]))
  }

  lemma ReadEntry(p: Platform, e: Entry, expected: Manifest)
    requires ValidKey(e.key) && e.digest == DigestPart(e.key) && e.size >= 0 && e.key !in expected
    ensures ReadItem(EntryJson(e), expected) == Ok(e)
  {
    var members := EntryJson(e).members;
    GetMember(members, 0);
    GetMember(members, 1);
    GetMember(members, 2);
  }

  lemma LastEntry(p: Platform, source: Root, entries: seq<Entry>)
    requires EntriesOf(p, source, entries) && entries != []
    ensures
      var init, e := entries[..|entries| - 1], entries[|entries| - 1];
      && EntriesOf(p, source, init) && EntryOf(p, source, e) && e.key !in Listing(init)
      && EntriesJson(entries) == EntriesJson(init) + [EntryJson(e)]
  {
    var init, e := entries[..|entries| - 1], entries[|entries| - 1];
    assert entries == init + [e];
    assert forall i :: 0 <= i < |init| ==> init[i] == entries[i];
    ListingKeys(init);
    assert e.key !in EntryKeys(init);
    EntriesJsonSnoc(init, e);
  }

  lemma EntriesJsonSnoc(init: seq<Entry>, e: Entry)
    ensures EntriesJson(init + [e]) == EntriesJson(init) + [EntryJson(e)]
  {
  }

  lemma {:induction false} ReadEntries(p: Platform, source: Root, entries: seq<Entry>)
    requires EntriesOf(p, source, entries)
    ensures ReadItems(EntriesJson(entries)) == Ok(Listing(entries))
  {
    if entries != [] {
      var init, e := entries[..|entries| - 1], entries[|entries| - 1];
      LastEntry(p, source, entries);
      ReadEntries(p, source, init);
      ReadEntry(p, e, Listing(init));
      ReadItemsSnoc(EntriesJson(init), EntryJson(e), Listing(init), e);
    }
  }

  lemma {:induction false} ReadItemsSnoc(items: seq<Json>, item: Json, expected: Manifest, e: Entry)
    requires ReadItems(items) == Ok(expected) && ReadItem(item, expected) == Ok(e)
    ensures ReadItems(items + [item]) == Ok(expected[e.key := Expected(e.size, e.digest)])
  {
    assert (items + [item])[..|items|] == items;
  }

  lemma {:induction false} ManifestReadsBack(p: Platform, source: Root, entries: seq<Entry>)
    requires EntriesOf(p, source, entries)
    requires p.parseJson(p.encodeJson(ManifestJson(entries))) == Some(ManifestJson(entries))
    ensures ReadManifest(p, p.encodeJson(ManifestJson(entries))) == Ok(Listing(entries))
  {
    var members := ManifestJson(entries).members;
    GetMember(members, 0);
    GetMember(members, 1);
    ReadEntries(p, source, entries);
  }

  // ----- Convergence ----------------------------------------------------------

  /** The root with one object of `source` added. */
  function Added(root: Root, source: Root, key: string): Root
    requires key in source.files
  {
    root.(files := root.files[key := source.files[key]], dirs := root.dirs + Parents(key))
  }

  /** The root with the listed objects of `source` added. */
  function WithObjects(root: Root, source: Root, entries: seq<Entry>): Root
    requires forall i :: 0 <= i < |entries| ==> entries[i].key in source.files
    decreases |entries|
  {
    if entries == [] then root
    else
      var key := entries[0].key;
      WithObjects(Added(root, source, key), source, entries[1..])
  }

  lemma OneObjectConverges(p: Platform, root: Root, source: Root, key: string)
    requires Clean(p, root) && NoCollision(p, root, source)
    requires key in source.files && ValidKey(key) && p.sha(source.files[key]) == DigestPart(key)
    ensures
      var after := Added(root, source, key);
      var expected := Expected(|source.files[key]|, p.sha(source.files[key]));
      && RestoreOne(p, root, key, expected, source.files[key], true) == (Ok(()), after)
      && Clean(p, after)
  {
    KeyLength(key);
    forall dir | dir in Parents(key) ensures !ValidKey(dir) && dir !in root.files {
      ParentsAreNoKeys(key, dir);
    }
    if key in root.files {
      assert root.files[key] == source.files[key];
      assert root.files[key := source.files[key]] == root.files;
    }
  }

  /** One member of the archive, read when the keys before it have been restored. */
  lemma {:induction false} MemberStep(p: Platform, root: Root, m: Manifest, restored: set<string>, key: string,
      content: Bytes,
                   after: Root, rest: seq<TarMember>)
    requires key in m && key !in restored
    requires RestoreOne(p, root, key, m[key], content, true) == (Ok(()), after)
    ensures RestoreMembers(p, root, Progress(Some(m), restored),
                           [Packed(OBJECT_PREFIX + key, true, content, true)] + rest)
            == RestoreMembers(p, after, Progress(Some(m), restored + {key}), rest)
  {
    ObjectName(key);
    var members := [Packed(OBJECT_PREFIX + key, true, content, true)] + rest;
    assert members[1..] == rest;
  }

  ghost predicate Remaining(m: Manifest, restored: set<string>, entries: seq<Entry>) {
    && restored + EntryKeys(entries) == m.Keys && restored !! EntryKeys(entries)
    && DistinctKeys(entries)
    && forall i :: 0 <= i < |entries| ==>
      entries[i].key in m && m[entries[i].key] == Expected(entries[i].size, entries[i].digest)
  }

  lemma RemainingStep(m: Manifest, restored: set<string>, entries: seq<Entry>)
    requires Remaining(m, restored, entries) && entries != []
    ensures entries[0].key in m && entries[0].key !in restored
    ensures Remaining(m, restored + {entries[0].key}, entries[1..])
  {
    var e, rest := entries[0], entries[1..];
    assert entries == [e] + rest;
    assert EntryKeys(entries) == {e.key} + EntryKeys(rest) by {
      assert forall i :: 0 < i < |entries| ==> entries[i] == rest[i - 1];
      assert forall i :: 0 <= i < |rest| ==> rest[i] == entries[i + 1];
    }
    assert e.key !in EntryKeys(rest);
  }

  lemma StillNoCollision(p: Platform, root: Root, source: Root, key: string)
    requires NoCollision(p, root, source) && key in source.files
    ensures NoCollision(p, Added(root, source, key), source)
  {
  }

  ghost predicate AllEntriesOf(p: Platform, source: Root, entries: seq<Entry>) {
    forall i :: 0 <= i < |entries| ==> entries[i].key in source.files && EntryOf(p, source, entries[i])
  }

  lemma FirstEntry(p: Platform, source: Root, entries: seq<Entry>)
    requires AllEntriesOf(p, source, entries) && entries != []
    ensures EntryOf(p, source, entries[0]) && AllEntriesOf(p, source, entries[1..])
    ensures ObjectMembers(source, entries) ==
            [Packed(OBJECT_PREFIX + entries[0].key, true, source.files[entries[0].key], true)] +
            ObjectMembers(source, entries[1..])
  {
  }

  /** Restoring the remaining members of an archive, some having been restored. */
  lemma {:induction false} ObjectsConverge(p: Platform, root: Root, source: Root, m: Manifest,
                                           restored: set<string>, entries: seq<Entry>)
    requires Remaining(m, restored, entries) && AllEntriesOf(p, source, entries)
    requires Clean(p, root) && NoCollision(p, root, source)
    ensures RestoreMembers(p, root, Progress(Some(m), restored), ObjectMembers(source, entries))
            == (Ok(|m|), WithObjects(root, source, entries))
    decreases |entries|
  {
    if entries == [] {
      assert restored == m.Keys && |m.Keys| == |m|;
    } else {
      var e, rest := entries[0], entries[1..];
      var after := Added(root, source, e.key);
      FirstEntry(p, source, entries);
      OneObjectConverges(p, root, source, e.key);
      RemainingStep(m, restored, entries);
      StillNoCollision(p, root, source, e.key);
      ObjectsConverge(p, after, source, m, restored + {e.key}, rest);
      MemberStep(p, root, m, restored, e.key, source.files[e.key], after, ObjectMembers(source, rest));
    }
  }

  lemma ObjectName(key: string)
    ensures OBJECT_PREFIX + key != MANIFEST_NAME && StartsWith(OBJECT_PREFIX + key, OBJECT_PREFIX)
    ensures (OBJECT_PREFIX + key)[|OBJECT_PREFIX|..] == key
  {
    assert (OBJECT_PREFIX + key)[0] == 'o';
  }

  lemma {:induction false} WithObjectsFiles(root: Root, source: Root, entries: seq<Entry>)
    requires forall i :: 0 <= i < |entries| ==> entries[i].key in source.files
    ensures WithObjects(root, source, entries).files.Keys == root.files.Keys + EntryKeys(entries)
    ensures forall key :: key in WithObjects(root, source, entries).files ==>
      WithObjects(root, source, entries).files[key] ==
      if key in EntryKeys(entries) then source.files[key] else root.files[key]
    decreases |entries|
  {
    if entries != [] {
      var key := entries[0].key;
      WithObjectsFiles(Added(root, source, key), source, entries[1..]);
      assert EntryKeys(entries) == {key} + EntryKeys(entries[1..]) by {
        assert forall i :: 0 < i < |entries| ==> entries[i] == entries[1..][i - 1];
        assert forall i :: 0 <= i < |entries[1..]| ==> entries[1..][i] == entries[i + 1];
      }
    }
  }

  lemma {:induction false} WithObjectsDirs(root: Root, source: Root, entries: seq<Entry>)
    requires forall i :: 0 <= i < |entries| ==> entries[i].key in source.files
    ensures root.dirs <= WithObjects(root, source, entries).dirs
    ensures forall i :: 0 <= i < |entries| ==> Parents(entries[i].key) <= WithObjects(root, source, entries).dirs
    decreases |entries|
  {
    if entries != [] {
      var key := entries[0].key;
      WithObjectsDirs(Added(root, source, key), source, entries[1..]);
      assert forall i :: 0 < i < |entries| ==> entries[i] == entries[1..][i - 1];
    }
  }

  /** Adding objects that are all there already changes nothing. */
  lemma {:induction false} WithObjectsAgain(root: Root, source: Root, entries: seq<Entry>)
    requires forall i :: 0 <= i < |entries| ==>
      && entries[i].key in source.files && entries[i].key in root.files
      && root.files[entries[i].key] == source.files[entries[i].key] && Parents(entries[i].key) <= root.dirs
    ensures WithObjects(root, source, entries) == root
    decreases |entries|
  {
    if entries != [] {
      var key := entries[0].key;
      assert root.files[key := source.files[key]] == root.files && root.dirs + Parents(key) == root.dirs;
      WithObjectsAgain(root, source, entries[1..]);
    }
  }

  /** What restoring an archive of `source` comes to on a clean root. */
  lemma {:induction false} RestoreConverges(p: Platform, root: Root, source: Root, walk: seq<string>)
    requires Walks(source, walk) && Archive(p, source, walk).Ok?
    requires Clean(p, root) && NoCollision(p, root, source)
    requires
      var manifest := ManifestJson(Entries(p, source, walk).value);
      p.parseJson(p.encodeJson(manifest)) == Some(manifest)
    ensures
      var (result, after) := Restore(p, root, Archive(p, source, walk).value);
      && result == Ok(|source.files|)
      && after.files == root.files + source.files
      && Restore(p, after, Archive(p, source, walk).value) == (Ok(|source.files|), after)
  {
    var members, entries := Archive(p, source, walk).value, Entries(p, source, walk).value;
    EntriesListFiles(p, source, walk);
    assert EntryKeys(entries) == source.files.Keys;
    ListingKeys(entries);
    assert |entries| == |source.files.Keys|;
    RestoresTwice(p, root, source, entries, members);
  }

  lemma RestoresTwice(p: Platform, root: Root, source: Root, entries: seq<Entry>, members: seq<TarMember>)
    requires EntriesOf(p, source, entries) && EntryKeys(entries) == source.files.Keys
    requires Clean(p, root) && NoCollision(p, root, source)
    requires p.parseJson(p.encodeJson(ManifestJson(entries))) == Some(ManifestJson(entries))
    requires members == [Packed(MANIFEST_NAME, true, p.encodeJson(ManifestJson(entries)), true)] +
        ObjectMembers(source, entries)
    ensures
      var (result, after) := Restore(p, root, members);
      && result == Ok(|entries|) && after.files == root.files + source.files
      && Restore(p, after, members) == (Ok(|entries|), after)
  {
    ArchiveRestores(p, root, source, entries, members);
    var after := WithObjects(root, source, entries);
    UnionFiles(p, root, source, entries);
    RestoreIsSafe(p, root, members);
    assert Clean(p, after);
    ArchiveRestores(p, after, source, entries, members);
    assert forall i :: 0 <= i < |entries| ==> EntryOf(p, source, entries[i]);
    WithObjectsDirs(root, source, entries);
    WithObjectsAgain(after, source, entries);
  }

  lemma {:induction false} ArchiveRestores(p: Platform, root: Root, source: Root, entries: seq<Entry>,
      members: seq<TarMember>)
    requires EntriesOf(p, source, entries) && Clean(p, root) && NoCollision(p, root, source)
    requires p.parseJson(p.encodeJson(ManifestJson(entries))) == Some(ManifestJson(entries))
    requires members == [Packed(MANIFEST_NAME, true, p.encodeJson(ManifestJson(entries)), true)] +
        ObjectMembers(source, entries)
    ensures Restore(p, root, members) == (Ok(|entries|), WithObjects(root, source, entries))
  {
    ManifestReadsBack(p, source, entries);
    ListingKeys(entries);
    forall i | 0 <= i < |entries|
      ensures entries[i].key in Listing(entries)
      ensures Listing(entries)[entries[i].key] == Expected(entries[i].size, entries[i].digest)
    {
      ListingAt(entries, i);
    }
    assert Remaining(Listing(entries), {}, entries);
    ObjectsConverge(p, root, source, Listing(entries), {}, entries);
    ManifestFirst(p, root, p.encodeJson(ManifestJson(entries)), Listing(entries), ObjectMembers(source, entries));
  }

  /** A readable manifest in front lets the objects behind it be restored. */
  lemma {:induction false} ManifestFirst(p: Platform, root: Root, payload: Bytes, m: Manifest, rest: seq<TarMember>)
    requires ReadManifest(p, payload) == Ok(m)
    ensures Restore(p, root, [Packed(MANIFEST_NAME, true, payload, true)] + rest) ==
            RestoreMembers(p, root, Progress(Some(m), {}), rest)
  {
    assert ([Packed(MANIFEST_NAME, true, payload, true)] + rest)[1..] == rest;
  }

  lemma {:induction false} UnionFiles(p: Platform, root: Root, source: Root, entries: seq<Entry>)
    requires forall i :: 0 <= i < |entries| ==> entries[i].key in source.files
    requires EntryKeys(entries) == source.files.Keys
    requires NoCollision(p, root, source)
    ensures WithObjects(root, source, entries).files == root.files + source.files
    ensures NoCollision(p, WithObjects(root, source, entries), source)
  {
    WithObjectsFiles(root, source, entries);
    var after := WithObjects(root, source, entries);
    assert after.files == root.files + source.files;
    assert forall key :: key in source.files ==> after.files[key] == source.files[key];
  }

  /**
    The condition is exact: on a clean root, restoring an archive succeeds and leaves
    the union if and only if no object of the root hides a different content of the
    same key behind the same digest.
   */
  lemma {:induction false} ConvergesExactly(p: Platform, root: Root, source: Root, walk: seq<string>)
    requires Walks(source, walk) && Archive(p, source, walk).Ok? && Clean(p, root)
    requires
      var manifest := ManifestJson(Entries(p, source, walk).value);
      p.parseJson(p.encodeJson(manifest)) == Some(manifest)
    ensures
      var (result, after) := Restore(p, root, Archive(p, source, walk).value);
      result == Ok(|source.files|) && after.files == root.files + source.files <==> NoCollision(p, root, source)
  {
    if NoCollision(p, root, source) {
      RestoreConverges(p, root, source, walk);
    } else {
      var key :| key in root.files && key in source.files && root.files[key] != source.files[key];
      RestoreIsSafe(p, root, Archive(p, source, walk).value);
      assert (root.files + source.files)[key] == source.files[key];
    }
  }

  /** Restoring an archive into an empty root gives exactly the archived files. */
  lemma {:induction false} RoundTrip(p: Platform, source: Root, walk: seq<string>)
    requires Walks(source, walk) && Archive(p, source, walk).Ok?
    requires
      var manifest := ManifestJson(Entries(p, source, walk).value);
      p.parseJson(p.encodeJson(manifest)) == Some(manifest)
    ensures
      var (result, after) := Restore(p, EMPTY_ROOT, Archive(p, source, walk).value);
      result == Ok(|source.files|) && after.files == source.files
  {
    RestoreConverges(p, EMPTY_ROOT, source, walk);
  }

  /**
    After any restores of any archives into a clean root, failed or not, restoring
    an archive of `source` succeeds, leaves the union, and once more changes nothing.
   */
  lemma {:induction false} ConvergesAfterFailures(p: Platform, root: Root, archives: seq<seq<TarMember>>,
      source: Root, walk: seq<string>)
    requires Clean(p, root) && Walks(source, walk) && Archive(p, source, walk).Ok?
    requires NoCollision(p, RestoreAll(p, root, archives), source)
    requires
      var manifest := ManifestJson(Entries(p, source, walk).value);
      p.parseJson(p.encodeJson(manifest)) == Some(manifest)
    ensures
      var before := RestoreAll(p, root, archives);
      var (result, after) := Restore(p, before, Archive(p, source, walk).value);
      && result == Ok(|source.files|)
      && after.files == before.files + source.files
      && root.files.Keys <= after.files.Keys
      && Restore(p, after, Archive(p, source, walk).value) == (Ok(|source.files|), after)
  {
    RestoresStayClean(p, root, archives);
    RestoreConverges(p, RestoreAll(p, root, archives), source, walk);
  }
}
