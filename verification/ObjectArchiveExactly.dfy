/**
  What is read from a manifest, exactly when restoring an archive succeeds, what it
  then adds, and which member is to blame when it fails.
 */
module ObjectArchiveExactly {
  import opened Prelude
  import opened Text
  import opened Json
  import opened ObjectArchive
  import opened ObjectArchiveLaws

  // ----- Reading a manifest ---------------------------------------------------

  /** A JSON value that Python compares equal to an integer that is one. */
  predicate IntegerOf(v: Json, n: int) {
    v == Int(n) || (n == 1 && v == Bool(true)) || (n == 0 && v == Bool(false))
  }

  /** The metadata of a listed object: a text key, a size that is not negative and 64 hexadecimal digits. */
  predicate Metadata(item: seq<Member>, key: string, size: int, digest: string) {
    && Get(item, "key") == Some(String(key))
    && Get(item, "size").Some? && IntegerOf(Get(item, "size").value, size) && size >= 0
    && Get(item, "sha256") == Some(String(digest))
    && |digest| == 64 && forall i :: 0 <= i < |digest| ==> HexDigit(digest[i])
  }

  /** A listed object is read, or refused, for what stands under its three keys. */
  lemma ItemMeaning(item: Json, expected: Manifest)
    ensures
      var read := ReadItem(item, expected);
      && (read.Ok? ==>
            var e := read.value;
            && item.Object? && Metadata(item.members, e.key, e.size, e.digest)
            && ValidKey(e.key) && e.digest == DigestPart(e.key) && e.key !in expected)
      && (read == Err(InvalidObject) <==> !item.Object?)
      && (read == Err(InvalidMetadata) <==>
            item.Object? && forall key, size, digest :: !Metadata(item.members, key, size, digest))
      && (read.Err? ==> read.error in {InvalidObject, InvalidMetadata, InvalidKey, BadKey})
    ensures forall key, size, digest ::
      item.Object? && Metadata(item.members, key, size, digest) ==>
        ReadItem(item, expected) ==
          if !ValidKey(key) then Err(InvalidKey)
          else if digest != DigestPart(key) || key in expected then Err(BadKey)
          else Ok(Entry(key, size, digest))
  {
    if item.Object? {
      var key, size, digest := Get(item.members, "key"), Get(item.members, "size"), Get(item.members, "sha256");
      if key.Some? && key.value.String? && size.Some? && AsInteger(size.value).Some? && digest.Some? &&
         digest.value.String? {
        assert forall k, n, d :: Metadata(item.members, k, n, d) ==>
            k == key.value.s && n == AsInteger(size.value).value && d == digest.value.s;
        if AsInteger(size.value).value >= 0 && |digest.value.s| == DIGEST_LENGTH && IsHex(digest.value.s) {
          assert Metadata(item.members, key.value.s, AsInteger(size.value).value, digest.value.s);
        }
      }
    }
  }

  /** The list in a manifest is found under its keys, in version one only. */
  lemma ManifestItemsMeaning(p: Platform, payload: Bytes)
    ensures
      var items, value := ManifestItems(p, payload), p.parseJson(payload);
      && (items == Err(ManifestUnreadable) <==> value.None?)
      && (items == Err(ManifestUnsupported) <==> value.Some? && !VersionOne(value.value))
      && (items == Err(NoObjectList) <==>
            && value.Some? && VersionOne(value.value)
            && forall listed :: Get(value.value.members, "objects") != Some(Array(listed)))
      && (forall listed ::
            items == Ok(listed) <==>
              && value.Some? && VersionOne(value.value)
              && Get(value.value.members, "objects") == Some(Array(listed)))
  {
    var value := p.parseJson(payload);
    if value.Some? && VersionOne(value.value) {
      var objects := Get(value.value.members, "objects");
      if objects.Some? && objects.value.Array? {
        assert objects == Some(Array(objects.value.items));
      }
    }
  }

  predicate VersionOne(manifest: Json) {
    && manifest.Object?
    && Get(manifest.members, "schema_version") in {Some(Int(1)), Some(Bool(true)), Some(Float(1.0))}
  }

  /** The key of a listed object that can be read. */
  function ItemKey(item: Json): string {
    var read := ReadItem(item, map[]);
    if read.Ok? then read.value.key else ""
  }

  function ItemKeys(items: seq<Json>): seq<string> {
    seq(|items|, i requires 0 <= i < |items| => ItemKey(items[i]))
  }

  ghost predicate AllReadable(items: seq<Json>) {
    forall i :: 0 <= i < |items| ==> ReadItem(items[i], map[]).Ok?
  }

  /** A manifest promises what a listed object says. */
  ghost predicate Promises(m: Manifest, item: Json) {
    var e := ReadItem(item, map[]);
    e.Ok? ==> e.value.key in m && m[e.value.key] == Expected(e.value.size, e.value.digest)
  }

  /** What a manifest with the listed objects comes to. */
  ghost predicate ManifestOf(read: Result<Manifest, ArchiveError>, items: seq<Json>) {
    && (read.Ok? <==> AllReadable(items) && Distinct(ItemKeys(items)))
    && (read.Ok? ==>
          && |read.value| == |items| && read.value.Keys == Elements(ItemKeys(items))
          && forall i :: 0 <= i < |items| ==> Promises(read.value, items[i]))
  }

  /** A manifest is read exactly when each listed object is, none twice; and it promises what they say. */
  lemma {:induction false} ItemsMeaning(items: seq<Json>)
    ensures ManifestOf(ReadItems(items), items)
  {
    if items != [] {
      var init, last := items[..|items| - 1], items[|items| - 1];
      assert items == init + [last];
      ItemsMeaning(init);
      var earlier := ReadItems(init);
      if earlier.Ok? {
        KnownKeys(last, earlier.value);
        OneItemMore(earlier, init, last, ReadItem(last, earlier.value), ReadItems(items));
      } else {
        DistinctSnoc(ItemKeys(init), ItemKey(last));
        assert ItemKeys(items) == ItemKeys(init) + [ItemKey(last)];
        assert AllReadable(items) ==> AllReadable(init);
      }
    }
  }

  lemma KnownKeys(item: Json, m: Manifest)
    ensures ReadItem(item, m).Ok? <==> ReadItem(item, map[]).Ok? && ItemKey(item) !in m
    ensures ReadItem(item, m).Ok? ==> ReadItem(item, m) == ReadItem(item, map[])
  {
  }

  lemma OneItemMore(earlier: Result<Manifest, ArchiveError>, init: seq<Json>, last: Json,
      read: Result<Entry, ArchiveError>, now: Result<Manifest, ArchiveError>)
    requires earlier.Ok? && ManifestOf(earlier, init)
    requires read.Ok? <==> ReadItem(last, map[]).Ok? && ItemKey(last) !in earlier.value
    requires read.Ok? ==> read == ReadItem(last, map[])
    requires now.Ok? <==> read.Ok?
    requires read.Ok? ==>
      now.value == earlier.value[read.value.key := Expected(read.value.size, read.value.digest)]
    ensures ManifestOf(now, init + [last])
  {
    AllReadableSnoc(init, last);
    DistinctSnoc(ItemKeys(init), ItemKey(last));
    ItemKeysSnoc(init, last);
    if read.Ok? {
      OneMorePromise(earlier.value, init, last, read.value);
      OneKeyMore(earlier.value, read.value.key, Expected(read.value.size, read.value.digest));
    }
  }

  lemma AllReadableSnoc(init: seq<Json>, last: Json)
    ensures AllReadable(init + [last]) <==> AllReadable(init) && ReadItem(last, map[]).Ok?
  {
    var items := init + [last];
    assert items[|init|] == last && forall i :: 0 <= i < |init| ==> items[i] == init[i];
  }

  lemma ItemKeysSnoc(init: seq<Json>, last: Json)
    ensures ItemKeys(init + [last]) == ItemKeys(init) + [ItemKey(last)]
  {
  }

  lemma OneKeyMore(m: Manifest, key: string, e: Expected)
    requires key !in m
    ensures |m[key := e]| == |m| + 1 && m[key := e].Keys == m.Keys + {key}
  {
  }

  lemma OneMorePromise(m: Manifest, init: seq<Json>, last: Json, e: Entry)
    requires ReadItem(last, map[]) == Ok(e) && e.key !in m && forall i :: 0 <= i < |init| ==> Promises(m, init[i])
    requires m.Keys == Elements(ItemKeys(init))
    ensures forall i :: 0 <= i < |init + [last]| ==>
      Promises(m[e.key := Expected(e.size, e.digest)], (init + [last])[i])
  {
    forall i | 0 <= i < |init| ensures (init + [last])[i] == init[i] && (ItemKey(init[i]) in m) {
      assert ItemKeys(init)[i] in Elements(ItemKeys(init));
    }
  }

  lemma DistinctSnoc(s: seq<string>, x: string)
    ensures Distinct(s + [x]) <==> Distinct(s) && x !in s
    ensures Elements(s + [x]) == Elements(s) + {x}
  {
    var longer := s + [x];
    assert longer[|s|] == x && forall i :: 0 <= i < |s| ==> longer[i] == s[i];
    assert Distinct(longer) ==> forall i :: 0 <= i < |s| ==> longer[i] != longer[|s|];
  }

  // ----- Restoring ------------------------------------------------------------

  /** A path to an object that nothing but directories stands in the way of. */
  ghost predicate Reachable(root: Root, key: string) {
    Parents(key) + {key} !! root.links && Parents(key) !! root.files.Keys + root.specials
  }

  /** A root that can take an object: its path is free, or the object is there already. */
  ghost predicate Takes(p: Platform, root: Root, key: string, expected: Expected) {
    && Reachable(root, key)
    && (root.Holds(key) ==>
          && key in root.files && key !in root.dirs
          && |root.files[key]| == expected.size && p.sha(root.files[key]) == expected.digest)
  }

  function WithObject(root: Root, key: string, content: Bytes): Root {
    root.(files := if key in root.files then root.files else root.files[key := content],
          dirs := root.dirs + Parents(key))
  }

  /** When one object is restored, why not otherwise, and what has been made by then. */
  lemma RestoreOneExactly(p: Platform, root: Root, key: string, expected: Expected, content: Bytes, whole: bool)
    requires ValidKey(key)
    ensures
      var (result, after) := RestoreOne(p, root, key, expected, content, whole);
      var genuine := |content| == expected.size && p.sha(content) == expected.digest;
      && (result.Ok? <==> whole && genuine && Takes(p, root, key, expected))
      && (result.Ok? ==> after == WithObject(root, key, content))
      && (result.Err? ==> after == if Reachable(root, key) then root.(dirs := root.dirs + Parents(key)) else root)
      && (result == Err(SymlinkRefused) <==> !(Parents(key) + {key} !! root.links))
      && (result == Err(PathBlocked) <==> Parents(key) + {key} !! root.links && !Reachable(root, key))
      && (result == Err(StreamFault) <==> Reachable(root, key) && !whole)
      && (result == Err(ContentMismatch) <==> Reachable(root, key) && whole && !genuine)
      && (result == Err(RefusesReplace) <==>
            Reachable(root, key) && whole && genuine && !Takes(p, root, key, expected))
  {
    KeyLength(key);
    assert key !in Parents(key);
  }

  /** The key that a tar member stands for. */
  function KeyOf(member: TarMember): string {
    if member.Packed? && StartsWith(member.name, "objects/") then member.name[8..] else ""
  }

  function KeysOf(members: seq<TarMember>): seq<string> {
    seq(|members|, i requires 0 <= i < |members| => KeyOf(members[i]))
  }

  /** A tar member that holds a listed object as promised, which the root can take. */
  ghost predicate Serves(p: Platform, root: Root, m: Manifest, member: TarMember) {
    && member.Packed? && member.isFile && member.whole && StartsWith(member.name, "objects/")
    && var key := KeyOf(member);
    && key in m && |member.content| == m[key].size && p.sha(member.content) == m[key].digest
    && Takes(p, root, key, m[key])
  }

  ghost predicate EachServes(p: Platform, root: Root, m: Manifest, members: seq<TarMember>) {
    forall i :: 0 <= i < |members| ==> Serves(p, root, m, members[i])
  }

  /** Tar members that hold listed objects still missing, none twice. */
  ghost predicate ServeSome(p: Platform, root: Root, m: Manifest, restored: set<string>, members: seq<TarMember>) {
    EachServes(p, root, m, members) && Distinct(KeysOf(members)) && restored !! Elements(KeysOf(members))
  }

  /** Tar members that hold the listed objects still missing, once each. */
  ghost predicate ServeAll(p: Platform, root: Root, m: Manifest, restored: set<string>, members: seq<TarMember>) {
    ServeSome(p, root, m, restored, members) && restored + Elements(KeysOf(members)) == m.Keys
  }

  /** Restoring one object does not stand in the way of another, nor make room for it. */
  lemma TakesStable(p: Platform, root: Root, key: string, content: Bytes, other: string, expected: Expected)
    requires ValidKey(key) && ValidKey(other) && key != other
    ensures Takes(p, WithObject(root, key, content), other, expected) <==> Takes(p, root, other, expected)
  {
    KeyLength(key);
    KeyLength(other);
    assert key !in Parents(other) && other !in Parents(key);
  }

  lemma DistinctCons(x: string, s: seq<string>)
    ensures Distinct([x] + s) <==> Distinct(s) && x !in s
    ensures Elements([x] + s) == Elements(s) + {x}
  {
    var longer := [x] + s;
    assert longer[0] == x && longer[1..] == s && forall i :: 0 <= i < |s| ==> longer[i + 1] == s[i];
    assert Distinct(longer) ==> forall i :: 0 < i < |longer| ==> longer[i] != x;
  }

  lemma OthersServeStill(p: Platform, root: Root, m: Manifest, key: string, content: Bytes, rest: seq<TarMember>)
    requires Sound(m) && key in m && key !in KeysOf(rest)
    ensures EachServes(p, WithObject(root, key, content), m, rest) <==> EachServes(p, root, m, rest)
  {
    var after := WithObject(root, key, content);
    forall i | 0 <= i < |rest| ensures Serves(p, after, m, rest[i]) <==> Serves(p, root, m, rest[i]) {
      var other := KeyOf(rest[i]);
      assert KeysOf(rest)[i] == other;
      if other in m {
        TakesStable(p, root, key, content, other, m[other]);
      }
    }
  }

  lemma EachServesCons(p: Platform, root: Root, m: Manifest, members: seq<TarMember>)
    requires members != []
    ensures EachServes(p, root, m, members) <==>
            Serves(p, root, m, members[0]) && EachServes(p, root, m, members[1..])
    ensures KeysOf(members) == [KeyOf(members[0])] + KeysOf(members[1..])
  {
    var rest := members[1..];
    assert forall i :: 0 < i < |members| ==> members[i] == rest[i - 1];
    assert forall i :: 0 <= i < |rest| ==> rest[i] == members[i + 1];
  }

  lemma ServeSomeStep(p: Platform, root: Root, m: Manifest, restored: set<string>, members: seq<TarMember>)
    requires Sound(m) && members != [] && Serves(p, root, m, members[0])
    ensures
      var key := KeyOf(members[0]);
      var after := WithObject(root, key, members[0].content);
      && Elements(KeysOf(members)) == {key} + Elements(KeysOf(members[1..]))
      && (ServeSome(p, root, m, restored, members) <==>
            key !in restored && ServeSome(p, after, m, restored + {key}, members[1..]))
  {
    var key, rest := KeyOf(members[0]), members[1..];
    EachServesCons(p, root, m, members);
    DistinctCons(key, KeysOf(rest));
    if key !in KeysOf(rest) {
      OthersServeStill(p, root, m, key, members[0].content, rest);
    }
  }

  /** The root with the objects of the members added. */
  function WithMembers(root: Root, members: seq<TarMember>): Root
    requires forall i :: 0 <= i < |members| ==> members[i].Packed?
    decreases |members|
  {
    if members == [] then root
    else WithMembers(WithObject(root, KeyOf(members[0]), members[0].content), members[1..])
  }

  /** Each member's object is there where there was none, and no other. */
  ghost predicate ObjectsAdded(root: Root, members: seq<TarMember>, after: Root)
    requires forall i :: 0 <= i < |members| ==> members[i].Packed?
  {
    && after.files.Keys == root.files.Keys + Elements(KeysOf(members))
    && (forall key :: key in root.files ==> after.files[key] == root.files[key])
    && (forall i :: 0 <= i < |members| && KeyOf(members[i]) !in root.files ==>
          KeyOf(members[i]) in after.files && after.files[KeyOf(members[i])] == members[i].content)
  }

  /** The directories above the members' objects are there, and nothing else is new. */
  ghost predicate DirsAdded(root: Root, members: seq<TarMember>, after: Root) {
    && after.links == root.links && after.specials == root.specials
    && forall dir :: dir in after.dirs <==>
         dir in root.dirs || exists i :: 0 <= i < |members| && dir in Parents(KeyOf(members[i]))
  }

  /** What the members add. */
  lemma {:induction false} MembersAdded(root: Root, members: seq<TarMember>)
    requires forall i :: 0 <= i < |members| ==> members[i].Packed?
    requires Distinct(KeysOf(members))
    ensures ObjectsAdded(root, members, WithMembers(root, members))
    ensures DirsAdded(root, members, WithMembers(root, members))
    decreases |members|
  {
    if members == [] {
      assert KeysOf(members) == [];
    } else {
      var key, rest := KeyOf(members[0]), members[1..];
      var one := WithObject(root, key, members[0].content);
      assert KeysOf(members) == [key] + KeysOf(rest);
      DistinctCons(key, KeysOf(rest));
      MembersAdded(one, rest);
      OneObjectMore(root, members, one, WithMembers(one, rest));
      OneWayMore(root, members, one, WithMembers(one, rest));
    }
  }

  lemma OneObjectMore(root: Root, members: seq<TarMember>, one: Root, after: Root)
    requires members != [] && forall i :: 0 <= i < |members| ==> members[i].Packed?
    requires one == WithObject(root, KeyOf(members[0]), members[0].content)
    requires KeyOf(members[0]) !in KeysOf(members[1..]) && ObjectsAdded(one, members[1..], after)
    ensures ObjectsAdded(root, members, after)
  {
    var key, rest := KeyOf(members[0]), members[1..];
    assert after.files.Keys == root.files.Keys + Elements(KeysOf(members)) by {
      assert KeysOf(members) == [key] + KeysOf(rest);
      DistinctCons(key, KeysOf(rest));
    }
    forall i | 0 <= i < |members| && KeyOf(members[i]) !in root.files
      ensures KeyOf(members[i]) in after.files && after.files[KeyOf(members[i])] == members[i].content
    {
      if i > 0 {
        OtherObject(root, members, one, after, i);
      }
    }
  }

  lemma OtherObject(root: Root, members: seq<TarMember>, one: Root, after: Root, i: nat)
    requires 0 < i < |members| && forall i :: 0 <= i < |members| ==> members[i].Packed?
    requires one == WithObject(root, KeyOf(members[0]), members[0].content)
    requires KeyOf(members[0]) !in KeysOf(members[1..]) && ObjectsAdded(one, members[1..], after)
    requires KeyOf(members[i]) !in root.files
    ensures KeyOf(members[i]) in after.files && after.files[KeyOf(members[i])] == members[i].content
  {
    assert members[1..][i - 1] == members[i] && KeysOf(members[1..])[i - 1] == KeyOf(members[i]);
  }

  lemma OneWayMore(root: Root, members: seq<TarMember>, one: Root, after: Root)
    requires members != [] && one.dirs == root.dirs + Parents(KeyOf(members[0]))
    requires one.links == root.links && one.specials == root.specials
    requires DirsAdded(one, members[1..], after)
    ensures DirsAdded(root, members, after)
  {
    var rest := members[1..];
    assert forall i :: 0 < i < |members| ==> members[i] == rest[i - 1];
    assert forall i :: 0 <= i < |rest| ==> rest[i] == members[i + 1];
  }

  lemma {:induction false} ObjectsExactly(p: Platform, root: Root, m: Manifest, restored: set<string>,
      members: seq<TarMember>)
    requires Sound(m)
    ensures
      var (result, after) := RestoreMembers(p, root, Progress(Some(m), restored), members);
      && (result.Ok? <==> ServeAll(p, root, m, restored, members))
      && (result.Ok? ==> after == WithMembers(root, members))
    decreases |members|
  {
    if members == [] {
      assert KeysOf(members) == [];
    } else {
      var member := members[0];
      if member.Packed? && member.name != MANIFEST_NAME && StartsWith(member.name, OBJECT_PREFIX) && member.isFile {
        var key := KeyOf(member);
        if key in m {
          RestoreOneExactly(p, root, key, m[key], member.content, member.whole);
          if Serves(p, root, m, member) {
            ServeSomeStep(p, root, m, restored, members);
            ObjectsExactly(p, WithObject(root, key, member.content), m, restored + {key}, members[1..]);
          }
        }
      } else {
        assert !Serves(p, root, m, member);
      }
    }
  }

  /**
    Restoring succeeds exactly when a readable manifest comes first and the members
    behind it hold the listed objects, each once, as promised and where the root
    can take it; and it then adds those that were not there.
   */
  lemma {:induction false} RestoreExactly(p: Platform, root: Root, members: seq<TarMember>)
    ensures
      var (result, after) := Restore(p, root, members);
      var manifest := ArchiveManifest(p, members);
      && (result.Ok? <==> manifest.Some? && ServeAll(p, root, manifest.value, {}, members[1..]))
      && (result.Ok? ==> after == WithMembers(root, members[1..]))
  {
    if ArchiveManifest(p, members).Some? {
      var m := ArchiveManifest(p, members).value;
      ManifestsAreSound(ManifestItems(p, members[0].content).value);
      ObjectsExactly(p, root, m, {}, members[1..]);
    }
  }

  /** How a member that does not serve ends the restore. */
  ghost predicate EndsRestore(p: Platform, root: Root, m: Manifest, done: set<string>, member: TarMember,
                              e: ArchiveError) {
    if member.Broken? then e == StreamFault
    else if member.name == "manifest.json" then e == InvalidManifestEntry
    else if !StartsWith(member.name, "objects/") || !member.isFile then e == UnsupportedEntry
    else if KeyOf(member) !in m || KeyOf(member) in done then e == UnknownOrDuplicate
    else RestoreOne(p, root, KeyOf(member), m[KeyOf(member)], member.content, member.whole).0 == Err(e)
  }

  /** The first `i` members were restored, and the next is to blame, or there is none and objects are missing. */
  ghost predicate FailsAt(p: Platform, root: Root, m: Manifest, restored: set<string>, members: seq<TarMember>,
                          i: nat, e: ArchiveError, after: Root) {
    && i <= |members| && ServeSome(p, root, m, restored, members[..i])
    && var before, done := WithMembers(root, members[..i]), restored + Elements(KeysOf(members[..i]));
    if i < |members| then EndsRestore(p, before, m, done, members[i], e)
    else e == Incomplete && done != m.Keys && after == before
  }

  lemma FailsLater(p: Platform, root: Root, m: Manifest, restored: set<string>, members: seq<TarMember>, i: nat,
      e: ArchiveError, after: Root)
    requires Sound(m) && members != [] && Serves(p, root, m, members[0])
    requires
      var key := KeyOf(members[0]);
      && key !in restored
      && FailsAt(p, WithObject(root, key, members[0].content), m, restored + {key}, members[1..], i, e, after)
    ensures FailsAt(p, root, m, restored, members, i + 1, e, after)
  {
    var taken := members[..i + 1];
    assert taken[0] == members[0] && taken[1..] == members[1..][..i];
    ServeSomeStep(p, root, m, restored, taken);
    assert restored + {KeyOf(members[0])} + Elements(KeysOf(taken[1..])) == restored + Elements(KeysOf(taken));
  }

  /** When restoring fails behind a readable manifest, the first member that cannot be taken says why. */
  lemma {:induction false} FailureNamesMember(p: Platform, root: Root, m: Manifest, restored: set<string>,
      members: seq<TarMember>) returns (i: nat)
    requires Sound(m) && RestoreMembers(p, root, Progress(Some(m), restored), members).0.Err?
    ensures
      var (result, after) := RestoreMembers(p, root, Progress(Some(m), restored), members);
      FailsAt(p, root, m, restored, members, i, result.error, after)
    decreases |members|
  {
    i := 0;
    assert members[..0] == [] && KeysOf(members[..0]) == [];
    if members != [] && members[0].Packed? && members[0].name != MANIFEST_NAME
       && StartsWith(members[0].name, OBJECT_PREFIX) && members[0].isFile {
      var member, key := members[0], KeyOf(members[0]);
      if key in m && key !in restored {
        RestoreOneExactly(p, root, key, m[key], member.content, member.whole);
        if Serves(p, root, m, member) {
          var after := WithObject(root, key, member.content);
          var j := FailureNamesMember(p, after, m, restored + {key}, members[1..]);
          var failed := RestoreMembers(p, after, Progress(Some(m), restored + {key}), members[1..]);
          FailsLater(p, root, m, restored, members, j, failed.0.error, failed.1);
          i := j + 1;
        }
      }
    }
  }

  /** How an archive fails without a readable manifest in front; nothing has been made by then. */
  ghost predicate LacksManifest(p: Platform, members: seq<TarMember>, e: ArchiveError) {
    if members == [] then e == Incomplete
    else if members[0].Broken? then e == StreamFault
    else if members[0].name == "manifest.json" then
      if !members[0].isFile then e == InvalidManifestEntry
      else if !members[0].whole then e == StreamFault
      else ReadManifest(p, members[0].content) == Err(e)
    else if !StartsWith(members[0].name, "objects/") || !members[0].isFile then e == UnsupportedEntry
    else e == ManifestNotFirst
  }

  /** Every failed restore names the member it stopped at. */
  lemma RestoreFails(p: Platform, root: Root, members: seq<TarMember>) returns (i: nat)
    requires Restore(p, root, members).0.Err?
    ensures
      var (result, after) := Restore(p, root, members);
      var manifest := ArchiveManifest(p, members);
      if manifest.Some? then FailsAt(p, root, manifest.value, {}, members[1..], i, result.error, after)
      else LacksManifest(p, members, result.error) && after == root
  {
    if ArchiveManifest(p, members).Some? {
      ManifestsAreSound(ManifestItems(p, members[0].content).value);
      i := FailureNamesMember(p, root, ArchiveManifest(p, members).value, {}, members[1..]);
    } else {
      i := 0;
    }
  }
}
