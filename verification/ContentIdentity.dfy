/**
  Identifiers: time-ordered UUIDs (version 7, section 5.7 of RFC 9562), and content
  identifiers hashed from length-prefixed parts along the root and leaf chain.
 */
module ContentIdentity {
  import opened Prelude
  import opened Text

  // ----- UUIDv7 ---------------------------------------------------------------

  const TWO_12: nat := 0x1000
  const TWO_48: nat := 0x1_0000_0000_0000
  const TWO_62: nat := 0x4000_0000_0000_0000
  const TWO_64: nat := 0x1_0000_0000_0000_0000
  const TWO_76: nat := 0x1000_0000_0000_0000_0000
  const TWO_80: nat := 0x1_0000_0000_0000_0000_0000
  const TWO_128: nat := 0x1_0000_0000_0000_0000_0000_0000_0000_0000

  /** Bitwise or of unbounded integers. */
  function Or(x: nat, y: nat): nat
    decreases x + y
  {
    if x == 0 then y
    else if y == 0 then x
    else 2 * Or(x / 2, y / 2) + if x % 2 == 1 || y % 2 == 1 then 1 else 0
  }

  function Pow2(k: nat): nat { if k == 0 then 1 else 2 * Pow2(k - 1) }

  /** `x << k`. */
  function ShiftLeft(x: nat, k: nat): nat
    decreases k
  {
    if k == 0 then x else ShiftLeft(2 * x, k - 1)
  }

  lemma {:induction false} ShiftLeftMultiplies(x: nat, k: nat)
    ensures ShiftLeft(x, k) == x * Pow2(k)
    decreases k
  {
    if k > 0 {
      ShiftLeftMultiplies(2 * x, k - 1);
    }
  }

  /** Setting bits below a multiple of a power of two adds them. */
  lemma {:induction false} OrDisjoint(m: nat, y: nat, k: nat)
    requires y < Pow2(k)
    ensures Or(m * Pow2(k), y) == m * Pow2(k) + y
  {
    if k > 0 {
      HalfMultiple(m, Pow2(k - 1));
      OrEven(m * Pow2(k - 1), y);
      OrDisjoint(m, y / 2, k - 1);
    }
  }

  lemma HalfMultiple(m: nat, n: nat)
    ensures m * (2 * n) == 2 * (m * n)
  {
  }

  lemma {:induction false} OrEven(x: nat, y: nat)
    ensures Or(2 * x, y) == 2 * Or(x, y / 2) + y % 2
  {
    assert 2 * x / 2 == x;
  }

  /** The version, variant and random fields under a timestamp. */
  function UuidValue(milliseconds: nat, random12: nat, random62: nat): nat {
    milliseconds * TWO_80 + 7 * TWO_76 + random12 * TWO_64 + 2 * TWO_62 + random62
  }

  lemma Pow2At62()
    ensures Pow2(62) == TWO_62
  {
    assert Pow2(2) == 4;
    FourUp(2, 4);
    FourUp(6, 64);
    FourUp(10, 1024);
    SixteenUp(14, 0x4000);
    SixteenUp(30, 0x4000_0000);
    SixteenUp(46, 0x4000_0000_0000);
  }

  lemma Pow2At64()
    ensures Pow2(64) == TWO_64
  {
    assert Pow2(0) == 1;
    SixteenUp(0, 1);
    SixteenUp(16, 0x1_0000);
    SixteenUp(32, 0x1_0000_0000);
    SixteenUp(48, 0x1_0000_0000_0000);
  }

  lemma Pow2At76()
    ensures Pow2(76) == TWO_76
  {
    Pow2At64();
    FourUp(64, TWO_64);
    FourUp(68, 16 * TWO_64);
    FourUp(72, 256 * TWO_64);
  }

  lemma Pow2At80()
    ensures Pow2(80) == TWO_80
  {
    Pow2At64();
    SixteenUp(64, TWO_64);
  }

  lemma FourUp(k: nat, n: nat)
    requires Pow2(k) == n
    ensures Pow2(k + 4) == 16 * n
  {
    assert Pow2(k + 4) == 2 * Pow2(k + 3) && Pow2(k + 3) == 2 * Pow2(k + 2);
    assert Pow2(k + 2) == 2 * Pow2(k + 1) && Pow2(k + 1) == 2 * Pow2(k);
  }

  lemma SixteenUp(k: nat, n: nat)
    requires Pow2(k) == n
    ensures Pow2(k + 16) == 65536 * n
  {
    FourUp(k, n);
    FourUp(k + 4, 16 * n);
    FourUp(k + 8, 256 * n);
    FourUp(k + 12, 4096 * n);
  }

  datatype IdentityError = TimestampRange | BadPrefix | PartTooLong

  /** `value |= field << low`, below everything that is set from bit `high` on. */
  lemma {:induction false} SetField(m: nat, high: nat, field: nat, low: nat)
    requires field * Pow2(low) < Pow2(high)
    ensures Or(m * Pow2(high), ShiftLeft(field, low)) == m * Pow2(high) + field * Pow2(low)
  {
    ShiftLeftMultiplies(field, low);
    OrDisjoint(m, field * Pow2(low), high);
  }

  lemma {:induction false} TimeAndVersion(milliseconds: nat)
    ensures Or(ShiftLeft(milliseconds, 80), ShiftLeft(7, 76)) == (milliseconds * 16 + 7) * TWO_76
  {
    Pow2At76();
    Pow2At80();
    ShiftLeftMultiplies(milliseconds, 80);
    SetField(milliseconds, 80, 7, 76);
  }

  lemma {:induction false} RandomAndVariant(above: nat, random12: nat)
    requires random12 < TWO_12
    ensures Or(Or(above * TWO_76, ShiftLeft(random12, 64)), ShiftLeft(2, 62)) ==
            ((above * TWO_12 + random12) * 4 + 2) * TWO_62
  {
    Pow2At62();
    Pow2At64();
    Pow2At76();
    SetField(above, 76, random12, 64);
    SetField(above * TWO_12 + random12, 64, 2, 62);
  }

  lemma {:induction false} LowestField(above: nat, random62: nat)
    requires random62 < TWO_62
    ensures Or(above * TWO_62, random62) == above * TWO_62 + random62
  {
    Pow2At62();
    OrDisjoint(above, random62, 62);
  }

  lemma {:induction false} FieldsTogether(milliseconds: nat, random12: nat, random62: nat)
    requires random12 < TWO_12 && random62 < TWO_62
    ensures
      Or(Or(Or(Or(ShiftLeft(milliseconds, 80), ShiftLeft(7, 76)), ShiftLeft(random12, 64)), ShiftLeft(2, 62)), random62)
      == UuidValue(milliseconds, random12, random62)
  {
    var above76 := milliseconds * 16 + 7;
    var above62 := (above76 * TWO_12 + random12) * 4 + 2;
    TimeAndVersion(milliseconds);
    RandomAndVariant(above76, random12);
    LowestField(above62, random62);
    assert above62 * TWO_62 + random62 == UuidValue(milliseconds, random12, random62);
  }

  /** `new_uuid7`: the integer of the identifier; the random parts are drawn by the caller. */
  method NewUuid7(milliseconds: int, random12: nat, random62: nat) returns (result: Result<nat, IdentityError>)
    requires random12 < TWO_12 && random62 < TWO_62
    ensures result.Ok? <==> 0 <= milliseconds < TWO_48
    ensures result.Ok? ==> result.value == UuidValue(milliseconds, random12, random62)
  {
    if !(0 <= milliseconds < TWO_48) {
      return Err(TimestampRange);
    }
    var value: nat := ShiftLeft(milliseconds, 80);
    value := Or(value, ShiftLeft(7, 76));
    value := Or(value, ShiftLeft(random12, 64));
    value := Or(value, ShiftLeft(2, 62));
    value := Or(value, random62);
    FieldsTogether(milliseconds, random12, random62);
    return Ok(value);
  }

  /** All three parts can be read back, between version 7 and variant binary 10. */
  lemma UuidLayout(milliseconds: nat, random12: nat, random62: nat)
    requires milliseconds < TWO_48 && random12 < TWO_12 && random62 < TWO_62
    ensures
      var value := UuidValue(milliseconds, random12, random62);
      && value < TWO_128
      && value / TWO_80 == milliseconds
      && value / TWO_76 % 16 == 7
      && value / TWO_64 % TWO_12 == random12
      && value / TWO_62 % 4 == 2
      && value % TWO_62 == random62
  {
    var above76 := milliseconds * 16 + 7;
    var above64 := above76 * TWO_12 + random12;
    var value := UuidValue(milliseconds, random12, random62);
    Field62(above64 * 4 + 2, random62);
    Field64(above64, 2 * TWO_62 + random62);
    Field76(above76, random12 * TWO_64 + 2 * TWO_62 + random62);
    Field80(milliseconds, 7 * TWO_76 + random12 * TWO_64 + 2 * TWO_62 + random62);
    SmallField(above64, 4, 2);
    SmallField(above76, TWO_12, random12);
    SmallField(milliseconds, 16, 7);
  }

  lemma Field62(m: nat, low: nat)
    requires low < TWO_62
    ensures (m * TWO_62 + low) / TWO_62 == m && (m * TWO_62 + low) % TWO_62 == low
  {
  }

  lemma Field64(m: nat, low: nat)
    requires low < TWO_64
    ensures (m * TWO_64 + low) / TWO_64 == m
  {
  }

  lemma Field76(m: nat, low: nat)
    requires low < TWO_76
    ensures (m * TWO_76 + low) / TWO_76 == m
  {
  }

  lemma Field80(m: nat, low: nat)
    requires low < TWO_80
    ensures (m * TWO_80 + low) / TWO_80 == m
  {
  }

  lemma SmallField(m: nat, size: nat, low: nat)
    requires low < size && (size == 4 || size == 16 || size == TWO_12)
    ensures (m * size + low) % size == low
  {
  }

  /** A smaller timestamp gives a smaller identifier, whatever the random parts. */
  lemma UuidsOrderedByTime(earlier: nat, later: nat, a12: nat, a62: nat, b12: nat, b62: nat)
    requires earlier < later && a12 < TWO_12 && a62 < TWO_62
    ensures UuidValue(earlier, a12, a62) < UuidValue(later, b12, b62)
  {
  }

  // ----- Length-prefixed parts ------------------------------------------------

  /** `n.to_bytes(width, "big")`. */
  function BigEndian(n: nat, width: nat): (b: Bytes)
    ensures |b| == width
  {
    if width == 0 then [] else BigEndian(n / 256, width - 1) + [(n % 256) as byte]
  }

  function FromBigEndian(b: Bytes): nat {
    if b == [] then 0 else FromBigEndian(b[..|b| - 1]) * 256 + b[|b| - 1] as nat
  }

  function Pow256(k: nat): nat { if k == 0 then 1 else 256 * Pow256(k - 1) }

  lemma {:induction false} BigEndianRoundTrip(n: nat, width: nat)
    requires n < Pow256(width)
    ensures FromBigEndian(BigEndian(n, width)) == n
  {
    if width > 0 {
      BigEndianRoundTrip(n / 256, width - 1);
      var b := BigEndian(n, width);
      assert b[..width - 1] == BigEndian(n / 256, width - 1);
    }
  }

  /** The bytes a list of parts feeds to the hash. */
  function Fed(parts: seq<Bytes>): Bytes {
    if parts == [] then [] else Framed(parts[0]) + Fed(parts[1..])
  }

  function Framed(part: Bytes): Bytes { BigEndian(|part|, 8) + part }

  /** Reads a stream of framed parts back. */
  function Parts(stream: Bytes): Option<seq<Bytes>>
    decreases |stream|
  {
    if stream == [] then Some([])
    else if |stream| < 8 then None
    else
      var size := FromBigEndian(stream[..8]);
      if |stream| < 8 + size then None
      else
        var later := Parts(stream[8 + size..]);
        if later.None? then None else Some([stream[8..8 + size]] + later.value)
  }

  lemma {:induction false} FedSnoc(parts: seq<Bytes>, part: Bytes)
    ensures Fed(parts + [part]) == Fed(parts) + Framed(part)
  {
    if parts == [] {
      assert [] + [part] == [part] && [part][1..] == [];
    } else {
      FedSnoc(parts[1..], part);
      assert (parts + [part])[1..] == parts[1..] + [part];
    }
  }

  ghost predicate Short(parts: seq<Bytes>) {
    forall i :: 0 <= i < |parts| ==> |parts[i]| < TWO_64
  }

  lemma EightBytes()
    ensures Pow256(8) == TWO_64
  {
  }

  /** The first part of a stream is read as it was framed. */
  lemma {:induction false} FrameRead(part: Bytes, rest: Bytes)
    requires |part| < TWO_64
    ensures Parts(Framed(part) + rest) ==
            if Parts(rest).None? then None else Some([part] + Parts(rest).value)
  {
    var stream := Framed(part) + rest;
    EightBytes();
    BigEndianRoundTrip(|part|, 8);
    assert stream[..8] == BigEndian(|part|, 8);
    assert stream[8..8 + |part|] == part && stream[8 + |part|..] == rest;
  }

  /** The framing can be undone, so it is injective. */
  lemma {:induction false} PartsRoundTrip(parts: seq<Bytes>)
    requires Short(parts)
    ensures Parts(Fed(parts)) == Some(parts)
    decreases |parts|
  {
    if parts != [] {
      PartsRoundTrip(parts[1..]);
      FrameRead(parts[0], Fed(parts[1..]));
      assert parts == [parts[0]] + parts[1..];
    }
  }

  lemma {:induction false} FedInjective(a: seq<Bytes>, b: seq<Bytes>)
    requires Short(a) && Short(b) && Fed(a) == Fed(b)
    ensures a == b
  {
    PartsRoundTrip(a);
    PartsRoundTrip(b);
  }

  // ----- Content identifiers --------------------------------------------------

  datatype Platform = Platform(
    sha: Bytes -> string,          // hexadecimal SHA-256 digest
    utf8: string -> Bytes,
    identifier: string -> bool,    // str.isidentifier
    lower: string -> string)       // str.lower

  function Encoded(p: Platform, parts: seq<string>): seq<Bytes> {
    seq(|parts|, i requires 0 <= i < |parts| => p.utf8(parts[i]))
  }

  function ContentId(p: Platform, prefix: string, parts: seq<string>): string {
    prefix + "_" + p.sha(Fed(Encoded(p, parts)))
  }

  /** `stable_content_id`: the digest object is the bytes it has been fed. */
  method StableContentId(p: Platform, prefix: string,
      parts: seq<string>) returns (result: Result<string, IdentityError>)
    ensures result.Ok? <==>
      p.identifier(prefix) && p.lower(prefix) == prefix && forall s :: s in parts ==> |p.utf8(s)| < TWO_64
    ensures result == Err(BadPrefix) <==> !(p.identifier(prefix) && p.lower(prefix) == prefix)
    ensures result.Err? ==> result.error == BadPrefix || result.error == PartTooLong
    ensures result.Ok? ==> result.value == ContentId(p, prefix, parts)
  {
    if !p.identifier(prefix) || p.lower(prefix) != prefix {
      return Err(BadPrefix);
    }
    var digest: Bytes := [];
    var i := 0;
    while i < |parts|
      invariant 0 <= i <= |parts|
      invariant digest == Fed(Encoded(p, parts[..i]))
      invariant forall s :: s in parts[..i] ==> |p.utf8(s)| < TWO_64
    {
      var encoded := p.utf8(parts[i]);
      if |encoded| >= TWO_64 {
        assert parts[i] in parts;
        return Err(PartTooLong);
      }
      assert parts[..i + 1] == parts[..i] + [parts[i]];
      assert Encoded(p, parts[..i + 1]) == Encoded(p, parts[..i]) + [encoded];
      FedSnoc(Encoded(p, parts[..i]), encoded);
      digest := digest + BigEndian(|encoded|, 8);
      digest := digest + encoded;
      i := i + 1;
    }
    assert parts[..i] == parts;
    return Ok(prefix + "_" + p.sha(digest));
  }

  datatype RootKind = PAGE | SECTION | SHEET_ROWS | TEXT_BLOCK {
    function Value(): string {
      match this
      case PAGE => "page"
      case SECTION => "section"
      case SHEET_ROWS => "sheet_rows"
      case TEXT_BLOCK => "text_block"
    }
  }

  /** The identity fields of a root; `versionId` is the canonical text of its UUID. */
  datatype RootIdentity = RootIdentity(versionId: string, indexRevision: string, ordinal: nat, kind: RootKind,
      contentHash: string) {
    function Parts(): seq<string> { [versionId, indexRevision, Decimal(ordinal), kind.Value(), contentHash] }

    function Id(p: Platform): string { ContentId(p, "root", Parts()) }
  }

  datatype LeafIdentity = LeafIdentity(rootId: string, ordinal: nat, contentHash: string) {
    function Parts(): seq<string> { [rootId, Decimal(ordinal), contentHash] }

    function Id(p: Platform): string { ContentId(p, "leaf", Parts()) }
  }

  /** The encoder is injective, and these two lists of parts do not collide and fit their length prefixes. */
  ghost predicate Separates(p: Platform, a: seq<string>, b: seq<string>) {
    && (forall s, t :: p.utf8(s) == p.utf8(t) ==> s == t)
    && (forall s :: s in a || s in b ==> |p.utf8(s)| < TWO_64)
    && (p.sha(Fed(Encoded(p, a))) == p.sha(Fed(Encoded(p, b))) ==> Fed(Encoded(p, a)) == Fed(Encoded(p, b)))
  }

  lemma SamePrefix(prefix: string, a: string, b: string)
    requires prefix + "_" + a == prefix + "_" + b
    ensures a == b
  {
    assert (prefix + "_" + a)[|prefix| + 1..] == a;
    assert (prefix + "_" + b)[|prefix| + 1..] == b;
  }

  /** Equal identifiers come from equal parts. */
  lemma ContentIdInjective(p: Platform, prefix: string, a: seq<string>, b: seq<string>)
    requires Separates(p, a, b) && ContentId(p, prefix, a) == ContentId(p, prefix, b)
    ensures a == b
  {
    SamePrefix(prefix, p.sha(Fed(Encoded(p, a))), p.sha(Fed(Encoded(p, b))));
    forall i | 0 <= i < |a| ensures |Encoded(p, a)[i]| < TWO_64 {
      assert a[i] in a;
    }
    forall i | 0 <= i < |b| ensures |Encoded(p, b)[i]| < TWO_64 {
      assert b[i] in b;
    }
    FedInjective(Encoded(p, a), Encoded(p, b));
    assert |a| == |Encoded(p, a)| == |Encoded(p, b)| == |b|;
    forall i | 0 <= i < |a| ensures a[i] == b[i] {
      assert p.utf8(a[i]) == Encoded(p, a)[i] == Encoded(p, b)[i] == p.utf8(b[i]);
    }
  }

  lemma RootIdDetermines(p: Platform, a: RootIdentity, b: RootIdentity)
    requires Separates(p, a.Parts(), b.Parts()) && a.Id(p) == b.Id(p)
    ensures a == b
  {
    ContentIdInjective(p, "root", a.Parts(), b.Parts());
    var x, y := a.Parts(), b.Parts();
    assert x[0] == y[0] && x[1] == y[1] && x[2] == y[2] && x[3] == y[3] && x[4] == y[4];
    DecimalInjective(a.ordinal, b.ordinal);
    assert "page"[0] == 'p' && "section"[1] == 'e' && "sheet_rows"[1] == 'h' && "text_block"[0] == 't';
  }

  lemma LeafIdDetermines(p: Platform, a: LeafIdentity, b: LeafIdentity)
    requires Separates(p, a.Parts(), b.Parts()) && a.Id(p) == b.Id(p)
    ensures a == b
  {
    ContentIdInjective(p, "leaf", a.Parts(), b.Parts());
    var x, y := a.Parts(), b.Parts();
    assert x[0] == y[0] && x[1] == y[1] && x[2] == y[2];
    DecimalInjective(a.ordinal, b.ordinal);
  }

  /** A leaf under its root, with the texts both were created from. */
  datatype Lineage = Lineage(
    versionId: string, indexRevision: string, rootOrdinal: nat, kind: RootKind, rootText: string,
    leafOrdinal: nat, leafText: string)
  {
    function Root(p: Platform): RootIdentity {
      RootIdentity(versionId, indexRevision, rootOrdinal, kind, p.sha(p.utf8(rootText)))
    }

    function Leaf(p: Platform): LeafIdentity {
      LeafIdentity(Root(p).Id(p), leafOrdinal, p.sha(p.utf8(leafText)))
    }
  }

  ghost predicate TextsSeparate(p: Platform, s: string, t: string) {
    p.sha(p.utf8(s)) == p.sha(p.utf8(t)) ==> s == t
  }

  /** Along the whole chain, equal leaf identifiers mean equal version, revision, positions, kinds and texts. */
  lemma LeafIdDeterminesLineage(p: Platform, a: Lineage, b: Lineage)
    requires Separates(p, a.Leaf(p).Parts(), b.Leaf(p).Parts())
    requires Separates(p, a.Root(p).Parts(), b.Root(p).Parts())
    requires TextsSeparate(p, a.rootText, b.rootText) && TextsSeparate(p, a.leafText, b.leafText)
    requires a.Leaf(p).Id(p) == b.Leaf(p).Id(p)
    ensures a == b
  {
    LeafIdDetermines(p, a.Leaf(p), b.Leaf(p));
    RootIdDetermines(p, a.Root(p), b.Root(p));
  }

  /** No identifier names both a root and a leaf. */
  lemma RootAndLeafIdsDiffer(p: Platform, root: RootIdentity, leaf: LeafIdentity)
    ensures root.Id(p) != leaf.Id(p)
  {
    assert root.Id(p)[0] == 'r' && leaf.Id(p)[0] == 'l';
  }

  // ----- What is hashed -------------------------------------------------------

  /** A part behind its length in eight bytes, the most significant first. */
  ghost predicate FrameOf(frame: Bytes, part: Bytes) {
    && |frame| == 8 + |part| && frame[8..] == part
    && |part| ==
       (frame[0] as nat * 0x100_0000_0000_0000 + frame[1] as nat * 0x1_0000_0000_0000
        + frame[2] as nat * 0x100_0000_0000 + frame[3] as nat * 0x1_0000_0000
        + frame[4] as nat * 0x100_0000 + frame[5] as nat * 0x1_0000
        + frame[6] as nat * 0x100 + frame[7] as nat)
  }

  lemma FramedIsFrame(part: Bytes)
    requires |part| < TWO_64
    ensures FrameOf(Framed(part), part)
  {
    var length := BigEndian(|part|, 8);
    EightBytes();
    BigEndianRoundTrip(|part|, 8);
    EightDigits(length);
    assert Framed(part)[8..] == part && Framed(part)[..8] == length;
  }

  lemma {:induction false} EightDigits(b: Bytes)
    requires |b| == 8
    ensures FromBigEndian(b) ==
      b[0] as nat * 0x100_0000_0000_0000 + b[1] as nat * 0x1_0000_0000_0000
      + b[2] as nat * 0x100_0000_0000 + b[3] as nat * 0x1_0000_0000
      + b[4] as nat * 0x100_0000 + b[5] as nat * 0x1_0000
      + b[6] as nat * 0x100 + b[7] as nat
  {
    DigitsFrom(b, 4);
    DigitsFrom(b, 8);
    assert b[..8] == b && b[..0] == [];
  }

  /** Four digits more. */
  lemma DigitsFrom(b: Bytes, n: nat)
    requires 4 <= n <= |b|
    ensures FromBigEndian(b[..n]) ==
      FromBigEndian(b[..n - 4]) * 0x1_0000_0000 + b[n - 4] as nat * 0x100_0000 + b[n - 3] as nat * 0x1_0000
      + b[n - 2] as nat * 0x100 + b[n - 1] as nat
  {
    LastDigit(b, n);
    LastDigit(b, n - 1);
    LastDigit(b, n - 2);
    LastDigit(b, n - 3);
  }

  lemma LastDigit(b: Bytes, n: nat)
    requires 1 <= n <= |b|
    ensures FromBigEndian(b[..n]) == FromBigEndian(b[..n - 1]) * 256 + b[n - 1] as nat
  {
    assert b[..n][..n - 1] == b[..n - 1];
  }

  /** The texts that frames frame, in order, encoded. */
  ghost predicate FramesOf(p: Platform, frames: seq<Bytes>, texts: seq<string>) {
    |frames| == |texts| && forall i :: 0 <= i < |texts| ==> FrameOf(frames[i], p.utf8(texts[i]))
  }

  lemma {:induction false} ContentIdSpelled(p: Platform, prefix: string, texts: seq<string>)
    returns (frames: seq<Bytes>)
    requires forall s :: s in texts ==> |p.utf8(s)| < TWO_64
    ensures FramesOf(p, frames, texts)
    ensures ContentId(p, prefix, texts) == prefix + "_" + p.sha(Flatten(frames))
  {
    frames := FramesFrom(p, texts);
    FedIsFlat(Encoded(p, texts), frames);
  }

  lemma FramesFrom(p: Platform, texts: seq<string>) returns (frames: seq<Bytes>)
    requires forall s :: s in texts ==> |p.utf8(s)| < TWO_64
    ensures FramesOf(p, frames, texts) && |frames| == |texts|
    ensures forall i :: 0 <= i < |texts| ==> frames[i] == Framed(Encoded(p, texts)[i])
  {
    frames := seq(|texts|, i requires 0 <= i < |texts| => Framed(Encoded(p, texts)[i]));
    forall i | 0 <= i < |texts| ensures FrameOf(frames[i], p.utf8(texts[i])) {
      assert texts[i] in texts;
      FramedIsFrame(p.utf8(texts[i]));
    }
  }

  lemma {:induction false} FedIsFlat(parts: seq<Bytes>, frames: seq<Bytes>)
    requires |frames| == |parts| && forall i :: 0 <= i < |parts| ==> frames[i] == Framed(parts[i])
    ensures Fed(parts) == Flatten(frames)
  {
    if parts != [] {
      FedIsFlat(parts[1..], frames[1..]);
    }
  }

  /** A root is named by its version, index revision, ordinal, kind and content hash, in this order. */
  lemma RootIdSpelled(p: Platform, root: RootIdentity) returns (frames: seq<Bytes>)
    requires forall s :: s in root.Parts() ==> |p.utf8(s)| < TWO_64
    ensures
      var kind := match root.kind
        case PAGE => "page"
        case SECTION => "section"
        case SHEET_ROWS => "sheet_rows"
        case TEXT_BLOCK => "text_block";
      FramesOf(p, frames, [root.versionId, root.indexRevision, Decimal(root.ordinal), kind, root.contentHash])
    ensures root.Id(p) == "root_" + p.sha(Flatten(frames))
  {
    frames := ContentIdSpelled(p, "root", root.Parts());
    assert "root" + "_" == "root_";
  }

  /** A leaf is named by its root, its ordinal and its content hash. */
  lemma LeafIdSpelled(p: Platform, leaf: LeafIdentity) returns (frames: seq<Bytes>)
    requires forall s :: s in leaf.Parts() ==> |p.utf8(s)| < TWO_64
    ensures FramesOf(p, frames, [leaf.rootId, Decimal(leaf.ordinal), leaf.contentHash])
    ensures leaf.Id(p) == "leaf_" + p.sha(Flatten(frames))
  {
    frames := ContentIdSpelled(p, "leaf", leaf.Parts());
    assert "leaf" + "_" == "leaf_";
  }

  /** Along the chain, the content hashes are those of the texts, and the leaf names its own root. */
  lemma LineageSpelled(p: Platform, l: Lineage)
    ensures
      var root, leaf := l.Root(p), l.Leaf(p);
      && root.versionId == l.versionId && root.indexRevision == l.indexRevision
      && root.ordinal == l.rootOrdinal && root.kind == l.kind && root.contentHash == p.sha(p.utf8(l.rootText))
      && leaf.rootId == root.Id(p) && leaf.ordinal == l.leafOrdinal && leaf.contentHash == p.sha(p.utf8(l.leafText))
  {
  }
}
