/** Strings as the Python and JavaScript sources use them. */
module Text {
  import opened Prelude

  /** Position of the first `c` in `s`, or -1. */
  function IndexOf(s: string, c: char): (r: int)
    ensures -1 <= r < |s|
    ensures 0 <= r ==> s[r] == c && c !in s[..r]
    ensures r < 0 ==> c !in s
  {
    if s == "" then -1
    else if s[0] == c then 0
    else
      var r := IndexOf(s[1..], c);
      if r < 0 then -1 else
        assert s[..r + 1] == [s[0]] + s[1..][..r];
        r + 1
  }

  lemma {:induction false} IndexOfUnique(s: string, c: char, k: nat)
    requires k < |s| && s[k] == c && c !in s[..k]
    ensures IndexOf(s, c) == k
  {
    var r := IndexOf(s, c);
    assert s[k] in s;
    assert forall j :: 0 <= j < k ==> s[..k][j] == s[j];
    assert 0 <= r ==> forall j :: 0 <= j < r ==> s[..r][j] == s[j];
  }

  predicate StartsWith(s: string, prefix: string) {
    prefix <= s
  }

  /** Contiguous occurrence: Python's `needle in s` on two strings. */
  predicate Contains(s: string, needle: string) {
    exists k :: 0 <= k <= |s| && OccursAt(s, needle, k)
  }

  predicate OccursAt(s: string, needle: string, k: nat)
    requires k <= |s|
  {
    needle <= s[k..]
  }

  /** Python `separator.join(parts)`. */
  function Join(parts: seq<string>, separator: string): string {
    if parts == [] then ""
    else if |parts| == 1 then parts[0]
    else Join(parts[..|parts| - 1], separator) + separator + parts[|parts| - 1]
  }

  /** Python `s.split(c)` for a one-character separator. */
  function Split(s: string, c: char): (parts: seq<string>)
    ensures parts != []
    decreases |s|
  {
    var k := IndexOf(s, c);
    if k < 0 then [s] else [s[..k]] + Split(s[k + 1..], c)
  }

  lemma {:induction false} JoinPrepend(first: string, rest: seq<string>, separator: string)
    requires rest != []
    ensures Join([first] + rest, separator) == first + separator + Join(rest, separator)
  {
    var parts := [first] + rest;
    var init := parts[..|parts| - 1];
    if |rest| == 1 {
      assert init == [first];
    } else {
      assert init == [first] + rest[..|rest| - 1];
      JoinPrepend(first, rest[..|rest| - 1], separator);
      var middle := Join(rest[..|rest| - 1], separator);
      assert first + separator + middle + separator + rest[|rest| - 1]
          == first + separator + (middle + separator + rest[|rest| - 1]);
    }
  }

  /** The parts of a split text hold no separator, and joined by it give the text back. */
  lemma {:induction false} SplitMeaning(s: string, c: char)
    ensures Join(Split(s, c), [c]) == s
    ensures forall i :: 0 <= i < |Split(s, c)| ==> c !in Split(s, c)[i]
    decreases |s|
  {
    var k := IndexOf(s, c);
    if 0 <= k {
      SplitMeaning(s[k + 1..], c);
      JoinPrepend(s[..k], Split(s[k + 1..], c), [c]);
      assert s == s[..k] + [c] + s[k + 1..];
    }
  }

  /** Characters JavaScript's `String.prototype.trim` removes. */
  predicate IsJsSpace(c: char) {
    || c in "\t\n\r \U{000B}\U{000C}\U{00A0}\U{1680}\U{2028}\U{2029}\U{202F}\U{205F}\U{3000}\U{FEFF}"
    || '\U{2000}' <= c <= '\U{200A}'
  }

  predicate JsBlank(s: string) {
    forall c :: c in s ==> IsJsSpace(c)
  }

  /** Characters Python's `str.strip` removes. */
  predicate IsPySpace(c: char) {
    || c in "\t\n\r \U{000B}\U{000C}\U{001C}\U{001D}\U{001E}\U{001F}\U{0085}\U{00A0}"
    || c in "\U{1680}\U{2028}\U{2029}\U{202F}\U{205F}\U{3000}"
    || '\U{2000}' <= c <= '\U{200A}'
  }

  predicate PyBlank(s: string) {
    forall c :: c in s ==> IsPySpace(c)
  }

  function StripLeft(s: string): string {
    if s != "" && IsPySpace(s[0]) then StripLeft(s[1..]) else s
  }

  function StripRight(s: string): string {
    if s != "" && IsPySpace(s[|s| - 1]) then StripRight(s[..|s| - 1]) else s
  }

  /** Python `s.strip()`. */
  function Strip(s: string): string {
    StripRight(StripLeft(s))
  }

  /** Stripping takes white space off both ends and leaves none there. */
  lemma {:induction false} StripMeaning(s: string) returns (left: string, right: string)
    ensures s == left + Strip(s) + right && PyBlank(left) && PyBlank(right)
    ensures Strip(s) != "" ==> !IsPySpace(Strip(s)[0]) && !IsPySpace(Strip(s)[|Strip(s)| - 1])
  {
    left := StripLeftMeaning(s);
    right := StripRightMeaning(StripLeft(s));
    assert s == left + (Strip(s) + right);
  }

  lemma {:induction false} StripLeftMeaning(s: string) returns (left: string)
    ensures s == left + StripLeft(s) && PyBlank(left)
    ensures StripLeft(s) != "" ==> !IsPySpace(StripLeft(s)[0])
  {
    left := "";
    if s != "" && IsPySpace(s[0]) {
      var later := StripLeftMeaning(s[1..]);
      left := [s[0]] + later;
    }
  }

  lemma {:induction false} StripRightMeaning(s: string) returns (right: string)
    ensures s == StripRight(s) + right && PyBlank(right)
    ensures StripRight(s) != "" ==> !IsPySpace(StripRight(s)[|StripRight(s)| - 1])
  {
    right := "";
    if s != "" && IsPySpace(s[|s| - 1]) {
      var before := StripRightMeaning(s[..|s| - 1]);
      right := before + [s[|s| - 1]];
    }
  }

  predicate IsDigits(s: string) {
    s != "" && forall i :: 0 <= i < |s| ==> '0' <= s[i] <= '9'
  }

  /** Python `str(n)` for a non-negative integer. */
  function Decimal(n: nat): string {
    var digit := [(('0' as int) + n % 10) as char];
    if n < 10 then digit else Decimal(n / 10) + digit
  }

  function DigitsValue(s: string): nat
    requires forall i :: 0 <= i < |s| ==> '0' <= s[i] <= '9'
  {
    if s == "" then 0
    else
      DigitsValue(s[..|s| - 1]) * 10 + (s[|s| - 1] as int - '0' as int)
  }

  lemma {:induction false} DecimalRoundTrip(n: nat)
    ensures IsDigits(Decimal(n)) && DigitsValue(Decimal(n)) == n
  {
    var digit := [(('0' as int) + n % 10) as char];
    if n < 10 {
      assert Decimal(n)[..0] == "";
    } else {
      DecimalRoundTrip(n / 10);
      assert Decimal(n)[..|Decimal(n)| - 1] == Decimal(n / 10);
    }
  }

  lemma {:induction false} DecimalInjective(m: nat, n: nat)
    requires Decimal(m) == Decimal(n)
    ensures m == n
  {
    DecimalRoundTrip(m);
    DecimalRoundTrip(n);
  }

  /** Code-point order, Python's `<` on strings. */
  predicate LexLess(a: string, b: string) {
    if b == "" then false
    else if a == "" then true
    else if a[0] != b[0] then a[0] < b[0]
    else LexLess(a[1..], b[1..])
  }

  /** Where two strings first differ decides; a proper prefix comes first. */
  lemma {:induction false} LexMeaning(a: string, b: string)
    ensures LexLess(a, b) <==>
      || (a <= b && a != b)
      || exists k :: 0 <= k < |a| && k < |b| && a[..k] == b[..k] && a[k] < b[k]
  {
    if a != "" && b != "" {
      if a[0] == b[0] {
        LexMeaning(a[1..], b[1..]);
        assert a == [a[0]] + a[1..] && b == [b[0]] + b[1..];
        if LexLess(a[1..], b[1..]) && !(a[1..] <= b[1..]) {
          var k :| 0 <= k < |a[1..]| && k < |b[1..]| && a[1..][..k] == b[1..][..k] && a[1..][k] < b[1..][k];
          assert a[..k + 1] == [a[0]] + a[1..][..k] && b[..k + 1] == [b[0]] + b[1..][..k];
        }
        forall k | 0 <= k < |a| && k < |b| && a[..k] == b[..k] && a[k] < b[k] ensures LexLess(a, b) {
          assert a[1..][..k - 1] == a[..k][1..] && b[1..][..k - 1] == b[..k][1..] && a[1..][k - 1] < b[1..][k - 1];
        }
      } else {
        assert a[..0] == b[..0];
        assert forall k :: 0 < k <= |a| && k <= |b| && a[..k] == b[..k] ==> a[..k][0] == b[..k][0];
      }
    }
  }

  lemma {:induction false} LexTotal(a: string, b: string)
    ensures LexLess(a, b) || a == b || LexLess(b, a)
    ensures !(LexLess(a, b) && LexLess(b, a))
    ensures !LexLess(a, a)
  {
    if a != "" {
      if b != "" && a[0] == b[0] {
        LexTotal(a[1..], b[1..]);
        assert a == [a[0]] + a[1..] && b == [b[0]] + b[1..];
      } else {
        LexTotal(a[1..], a[1..]);
      }
    }
  }

  lemma {:induction false} LexTransitive(a: string, b: string, c: string)
    requires LexLess(a, b) && LexLess(b, c)
    ensures LexLess(a, c)
  {
    if a != "" && a[0] == b[0] == c[0] {
      LexTransitive(a[1..], b[1..], c[1..]);
    }
  }
}
