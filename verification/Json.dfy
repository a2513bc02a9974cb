/**
  JSON values as the sources hold them after parsing. An object is the ordered
  list of its members; no key of a parsed document occurs twice.
 */
module Json {
  import opened Prelude
  import opened Text

  datatype Json =
    | Null
    | Bool(b: bool)
    | Int(i: int)
    | Float(r: real)
    | String(s: string)
    | Array(items: seq<Json>)
    | Object(members: seq<Member>)

  datatype Member = Member(key: string, value: Json)

  /** Python `mapping.get(key)`; `None` when the key is absent. */
  function Get(members: seq<Member>, key: string): Option<Json> {
    if members == [] then None
    else if members[0].key == key then Some(members[0].value)
    else Get(members[1..], key)
  }

  predicate Has(members: seq<Member>, key: string) {
    Get(members, key).Some?
  }

  function Keys(members: seq<Member>): seq<string> {
    seq(|members|, i requires 0 <= i < |members| => members[i].key)
  }

  lemma {:induction false} GetMember(members: seq<Member>, i: nat)
    requires i < |members| && Distinct(Keys(members))
    ensures Get(members, members[i].key) == Some(members[i].value)
  {
    if i > 0 {
      assert Keys(members)[0] != Keys(members)[i];
      assert Keys(members[1..]) == Keys(members)[1..];
      GetMember(members[1..], i - 1);
    }
  }

  // ----- Members in key order -------------------------------------------------

  function InsertMember(sorted: seq<Member>, m: Member): seq<Member> {
    if sorted == [] then [m]
    else if LexLess(m.key, sorted[0].key) then [m] + sorted
    else [sorted[0]] + InsertMember(sorted[1..], m)
  }

  /** Python `sorted(mapping.items())`, whose keys are distinct. */
  function SortMembers(members: seq<Member>): seq<Member> {
    if members == [] then [] else InsertMember(SortMembers(members[1..]), members[0])
  }

  ghost predicate KeySorted(members: seq<Member>) {
    forall i, j :: 0 <= i < j < |members| ==> LexLess(members[i].key, members[j].key)
  }

  ghost predicate AllAbove(key: string, members: seq<Member>) {
    forall i :: 0 <= i < |members| ==> LexLess(key, members[i].key)
  }

  lemma KeySortedCons(first: Member, rest: seq<Member>)
    requires KeySorted(rest) && AllAbove(first.key, rest)
    ensures KeySorted([first] + rest)
  {
  }

  lemma KeySortedSplit(members: seq<Member>)
    requires KeySorted(members) && members != []
    ensures KeySorted(members[1..]) && AllAbove(members[0].key, members[1..])
    ensures members == [members[0]] + members[1..]
  {
  }

  lemma {:induction false} AboveTransitive(low: string, key: string, members: seq<Member>)
    requires LexLess(low, key) && AllAbove(key, members)
    ensures AllAbove(low, members)
  {
    forall i | 0 <= i < |members| ensures LexLess(low, members[i].key) {
      LexTransitive(low, key, members[i].key);
    }
  }

  lemma {:induction false} InsertMemberAbove(sorted: seq<Member>, m: Member, low: string)
    requires LexLess(low, m.key) && AllAbove(low, sorted)
    ensures AllAbove(low, InsertMember(sorted, m))
  {
    if sorted != [] && !LexLess(m.key, sorted[0].key) {
      InsertMemberAbove(sorted[1..], m, low);
    }
  }

  lemma {:induction false} InsertMemberSorts(sorted: seq<Member>, m: Member)
    requires KeySorted(sorted) && forall i :: 0 <= i < |sorted| ==> sorted[i].key != m.key
    ensures KeySorted(InsertMember(sorted, m))
    ensures multiset(InsertMember(sorted, m)) == multiset(sorted) + multiset{m}
  {
    if sorted == [] {
      KeySortedCons(m, []);
    } else {
      var first, rest := sorted[0], sorted[1..];
      KeySortedSplit(sorted);
      LexTotal(m.key, first.key);
      if LexLess(m.key, first.key) {
        AboveTransitive(m.key, first.key, rest);
        KeySortedCons(m, sorted);
      } else {
        InsertMemberSorts(rest, m);
        InsertMemberAbove(rest, m, first.key);
        KeySortedCons(first, InsertMember(rest, m));
      }
    }
  }

  lemma KeysNotIn(members: seq<Member>, others: seq<Member>, key: string)
    requires multiset(members) == multiset(others)
    requires forall i :: 0 <= i < |others| ==> others[i].key != key
    ensures forall i :: 0 <= i < |members| ==> members[i].key != key
  {
    forall i | 0 <= i < |members| ensures members[i].key != key {
      assert members[i] in multiset(others);
      var k :| 0 <= k < |others| && others[k] == members[i];
    }
  }

  lemma DistinctKeysTail(members: seq<Member>)
    requires Distinct(Keys(members)) && members != []
    ensures Distinct(Keys(members[1..]))
    ensures forall i :: 0 <= i < |members[1..]| ==> members[1..][i].key != members[0].key
    ensures multiset(members) == multiset(members[1..]) + multiset{members[0]}
  {
    var rest := members[1..];
    assert members == [members[0]] + rest;
    forall i | 0 <= i < |rest| ensures Keys(rest)[i] == Keys(members)[i + 1] && rest[i].key != members[0].key {
      assert rest[i] == members[i + 1];
      assert Keys(members)[0] != Keys(members)[i + 1];
    }
  }

  lemma {:induction false} SortMembersSorts(members: seq<Member>)
    requires Distinct(Keys(members))
    ensures KeySorted(SortMembers(members)) && multiset(SortMembers(members)) == multiset(members)
  {
    if members != [] {
      DistinctKeysTail(members);
      SortMembersSorts(members[1..]);
      KeysNotIn(SortMembers(members[1..]), members[1..], members[0].key);
      InsertMemberSorts(SortMembers(members[1..]), members[0]);
    }
  }

  lemma KeySortedDistinct(members: seq<Member>)
    requires KeySorted(members)
    ensures Distinct(Keys(members))
  {
    forall i, j | 0 <= i < j < |members| ensures Keys(members)[i] != Keys(members)[j] {
      LexTotal(members[i].key, members[j].key);
    }
  }

  lemma LeastMember(members: seq<Member>, m: Member)
    requires KeySorted(members) && m in multiset(members)
    ensures members != [] && (m == members[0] || LexLess(members[0].key, m.key))
  {
    var k :| 0 <= k < |members| && members[k] == m;
  }

  /** Two key-sorted lists of the same members are the same list. */
  lemma {:induction false} KeySortedUnique(a: seq<Member>, b: seq<Member>)
    requires KeySorted(a) && KeySorted(b) && multiset(a) == multiset(b)
    ensures a == b
  {
    if a == [] {
      assert |multiset(b)| == 0;
    } else {
      assert a[0] in multiset(b);
      LeastMember(b, a[0]);
      assert b[0] in multiset(a);
      LeastMember(a, b[0]);
      LexTotal(a[0].key, b[0].key);
      KeySortedSplit(a);
      KeySortedSplit(b);
      assert multiset(a[1..]) == multiset(a) - multiset{a[0]};
      assert multiset(b[1..]) == multiset(b) - multiset{b[0]};
      KeySortedUnique(a[1..], b[1..]);
    }
  }

  // ----- Whole values in key order --------------------------------------------

  /** A JSON value with the members of every object, at any depth, in key order. */
  function InKeyOrder(j: Json): Json
    decreases j, 1
  {
    match j
    case Array(items) => Array(AllInKeyOrder(items))
    case Object(members) => Object(SortMembers(MembersInKeyOrder(members)))
    case _ => j
  }

  function AllInKeyOrder(items: seq<Json>): seq<Json>
    decreases items, 0
  {
    if items == [] then [] else [InKeyOrder(items[0])] + AllInKeyOrder(items[1..])
  }

  function MembersInKeyOrder(members: seq<Member>): seq<Member>
    decreases members, 0
  {
    if members == [] then [] else [MemberInKeyOrder(members[0])] + MembersInKeyOrder(members[1..])
  }

  function MemberInKeyOrder(m: Member): Member
    decreases m, 0
  {
    Member(m.key, InKeyOrder(m.value))
  }

  lemma {:induction false} AllInKeyOrderAt(items: seq<Json>)
    ensures |AllInKeyOrder(items)| == |items|
    ensures forall i :: 0 <= i < |items| ==> AllInKeyOrder(items)[i] == InKeyOrder(items[i])
  {
    if items != [] {
      AllInKeyOrderAt(items[1..]);
    }
  }

  lemma {:induction false} MembersInKeyOrderAt(members: seq<Member>)
    ensures |MembersInKeyOrder(members)| == |members|
    ensures forall i :: 0 <= i < |members| ==>
      MembersInKeyOrder(members)[i] == Member(members[i].key, InKeyOrder(members[i].value))
  {
    if members != [] {
      MembersInKeyOrderAt(members[1..]);
    }
  }

  lemma {:induction false} InsertedGet(sorted: seq<Member>, m: Member, key: string)
    requires forall i :: 0 <= i < |sorted| ==> sorted[i].key != m.key
    ensures Get(InsertMember(sorted, m), key) == if key == m.key then Some(m.value) else Get(sorted, key)
  {
    if sorted != [] {
      if LexLess(m.key, sorted[0].key) {
        assert ([m] + sorted)[1..] == sorted;
        AbsentKey(sorted, m.key);
      } else {
        InsertedGet(sorted[1..], m, key);
      }
    }
  }

  lemma {:induction false} AbsentKey(members: seq<Member>, key: string)
    requires forall i :: 0 <= i < |members| ==> members[i].key != key
    ensures Get(members, key) == None
  {
    if members != [] {
      AbsentKey(members[1..], key);
    }
  }

  lemma {:induction false} SortedGet(members: seq<Member>, key: string)
    requires Distinct(Keys(members))
    ensures Get(SortMembers(members), key) == Get(members, key)
  {
    if members != [] {
      DistinctKeysTail(members);
      SortMembersSorts(members[1..]);
      KeysNotIn(SortMembers(members[1..]), members[1..], members[0].key);
      SortedGet(members[1..], key);
      InsertedGet(SortMembers(members[1..]), members[0], key);
    }
  }

  lemma {:induction false} MembersGet(members: seq<Member>, key: string)
    ensures Get(MembersInKeyOrder(members), key) ==
            (var found := Get(members, key); if found.Some? then Some(InKeyOrder(found.value)) else None)
  {
    if members != [] {
      MembersGet(members[1..], key);
    }
  }

  /** Ordering an object does not change which keys it has, and only orders their values. */
  lemma {:induction false} GetInKeyOrder(members: seq<Member>, key: string)
    requires Distinct(Keys(members))
    ensures Get(InKeyOrder(Object(members)).members, key) ==
            (var found := Get(members, key); if found.Some? then Some(InKeyOrder(found.value)) else None)
  {
    MembersInKeyOrderAt(members);
    assert Keys(MembersInKeyOrder(members)) == Keys(members);
    SortedGet(MembersInKeyOrder(members), key);
    MembersGet(members, key);
  }
}
