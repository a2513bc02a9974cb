/**
  Freezing and serialising JSON-compatible values: both are normal forms, and two
  values serialise alike exactly when they mean the same JSON.
 */
module JsonNormalForm {
  import opened Prelude
  import opened Text
  import J = Json

  datatype Number = Finite(r: real) | NonFinite

  /** A dictionary key; JSON has no others than text. */
  datatype Key = TextKey(s: string) | OtherKey

  datatype Item = Item(key: Key, value: Value)

  /** Python values: lists and tuples, dictionaries and read-only proxies, in insertion order. */
  datatype Value =
    | Null
    | Bool(b: bool)
    | Int(i: int)
    | Float(n: Number)
    | Str(s: string)
    | List(elements: seq<Value>)
    | Tuple(elements: seq<Value>)
    | Dict(items: seq<Item>)
    | Proxy(items: seq<Item>)
    | Unsupported

  datatype JsonError = NotFinite | KeyNotText | UnsupportedType

  predicate IsMapping(v: Value) { v.Dict? || v.Proxy? }

  predicate IsSequence(v: Value) { v.List? || v.Tuple? }

  // ----- Freezing -------------------------------------------------------------

  function Freeze(v: Value): Result<Value, JsonError>
    decreases v, 1
  {
    match v
    case Float(n) => if n.NonFinite? then Err(NotFinite) else Ok(v)
    case List(elements) => var frozen :- FreezeAll(elements); Ok(Tuple(frozen))
    case Tuple(elements) => var frozen :- FreezeAll(elements); Ok(Tuple(frozen))
    case Dict(items) => var frozen :- FreezeItems(items); Ok(Proxy(frozen))
    case Proxy(items) => var frozen :- FreezeItems(items); Ok(Proxy(frozen))
    case Unsupported => Err(UnsupportedType)
    case _ => Ok(v)
  }

  function FreezeAll(values: seq<Value>): Result<seq<Value>, JsonError>
    decreases values, 0
  {
    if values == [] then Ok([])
    else
      var first :- Freeze(values[0]);
      var later :- FreezeAll(values[1..]);
      Ok([first] + later)
  }

  function FreezeItems(items: seq<Item>): Result<seq<Item>, JsonError>
    decreases items, 0
  {
    if items == [] then Ok([])
    else
      var first :- FreezeItem(items[0]);
      var later :- FreezeItems(items[1..]);
      Ok([first] + later)
  }

  function FreezeItem(item: Item): Result<Item, JsonError>
    decreases item, 0
  {
    if item.key.OtherKey? then Err(KeyNotText)
    else
      var value :- Freeze(item.value);
      Ok(Item(item.key, value))
  }

  /** No dictionary holds a key twice; true of every Python value. */
  predicate WellKeyed(v: Value)
    decreases v, 1
  {
    match v
    case List(elements) => AllWellKeyed(elements)
    case Tuple(elements) => AllWellKeyed(elements)
    case Dict(items) => ItemsWellKeyed(items)
    case Proxy(items) => ItemsWellKeyed(items)
    case _ => true
  }

  predicate AllWellKeyed(values: seq<Value>)
    decreases values, 0
  {
    values == [] || (WellKeyed(values[0]) && AllWellKeyed(values[1..]))
  }

  predicate ItemsWellKeyed(items: seq<Item>)
    decreases items, 0
  {
    items == [] || (ItemWellKeyed(items[0]) && Absent(items[0].key, items[1..]) && ItemsWellKeyed(items[1..]))
  }

  predicate ItemWellKeyed(item: Item)
    decreases item, 0
  {
    WellKeyed(item.value)
  }

  predicate Absent(key: Key, items: seq<Item>) {
    forall i :: 0 <= i < |items| ==> items[i].key != key
  }

  /** Finite JSON: text keys, each once, finite numbers, supported types. */
  predicate IsJson(v: Value)
    decreases v, 1
  {
    match v
    case Float(n) => n.Finite?
    case List(elements) => AllJson(elements)
    case Tuple(elements) => AllJson(elements)
    case Dict(items) => ItemsJson(items)
    case Proxy(items) => ItemsJson(items)
    case Unsupported => false
    case _ => true
  }

  predicate AllJson(values: seq<Value>)
    decreases values, 0
  {
    values == [] || (IsJson(values[0]) && AllJson(values[1..]))
  }

  predicate ItemsJson(items: seq<Item>)
    decreases items, 0
  {
    items == [] || (ItemJson(items[0]) && Absent(items[0].key, items[1..]) && ItemsJson(items[1..]))
  }

  predicate ItemJson(item: Item)
    decreases item, 0
  {
    item.key.TextKey? && IsJson(item.value)
  }

  // ----- Serialising ----------------------------------------------------------

  /** `to_json_value` on finite JSON: dictionaries in key order. */
  function Serialised(v: Value): J.Json
    requires IsJson(v)
    decreases v, 1
  {
    match v
    case Null => J.Null
    case Bool(b) => J.Bool(b)
    case Int(i) => J.Int(i)
    case Float(n) => J.Float(n.r)
    case Str(s) => J.String(s)
    case List(elements) => J.Array(SerialisedAll(elements))
    case Tuple(elements) => J.Array(SerialisedAll(elements))
    case Dict(items) => J.Object(J.SortMembers(SerialisedItems(items)))
    case Proxy(items) => J.Object(J.SortMembers(SerialisedItems(items)))
  }

  function SerialisedAll(values: seq<Value>): seq<J.Json>
    requires AllJson(values)
    decreases values, 0
  {
    if values == [] then [] else [Serialised(values[0])] + SerialisedAll(values[1..])
  }

  function SerialisedItems(items: seq<Item>): seq<J.Member>
    requires ItemsJson(items)
    decreases items, 0
  {
    if items == [] then [] else [SerialisedItem(items[0])] + SerialisedItems(items[1..])
  }

  function SerialisedItem(item: Item): J.Member
    requires ItemJson(item)
    decreases item, 0
  {
    J.Member(item.key.s, Serialised(item.value))
  }

  /** A serialised value as the plain Python value it is. */
  function Plain(j: J.Json): Value
    decreases j, 1
  {
    match j
    case Null => Null
    case Bool(b) => Bool(b)
    case Int(i) => Int(i)
    case Float(r) => Float(Finite(r))
    case String(s) => Str(s)
    case Array(items) => List(PlainAll(items))
    case Object(members) => Dict(PlainMembers(members))
  }

  function PlainAll(js: seq<J.Json>): seq<Value>
    decreases js, 0
  {
    if js == [] then [] else [Plain(js[0])] + PlainAll(js[1..])
  }

  function PlainMembers(members: seq<J.Member>): seq<Item>
    decreases members, 0
  {
    if members == [] then [] else [PlainMember(members[0])] + PlainMembers(members[1..])
  }

  function PlainMember(m: J.Member): Item
    decreases m, 0
  {
    Item(TextKey(m.key), Plain(m.value))
  }

  // ----- Frozen values --------------------------------------------------------

  /** Everything that keeps a value from being finite JSON, in reading order, a key before its value. */
  function Defects(v: Value): seq<JsonError>
    decreases v, 1
  {
    match v
    case Float(n) => if n.NonFinite? then [NotFinite] else []
    case List(elements) => AllDefects(elements)
    case Tuple(elements) => AllDefects(elements)
    case Dict(items) => ItemDefects(items)
    case Proxy(items) => ItemDefects(items)
    case Unsupported => [UnsupportedType]
    case _ => []
  }

  function AllDefects(values: seq<Value>): seq<JsonError>
    decreases values, 0
  {
    if values == [] then [] else Defects(values[0]) + AllDefects(values[1..])
  }

  function ItemDefects(items: seq<Item>): seq<JsonError>
    decreases items, 0
  {
    if items == [] then []
    else
      (if items[0].key.OtherKey? then [KeyNotText] else []) + DefectsBelow(items[0]) + ItemDefects(items[1..])
  }

  function DefectsBelow(item: Item): seq<JsonError>
    decreases item, 0
  {
    Defects(item.value)
  }

  /** Freezing raises the first defect, if there is one. */
  lemma {:induction false} FreezeRaisesFirst(v: Value)
    ensures if Defects(v) == [] then Freeze(v).Ok? else Freeze(v) == Err(Defects(v)[0])
    decreases v, 1
  {
    match v
    case List(elements) => FreezeAllRaisesFirst(elements);
    case Tuple(elements) => FreezeAllRaisesFirst(elements);
    case Dict(items) => FreezeItemsRaiseFirst(items);
    case Proxy(items) => FreezeItemsRaiseFirst(items);
    case _ =>
  }

  lemma {:induction false} FreezeAllRaisesFirst(values: seq<Value>)
    ensures if AllDefects(values) == [] then FreezeAll(values).Ok? else FreezeAll(values) == Err(AllDefects(values)[0])
    decreases values, 0
  {
    if values != [] {
      FreezeRaisesFirst(values[0]);
      FreezeAllRaisesFirst(values[1..]);
    }
  }

  lemma {:induction false} FreezeItemsRaiseFirst(items: seq<Item>)
    ensures
      if ItemDefects(items) == [] then FreezeItems(items).Ok?
      else FreezeItems(items) == Err(ItemDefects(items)[0])
    decreases items, 0
  {
    if items != [] {
      FreezeItemRaisesFirst(items[0]);
      FreezeItemsRaiseFirst(items[1..]);
    }
  }

  lemma {:induction false} FreezeItemRaisesFirst(item: Item)
    ensures
      if item.key.OtherKey? then FreezeItem(item) == Err(KeyNotText)
      else if DefectsBelow(item) == [] then FreezeItem(item).Ok? else FreezeItem(item) == Err(DefectsBelow(item)[0])
    decreases item, 0
  {
    FreezeRaisesFirst(item.value);
  }

  /** Freezing succeeds exactly on finite JSON. */
  lemma {:induction false} FreezesExactly(v: Value)
    requires WellKeyed(v)
    ensures Freeze(v).Ok? <==> IsJson(v)
    decreases v, 1
  {
    match v
    case List(elements) => FreezesAllExactly(elements);
    case Tuple(elements) => FreezesAllExactly(elements);
    case Dict(items) => FreezesItemsExactly(items);
    case Proxy(items) => FreezesItemsExactly(items);
    case _ =>
  }

  lemma {:induction false} FreezesAllExactly(values: seq<Value>)
    requires AllWellKeyed(values)
    ensures FreezeAll(values).Ok? <==> AllJson(values)
    decreases values, 0
  {
    if values != [] {
      FreezesExactly(values[0]);
      FreezesAllExactly(values[1..]);
    }
  }

  lemma {:induction false} FreezesItemsExactly(items: seq<Item>)
    requires ItemsWellKeyed(items)
    ensures FreezeItems(items).Ok? <==> ItemsJson(items)
    decreases items, 0
  {
    if items != [] {
      FreezesItemExactly(items[0]);
      FreezesItemsExactly(items[1..]);
    }
  }

  lemma {:induction false} FreezesItemExactly(item: Item)
    requires ItemWellKeyed(item)
    ensures FreezeItem(item).Ok? <==> ItemJson(item)
    decreases item, 0
  {
    FreezesExactly(item.value);
  }

  /** The frozen value is finite JSON, freezes to itself, and serialises like the original. */
  lemma {:induction false} FrozenIsNormal(v: Value)
    requires IsJson(v)
    ensures Freeze(v).Ok? && IsJson(Freeze(v).value)
    ensures Freeze(Freeze(v).value) == Freeze(v)
    ensures Serialised(Freeze(v).value) == Serialised(v)
    decreases v, 1
  {
    match v
    case List(elements) => FrozenAll(elements);
    case Tuple(elements) => FrozenAll(elements);
    case Dict(items) => FrozenItems(items);
    case Proxy(items) => FrozenItems(items);
    case _ =>
  }

  lemma {:induction false} FrozenAll(values: seq<Value>)
    requires AllJson(values)
    ensures FreezeAll(values).Ok? && AllJson(FreezeAll(values).value)
    ensures FreezeAll(FreezeAll(values).value) == FreezeAll(values)
    ensures SerialisedAll(FreezeAll(values).value) == SerialisedAll(values)
    decreases values, 0
  {
    if values != [] {
      FrozenIsNormal(values[0]);
      FrozenAll(values[1..]);
      assert FreezeAll(values).value[1..] == FreezeAll(values[1..]).value;
    }
  }

  lemma {:induction false} FrozenItems(items: seq<Item>)
    requires ItemsJson(items)
    ensures FreezeItems(items).Ok? && ItemsJson(FreezeItems(items).value)
    ensures FreezeItems(FreezeItems(items).value) == FreezeItems(items)
    ensures SerialisedItems(FreezeItems(items).value) == SerialisedItems(items)
    ensures |FreezeItems(items).value| == |items|
    ensures forall i :: 0 <= i < |items| ==> FreezeItems(items).value[i].key == items[i].key
    decreases items, 0
  {
    if items != [] {
      FrozenItem(items[0]);
      FrozenItems(items[1..]);
      assert FreezeItems(items).value[1..] == FreezeItems(items[1..]).value;
    }
  }

  lemma {:induction false} FrozenItem(item: Item)
    requires ItemJson(item)
    ensures FreezeItem(item).Ok? && ItemJson(FreezeItem(item).value) && FreezeItem(item).value.key == item.key
    ensures FreezeItem(FreezeItem(item).value) == FreezeItem(item)
    ensures SerialisedItem(FreezeItem(item).value) == SerialisedItem(item)
    decreases item, 0
  {
    FrozenIsNormal(item.value);
  }

  // ----- Serialised values ----------------------------------------------------

  lemma {:induction false} SerialisedKeys(items: seq<Item>)
    requires ItemsJson(items)
    ensures |SerialisedItems(items)| == |items|
    ensures forall i :: 0 <= i < |items| ==>
      items[i].key == TextKey(SerialisedItems(items)[i].key) && ItemJson(items[i])
      && SerialisedItems(items)[i] == SerialisedItem(items[i])
    ensures Distinct(J.Keys(SerialisedItems(items)))
  {
    if items != [] {
      SerialisedKeys(items[1..]);
      var members, later := SerialisedItems(items), SerialisedItems(items[1..]);
      assert forall i :: 0 < i < |items| ==> items[i] == items[1..][i - 1] && members[i] == later[i - 1];
      assert forall i :: 0 < i < |items| ==> J.Keys(members)[i] == J.Keys(later)[i - 1];
    }
  }

  /** Values that serialise to themselves: what `Serialised` produces. */
  ghost predicate Canonical(j: J.Json)
    decreases j, 1
  {
    match j
    case Array(items) => forall i :: 0 <= i < |items| ==> Canonical(items[i])
    case Object(members) => J.KeySorted(members) && forall i :: 0 <= i < |members| ==> Canonical(members[i].value)
    case _ => true
  }

  lemma {:induction false} SerialisedIsCanonical(v: Value)
    requires IsJson(v)
    ensures Canonical(Serialised(v))
    decreases v, 1
  {
    match v
    case List(elements) => SerialisedAllCanonical(elements);
    case Tuple(elements) => SerialisedAllCanonical(elements);
    case Dict(items) => SerialisedItemsCanonical(items);
    case Proxy(items) => SerialisedItemsCanonical(items);
    case _ =>
  }

  lemma {:induction false} SerialisedAllCanonical(values: seq<Value>)
    requires AllJson(values)
    ensures forall i :: 0 <= i < |SerialisedAll(values)| ==> Canonical(SerialisedAll(values)[i])
    decreases values, 0
  {
    if values != [] {
      SerialisedIsCanonical(values[0]);
      SerialisedAllCanonical(values[1..]);
    }
  }

  lemma {:induction false} SerialisedItemsCanonical(items: seq<Item>)
    requires ItemsJson(items)
    ensures forall i :: 0 <= i < |SerialisedItems(items)| ==> Canonical(SerialisedItems(items)[i].value)
    ensures Canonical(J.Object(J.SortMembers(SerialisedItems(items))))
    decreases items, 0
  {
    if items != [] {
      SerialisedItemCanonical(items[0]);
      SerialisedItemsCanonical(items[1..]);
    }
    SerialisedKeys(items);
    var members, sorted := SerialisedItems(items), J.SortMembers(SerialisedItems(items));
    J.SortMembersSorts(members);
    forall i | 0 <= i < |sorted| ensures Canonical(sorted[i].value) {
      assert sorted[i] in multiset(members);
      var k :| 0 <= k < |members| && members[k] == sorted[i];
    }
  }

  lemma {:induction false} SerialisedItemCanonical(item: Item)
    requires ItemJson(item)
    ensures Canonical(SerialisedItem(item).value)
    decreases item, 0
  {
    SerialisedIsCanonical(item.value);
  }

  lemma {:induction false} SortedAlready(members: seq<J.Member>)
    requires J.KeySorted(members)
    ensures J.SortMembers(members) == members
  {
    J.KeySortedDistinct(members);
    J.SortMembersSorts(members);
    J.KeySortedUnique(J.SortMembers(members), members);
  }

  lemma {:induction false} CanonicalIsFixed(j: J.Json)
    requires Canonical(j)
    ensures IsJson(Plain(j)) && Serialised(Plain(j)) == j
    decreases j, 1
  {
    match j
    case Array(items) => CanonicalAllFixed(items);
    case Object(members) =>
      CanonicalMembersFixed(members);
      SortedAlready(members);
    case _ =>
  }

  lemma {:induction false} CanonicalAllFixed(js: seq<J.Json>)
    requires forall i :: 0 <= i < |js| ==> Canonical(js[i])
    ensures AllJson(PlainAll(js)) && SerialisedAll(PlainAll(js)) == js
    decreases js, 0
  {
    if js != [] {
      CanonicalIsFixed(js[0]);
      CanonicalAllFixed(js[1..]);
      assert PlainAll(js)[0] == Plain(js[0]) && PlainAll(js)[1..] == PlainAll(js[1..]);
      assert [js[0]] + js[1..] == js;
    }
  }

  lemma {:induction false} CanonicalMembersFixed(members: seq<J.Member>)
    requires J.KeySorted(members) && forall i :: 0 <= i < |members| ==> Canonical(members[i].value)
    ensures ItemsJson(PlainMembers(members)) && SerialisedItems(PlainMembers(members)) == members
    ensures |PlainMembers(members)| == |members|
    ensures forall i :: 0 <= i < |members| ==> PlainMembers(members)[i].key == TextKey(members[i].key)
    decreases members, 0
  {
    if members != [] {
      CanonicalMemberFixed(members[0]);
      CanonicalMembersFixed(members[1..]);
      assert PlainMembers(members)[1..] == PlainMembers(members[1..]);
      forall i | 0 < i < |members| ensures members[i].key != members[0].key {
        LexTotal(members[0].key, members[i].key);
      }
    }
  }

  lemma {:induction false} CanonicalMemberFixed(m: J.Member)
    requires Canonical(m.value)
    ensures ItemJson(PlainMember(m)) && SerialisedItem(PlainMember(m)) == m
    decreases m, 0
  {
    CanonicalIsFixed(m.value);
  }

  /** Serialising a serialised value changes nothing. */
  lemma {:induction false} SerialisingIsIdempotent(v: Value)
    requires IsJson(v)
    ensures IsJson(Plain(Serialised(v))) && Serialised(Plain(Serialised(v))) == Serialised(v)
  {
    SerialisedIsCanonical(v);
    CanonicalIsFixed(Serialised(v));
  }

  // ----- Parsed JSON ----------------------------------------------------------

  /** On a value that is JSON already, serialising puts every object in key order and does nothing else. */
  lemma {:induction false} SerialisingOrdersKeys(j: J.Json)
    requires IsJson(Plain(j))
    ensures Serialised(Plain(j)) == J.InKeyOrder(j)
    decreases j, 1
  {
    match j
    case Array(items) => SerialisingOrdersAll(items);
    case Object(members) => SerialisingOrdersMembers(members);
    case _ =>
  }

  lemma {:induction false} SerialisingOrdersAll(js: seq<J.Json>)
    requires AllJson(PlainAll(js))
    ensures SerialisedAll(PlainAll(js)) == J.AllInKeyOrder(js)
    decreases js, 0
  {
    if js != [] {
      assert PlainAll(js)[0] == Plain(js[0]) && PlainAll(js)[1..] == PlainAll(js[1..]);
      SerialisingOrdersKeys(js[0]);
      SerialisingOrdersAll(js[1..]);
    }
  }

  lemma {:induction false} SerialisingOrdersMembers(members: seq<J.Member>)
    requires ItemsJson(PlainMembers(members))
    ensures SerialisedItems(PlainMembers(members)) == J.MembersInKeyOrder(members)
    decreases members, 0
  {
    if members != [] {
      assert PlainMembers(members)[0] == PlainMember(members[0]) &&
          PlainMembers(members)[1..] == PlainMembers(members[1..]);
      SerialisingOrdersMember(members[0]);
      SerialisingOrdersMembers(members[1..]);
    }
  }

  lemma {:induction false} SerialisingOrdersMember(m: J.Member)
    requires ItemJson(PlainMember(m))
    ensures SerialisedItem(PlainMember(m)) == J.MemberInKeyOrder(m)
    decreases m, 0
  {
    SerialisingOrdersKeys(m.value);
  }

  // ----- Meaning --------------------------------------------------------------

  function Find(items: seq<Item>, key: Key): Option<Value> {
    if items == [] then None
    else if items[0].key == key then Some(items[0].value)
    else Find(items[1..], key)
  }

  /** The same JSON: equal scalars, element by element, key by key in any order, frozen or not. */
  predicate Same(v: Value, w: Value)
    decreases v, 1
  {
    if IsMapping(v) && IsMapping(w) then |v.items| == |w.items| && SameItems(v.items, w.items)
    else if IsSequence(v) && IsSequence(w) then SameAll(v.elements, w.elements)
    else if IsMapping(v) || IsMapping(w) || IsSequence(v) || IsSequence(w) then false
    else v == w
  }

  predicate SameAll(values: seq<Value>, others: seq<Value>)
    decreases values, 0
  {
    |values| == |others| && (values == [] || (Same(values[0], others[0]) && SameAll(values[1..], others[1..])))
  }

  predicate SameItems(items: seq<Item>, others: seq<Item>)
    decreases items, 0
  {
    items == [] || (SameItem(items[0], others) && SameItems(items[1..], others))
  }

  predicate SameItem(item: Item, others: seq<Item>)
    decreases item, 0
  {
    Find(others, item.key).Some? && Same(item.value, Find(others, item.key).value)
  }

  lemma {:induction false} FindItem(items: seq<Item>, key: Key)
    ensures Find(items, key).Some? ==>
      exists i :: 0 <= i < |items| && items[i] == Item(key, Find(items, key).value)
    ensures Find(items, key).None? ==> Absent(key, items)
  {
    if items != [] && items[0].key != key {
      FindItem(items[1..], key);
      if Find(items[1..], key).Some? {
        var i :| 0 <= i < |items[1..]| && items[1..][i] == Item(key, Find(items[1..], key).value);
        assert items[i + 1] == Item(key, Find(items, key).value);
      }
    } else if items != [] {
      assert items[0] == Item(key, Find(items, key).value);
    }
  }

  /** A member is listed for `others` exactly when its key leads there to a value that serialises to it. */
  lemma {:induction false} MemberOfItems(others: seq<Item>, key: string, value: J.Json)
    requires ItemsJson(others)
    ensures
      var found := Find(others, TextKey(key));
      && (found.Some? ==> IsJson(found.value))
      && (J.Member(key, value) in SerialisedItems(others) <==> found.Some? && Serialised(found.value) == value)
  {
    var members, found := SerialisedItems(others), Find(others, TextKey(key));
    SerialisedKeys(others);
    FindItem(others, TextKey(key));
    if found.Some? {
      var i :| 0 <= i < |others| && others[i] == Item(TextKey(key), found.value);
      assert members[i] == J.Member(key, Serialised(found.value));
      if J.Member(key, value) in members {
        var k :| 0 <= k < |members| && members[k] == J.Member(key, value);
        assert J.Keys(members)[k] == J.Keys(members)[i];
      }
    } else {
      assert forall k :: 0 <= k < |members| ==>
          others[k].key == TextKey(members[k].key) && others[k].key != TextKey(key);
    }
  }

  lemma {:induction false} SameItemsExactly(items: seq<Item>, others: seq<Item>)
    requires ItemsJson(items) && ItemsJson(others)
    ensures SameItems(items, others) <==>
      forall m :: m in SerialisedItems(items) ==> m in SerialisedItems(others)
    decreases items, 0
  {
    if items != [] {
      SameItemExactly(items[0], others);
      SameItemsExactly(items[1..], others);
      var members, later := SerialisedItems(items), SerialisedItems(items[1..]);
      assert forall m :: m in members <==> m == SerialisedItem(items[0]) || m in later;
    }
  }

  lemma {:induction false} SameItemExactly(item: Item, others: seq<Item>)
    requires ItemJson(item) && ItemsJson(others)
    ensures SameItem(item, others) <==> SerialisedItem(item) in SerialisedItems(others)
    decreases item, 0
  {
    MemberOfItems(others, item.key.s, Serialised(item.value));
    var found := Find(others, item.key);
    if found.Some? {
      SameExactly(item.value, found.value);
    }
  }

  lemma {:induction false} SameAllExactly(values: seq<Value>, others: seq<Value>)
    requires AllJson(values) && AllJson(others)
    ensures SameAll(values, others) <==> SerialisedAll(values) == SerialisedAll(others)
    decreases values, 0
  {
    if values != [] && others != [] {
      SameExactly(values[0], others[0]);
      SameAllExactly(values[1..], others[1..]);
      assert SerialisedAll(values)[1..] == SerialisedAll(values[1..]);
      assert SerialisedAll(others)[1..] == SerialisedAll(others[1..]);
      assert SerialisedAll(values)[0] == Serialised(values[0]) && SerialisedAll(others)[0] == Serialised(others[0]);
    }
  }

  lemma SubsetOfEqualSize(a: seq<J.Member>, b: seq<J.Member>)
    requires Distinct(a) && Distinct(b) && |a| == |b| && forall m :: m in a ==> m in b
    ensures multiset(a) == multiset(b)
  {
    DistinctCardinality(a);
    DistinctCardinality(b);
    SubsetIsAll(Elements(a), Elements(b));
    forall m ensures multiset(a)[m] == multiset(b)[m] {
      DistinctCount(a, m);
      DistinctCount(b, m);
      assert m in a <==> m in Elements(a);
      assert m in b <==> m in Elements(b);
    }
  }

  lemma SubsetIsAll<T>(a: set<T>, b: set<T>)
    requires a <= b && |a| == |b|
    ensures a == b
  {
    assert |b - a| == |b| - |a|;
  }

  lemma {:induction false} DistinctCount<T>(s: seq<T>, x: T)
    requires Distinct(s)
    ensures multiset(s)[x] == if x in s then 1 else 0
  {
    if s != [] {
      var init, last := s[..|s| - 1], s[|s| - 1];
      assert s == init + [last];
      DistinctCount(init, x);
    }
  }

  lemma DistinctByKey(members: seq<J.Member>)
    requires Distinct(J.Keys(members))
    ensures Distinct(members)
  {
    assert forall i, j :: 0 <= i < j < |members| && members[i] == members[j] ==>
        J.Keys(members)[i] == J.Keys(members)[j];
  }

  lemma {:induction false} MappingsExactly(items: seq<Item>, others: seq<Item>)
    requires ItemsJson(items) && ItemsJson(others)
    ensures
      var a, b := SerialisedItems(items), SerialisedItems(others);
      J.SortMembers(a) == J.SortMembers(b) <==> |items| == |others| && forall m :: m in a ==> m in b
  {
    var a, b := SerialisedItems(items), SerialisedItems(others);
    SerialisedKeys(items);
    SerialisedKeys(others);
    J.SortMembersSorts(a);
    J.SortMembersSorts(b);
    DistinctByKey(a);
    DistinctByKey(b);
    if J.SortMembers(a) == J.SortMembers(b) {
      assert |multiset(a)| == |a| && |multiset(b)| == |b|;
      assert forall m :: m in a ==> m in multiset(b);
    }
    if |items| == |others| && forall m :: m in a ==> m in b {
      SubsetOfEqualSize(a, b);
      J.KeySortedUnique(J.SortMembers(a), J.SortMembers(b));
    }
  }

  /** Two values serialise to the same ordered output exactly when they are the same JSON. */
  lemma {:induction false} SameExactly(v: Value, w: Value)
    requires IsJson(v) && IsJson(w)
    ensures Same(v, w) <==> Serialised(v) == Serialised(w)
    decreases v, 1
  {
    if IsMapping(v) && IsMapping(w) {
      SameItemsExactly(v.items, w.items);
      MappingsExactly(v.items, w.items);
    } else if IsSequence(v) && IsSequence(w) {
      SameAllExactly(v.elements, w.elements);
    }
  }
}
