/**
 * The handlers' JSON (de)serialisation. A value is saved as a JSON array
 * holding the API name of its type's handler followed by its payload; a
 * construction (what is needed to rebuild a default value, the Enum table)
 * as the API name followed by the Enum's (index, label) pairs.
 */
module Serialization {
  import opened Outcomes
  import opened Numeric
  import opened Enums
  import opened Values
  import opened Handlers
  import opened Registry

  /** The JSON values the handlers write: strings, ints and bools. */
  datatype Json = JStr(s: string) | JInt(i: Int32) | JBool(b: bool)

  /** A rapidjson array value, appended to in place. */
  class JsonArray {
    var items: seq<Json>

    constructor ()
      ensures items == []
    {
      items := [];
    }

    method PushBack(j: Json)
      modifies this
      ensures items == old(items) + [j]
    {
      items := items + [j];
    }
  }

  /** The API name of the handler registered for `v`'s type: what GetTypeHandle(v)->ApiName() pushes first. */
  function ApiNameOfValue(v: Value, reg: TypeRegistry): (name: string)
    reads reg
    requires reg.Valid() && TypeHash(v) in reg.hashes
    ensures name == reg.hashesHandlers[TypeHash(v)].ApiName()
  {
    reg.GetTypeHandle(TypeHash(v)).ApiName()
  }

  /**
   * The payload SerializeValue of handler `k` pushes after the API name:
   * the string, bool or int itself, an Enum's current index as an int,
   * nothing for None. The any_cast throws for a value of another type.
   */
  function ValueItems(k: HandlerKind, v: Value): (r: Outcome<seq<Json>>)
    requires k != AnyHandler
    ensures k == NoneHandler ==> r == Ok([])
    ensures k != NoneHandler ==> (r.Ok? <==> TypeOf(v) == HandledType(k))
    ensures k != NoneHandler && r.Ok? ==> |r.value| == 1
    ensures r.Fail? ==> r.failure == BadAnyCast
  {
    match k
    case StringHandler => if v.VString? then Ok([JStr(v.s)]) else Fail(BadAnyCast)
    case BoolHandler => if v.VBool? then Ok([JBool(v.b)]) else Fail(BadAnyCast)
    case IntHandler => if v.VInt? then Ok([JInt(v.i)]) else Fail(BadAnyCast)
    case EnumHandler => if v.VEnum? then Ok([JInt(ToInt32(v.e.currentIndex))]) else Fail(BadAnyCast)
    case NoneHandler => Ok([])
  }

  /**
   * SerializeValue of handler `k`: pushes the API name of `v`'s handler,
   * then the payload. The name is pushed before the any_cast, so a value
   * of another type leaves the name behind and throws. None pushes nothing.
   */
  method SerializeValue(k: HandlerKind, v: Value, arr: JsonArray, reg: TypeRegistry) returns (r: Outcome<()>)
    requires reg.Valid() && k != AnyHandler
    requires k != NoneHandler ==> TypeHash(v) in reg.hashes  // GetTypeHandle(v) is dereferenced
    modifies arr
    ensures r.Ok? <==> ValueItems(k, v).Ok?
    ensures k == NoneHandler ==> arr.items == old(arr.items)
    ensures k != NoneHandler ==> arr.items == old(arr.items) + [JStr(ApiNameOfValue(v, reg))]
                                             + (if r.Ok? then ValueItems(k, v).value else [])
  {
    if k == NoneHandler {
      return Ok(());
    }
    var handle := reg.GetTypeHandle(TypeHash(v));
    arr.PushBack(JStr(handle.ApiName()));
    var payload := ValueItems(k, v);
    if payload.Fail? {
      return Fail(payload.failure);
    }
    arr.PushBack(payload.value[0]);
    assert payload.value == [payload.value[0]];
    return Ok(());
  }

  /**
   * DeserializeValue of handler `k` on the saved array `items`, given the
   * template value `template`: element 1 read as a string, bool or int
   * (any other shape is MalformedJson); the Enum handler then selects that
   * index in the template's table; None ignores the array.
   */
  function DeserializeValue(k: HandlerKind, template: Value, items: seq<Json>): (r: Outcome<Value>)
    requires k != AnyHandler
    ensures r.Ok? ==> TypeOf(r.value) == HandledType(k)
    ensures k == NoneHandler ==> r == Ok(VNone)
    ensures k != NoneHandler && |items| < 2 ==> r == Fail(MalformedJson)
    ensures r.Ok? && k == EnumHandler ==> template.VEnum? && r.value.e.values == template.e.values
    ensures r.Ok? && k != NoneHandler && k != EnumHandler ==> |items| > 1 && ValueItems(k, r.value) == Ok([items[1]])
    ensures r.Ok? && k == EnumHandler
            ==> |items| > 1 && items[1].JInt?
                && (ToUInt32(items[1].i) in template.e.values ==> ValueItems(k, r.value) == Ok([items[1]]))
                && (ToUInt32(items[1].i) !in template.e.values ==> r.value == template)
  {
    match k
    case NoneHandler => Ok(VNone)
    case StringHandler =>
      if |items| > 1 && items[1].JStr? then Ok(VString(items[1].s)) else Fail(MalformedJson)
    case BoolHandler =>
      if |items| > 1 && items[1].JBool? then Ok(VBool(items[1].b)) else Fail(MalformedJson)
    case IntHandler =>
      if |items| > 1 && items[1].JInt? then Ok(VInt(items[1].i)) else Fail(MalformedJson)
    case EnumHandler =>
      if !(|items| > 1 && items[1].JInt?) then Fail(MalformedJson)
      else if !template.VEnum? then Fail(BadAnyCast)
      else Ok(VEnum(template.e.SelectIndex(ToUInt32(items[1].i)).1))
  }

  /**
   * Saving a value and loading it back yields it again, whatever name
   * heads the array; an Enum needs a template with the same table, and
   * gets its current index back when that index is in the table.
   */
  lemma ValueRoundTrip(k: HandlerKind, v: Value, template: Value, name: string)
    requires k != AnyHandler && TypeOf(v) == HandledType(k)
    requires k == EnumHandler ==> template.VEnum? && template.e.values == v.e.values
                                  && v.e.currentIndex in v.e.values
    ensures DeserializeValue(k, template, [JStr(name)] + ValueItems(k, v).value) == Ok(v)
  {
  }

  /**
   * An Enum saved and loaded into a template with any table selects the
   * saved index in that table when it is a key there, and otherwise
   * leaves the template as it was.
   */
  lemma EnumValueIntoTemplate(e: EnumValue, t: EnumValue, name: string)
    ensures DeserializeValue(EnumHandler, VEnum(t), [JStr(name)] + ValueItems(EnumHandler, VEnum(e)).value)
            == Ok(VEnum(t.SelectIndex(e.currentIndex).1))
    ensures e.currentIndex in t.values
            ==> DeserializeValue(EnumHandler, VEnum(t), [JStr(name)] + ValueItems(EnumHandler, VEnum(e)).value)
                == Ok(VEnum(EnumValue(t.values, e.currentIndex)))
    ensures e.currentIndex !in t.values
            ==> DeserializeValue(EnumHandler, VEnum(t), [JStr(name)] + ValueItems(EnumHandler, VEnum(e)).value)
                == Ok(VEnum(t))
  {
  }

  /** The label `table` has at `k`, "" when there is none (what Enum::CurrentValue would show). */
  function Label(table: map<UInt32, string>, k: UInt32): string {
    if k in table then table[k] else ""
  }

  /** (index, label) pairs, flattened: what Enum's SerializeConstruction pushes after the name. */
  function Pairs(indices: seq<Int32>, table: map<UInt32, string>): (r: seq<Json>)
    ensures |r| == 2 * |indices|
  {
    if indices == [] then []
    else [JInt(indices[0]), JStr(Label(table, ToUInt32(indices[0])))] + Pairs(indices[1..], table)
  }

  /** One more pair at the end of the flattened pairs. */
  lemma {:induction false} PairsSnoc(indices: seq<Int32>, table: map<UInt32, string>, j: nat)
    requires j < |indices|
    ensures Pairs(indices[..j + 1], table)
            == Pairs(indices[..j], table) + [JInt(indices[j]), JStr(Label(table, ToUInt32(indices[j])))]
    decreases j
  {
    if j > 0 {
      PairsSnoc(indices[1..], table, j - 1);
      assert indices[..j + 1][1..] == indices[1..][..j];
      assert indices[..j][1..] == indices[1..][..j - 1];
    }
  }

  /** The pairs of an Enum's table: its indices in ascending order, each with its label. */
  function EnumPairs(e: EnumValue): (r: seq<Json>)
    ensures |r| == 2 * |e.values|
  {
    Pairs(e.Indices(), e.values)
  }

  /**
   * SerializeConstruction of handler `k`: the String, Bool and Int handlers
   * push the API name of `v`'s handler; the Enum handler does the same (it
   * delegates to IntHandler) and then any_casts `v` and pushes its pairs;
   * Any and None push nothing.
   */
  method SerializeConstruction(k: HandlerKind, v: Value, arr: JsonArray, reg: TypeRegistry) returns (r: Outcome<()>)
    requires reg.Valid()
    requires k != AnyHandler && k != NoneHandler ==> TypeHash(v) in reg.hashes  // GetTypeHandle(v) is dereferenced
    modifies arr
    ensures r.Ok? <==> k != EnumHandler || v.VEnum?
    ensures k == AnyHandler || k == NoneHandler ==> arr.items == old(arr.items)
    ensures k != AnyHandler && k != NoneHandler ==>
              arr.items == old(arr.items) + [JStr(ApiNameOfValue(v, reg))]
                           + (if k == EnumHandler && v.VEnum? then EnumPairs(v.e) else [])
  {
    if k == AnyHandler || k == NoneHandler {
      return Ok(());
    }
    var handle := reg.GetTypeHandle(TypeHash(v));
    arr.PushBack(JStr(handle.ApiName()));
    if k != EnumHandler {
      return Ok(());
    }
    if !v.VEnum? {
      return Fail(BadAnyCast);
    }
    var en := new Enum.FromTable(v.e.values, v.e.currentIndex);
    PushPairs(en, arr);
    return Ok(());
  }

  /** The loop of Enum's SerializeConstruction: each index of `en`, in ascending order, then its label. */
  method PushPairs(en: Enum, arr: JsonArray)
    modifies arr
    ensures arr.items == old(arr.items) + EnumPairs(en.Value())
  {
    ghost var start := arr.items;
    ghost var table := en.values;
    var indices := en.Indices();
    for j := 0 to |indices|
      invariant arr.items == start + Pairs(indices[..j], table)
    {
      var st := en.ValueAtIndex(indices[j]);
      assert st == Ok(Label(table, ToUInt32(indices[j])));
      ghost var before := Pairs(indices[..j], table);
      PushPair(arr, indices[j], st.value);
      PairsSnoc(indices, table, j);
      AppendAssoc(start, before, [JInt(indices[j]), JStr(st.value)]);
    }
    assert indices[..|indices|] == indices;
  }

  lemma AppendAssoc(a: seq<Json>, b: seq<Json>, c: seq<Json>)
    ensures (a + b) + c == a + (b + c)
  {
  }

  /** The two PushBack calls of one turn of that loop. */
  method PushPair(arr: JsonArray, index: Int32, text: string)
    modifies arr
    ensures arr.items == old(arr.items) + [JInt(index), JStr(text)]
  {
    arr.PushBack(JInt(index));
    arr.PushBack(JStr(text));
  }

  /**
   * The loop of Enum's DeserializeConstruction from position `i` on: each
   * (int, string) pair adds that label at that index; an odd element out
   * or a pair of the wrong shape is MalformedJson.
   */
  function DecodePairs(items: seq<Json>, i: nat, acc: EnumValue): (r: Outcome<EnumValue>)
    ensures r.Ok? ==> r.value.currentIndex == acc.currentIndex && acc.values.Keys <= r.value.values.Keys
    decreases |items| - i
  {
    if i >= |items| then Ok(acc)
    else if i + 1 >= |items| || !items[i].JInt? || !items[i + 1].JStr? then Fail(MalformedJson)
    else DecodePairs(items, i + 2, acc.AddValue(items[i].i, items[i + 1].s))
  }

  /** Enum::AddValue of every pair in turn. */
  function AddAll(acc: EnumValue, indices: seq<Int32>, table: map<UInt32, string>): EnumValue
    decreases |indices|
  {
    if indices == [] then acc
    else AddAll(acc.AddValue(indices[0], Label(table, ToUInt32(indices[0]))), indices[1..], table)
  }

  /** Decoding the flattened pairs adds them all, in order. */
  lemma {:induction false} DecodePairsOfPairs(items: seq<Json>, i: nat, acc: EnumValue, indices: seq<Int32>, table: map<UInt32, string>)
    requires i <= |items| && items[i..] == Pairs(indices, table)
    ensures DecodePairs(items, i, acc) == Ok(AddAll(acc, indices, table))
    decreases indices
  {
    if indices != [] {
      assert items[i] == JInt(indices[0]) && items[i + 1] == JStr(Label(table, ToUInt32(indices[0])));
      assert items[i + 2..] == items[i..][2..];
      DecodePairsOfPairs(items, i + 2, acc.AddValue(indices[0], Label(table, ToUInt32(indices[0]))), indices[1..], table);
    } else {
      assert |items[i..]| == 0;
    }
  }

  /** The unsigned keys named by some indices. */
  function KeysOf(indices: seq<Int32>): set<UInt32> {
    set j | 0 <= j < |indices| :: ToUInt32(indices[j])
  }

  lemma KeysOfCons(indices: seq<Int32>)
    requires indices != []
    ensures KeysOf(indices) == {ToUInt32(indices[0])} + KeysOf(indices[1..])
  {
    var rest := indices[1..];
    forall k | k in KeysOf(indices)
      ensures k in {ToUInt32(indices[0])} + KeysOf(rest)
    {
      var j :| 0 <= j < |indices| && ToUInt32(indices[j]) == k;
      if j > 0 {
        assert rest[j - 1] == indices[j];
      }
    }
    forall k | k in KeysOf(rest)
      ensures k in KeysOf(indices)
    {
      var j :| 0 <= j < |rest| && ToUInt32(rest[j]) == k;
      assert indices[j + 1] == rest[j];
    }
  }

  /**
   * Adding the pairs of some indices with their labels in `table`: the
   * result gains exactly those keys, each labelled as in `table`, and
   * keeps every other entry and the current index.
   */
  lemma {:induction false} AddAllSpec(acc: EnumValue, indices: seq<Int32>, table: map<UInt32, string>)
    ensures AddAll(acc, indices, table).values.Keys == acc.values.Keys + KeysOf(indices)
    ensures forall k :: k in KeysOf(indices) ==> AddAll(acc, indices, table).values[k] == Label(table, k)
    ensures forall k :: k in acc.values && k !in KeysOf(indices) ==> AddAll(acc, indices, table).values[k] == acc.values[k]
    ensures AddAll(acc, indices, table).currentIndex == acc.currentIndex
    decreases indices
  {
    if indices != [] {
      var next := acc.AddValue(indices[0], Label(table, ToUInt32(indices[0])));
      AddAllSpec(next, indices[1..], table);
      KeysOfCons(indices);
    }
  }

  /** An Enum's indices name exactly its keys. */
  lemma KeysOfIndices(e: EnumValue)
    ensures KeysOf(e.Indices()) == e.values.Keys
  {
    e.IndicesCover();
  }

  /** Adding the pairs of indices that name exactly the keys of `table` to an empty table rebuilds it. */
  lemma RebuildsFrom(indices: seq<Int32>, table: map<UInt32, string>)
    requires KeysOf(indices) == table.Keys
    ensures AddAll(EnumValue(map[], 0), indices, table) == EnumValue(table, 0)
  {
    AddAllSpec(EnumValue(map[], 0), indices, table);
    var r := AddAll(EnumValue(map[], 0), indices, table);
    assert r.values == table;
  }

  /** Adding an Enum's pairs to an empty table rebuilds that table. */
  lemma RebuildsTable(e: EnumValue)
    ensures AddAll(EnumValue(map[], 0), e.Indices(), e.values) == EnumValue(e.values, 0)
  {
    KeysOfIndices(e);
    RebuildsFrom(e.Indices(), e.values);
  }


  /**
   * The Enum DeserializeConstruction loop on the Enum class: from element 1,
   * each (int, string) pair is added with AddValue.
   */
  method DeserializeEnumConstruction(items: seq<Json>) returns (r: Outcome<EnumValue>)
    ensures r == DecodePairs(items, 1, EnumValue(map[], 0))
  {
    var result := new Enum();
    var i := 1;
    while i < |items|
      invariant 1 <= i
      invariant DecodePairs(items, i, result.Value()) == DecodePairs(items, 1, EnumValue(map[], 0))
      decreases |items| - i
    {
      if i + 1 >= |items| || !items[i].JInt? || !items[i + 1].JStr? {
        return Fail(MalformedJson);
      }
      result.AddValue(items[i].i, items[i + 1].s);
      i := i + 2;
    }
    return Ok(result.Value());
  }

  /**
   * DeserializeConstruction of handler `k`: the Enum handler rebuilds its
   * table from the saved pairs; every other handler returns its InitValue.
   */
  function DeserializeConstruction(k: HandlerKind, items: seq<Json>): (r: Outcome<Value>)
    ensures r.Ok? ==> TypeOf(r.value) == HandledType(k)
    ensures k != EnumHandler ==> r == Ok(InitValue(k))
    ensures k == EnumHandler && r.Ok? ==> r.value.e.currentIndex == 0
  {
    if k != EnumHandler then Ok(InitValue(k))
    else
      var decoded := DecodePairs(items, 1, EnumValue(map[], 0));
      if decoded.Fail? then Fail(decoded.failure) else Ok(VEnum(decoded.value))
  }

  /** Saving an Enum's construction and loading it back rebuilds its table, at index 0. */
  lemma EnumConstructionRoundTrip(e: EnumValue, name: string)
    ensures DeserializeConstruction(EnumHandler, [JStr(name)] + EnumPairs(e)) == Ok(VEnum(EnumValue(e.values, 0)))
  {
    var items := [JStr(name)] + EnumPairs(e);
    assert items[1..] == EnumPairs(e);
    DecodePairsOfPairs(items, 1, EnumValue(map[], 0), e.Indices(), e.values);
    RebuildsTable(e);
  }

  /**
   * Saving an Enum's construction, then its value, and loading both back
   * gives the Enum again when its current index is in its table.
   */
  lemma EnumRoundTrip(e: EnumValue, name: string, valueName: string)
    requires e.currentIndex in e.values
    ensures var built := DeserializeConstruction(EnumHandler, [JStr(name)] + EnumPairs(e));
            built.Ok? && DeserializeValue(EnumHandler, built.value, [JStr(valueName)] + ValueItems(EnumHandler, VEnum(e)).value)
                         == Ok(VEnum(e))
  {
    EnumConstructionRoundTrip(e, name);
    ValueRoundTrip(EnumHandler, VEnum(e), VEnum(EnumValue(e.values, 0)), valueName);
  }

  /** The construction of {0: "A", 1: "B", 2: "C"} is its name and three pairs, in index order. */
  lemma EnumPairsExample()
    ensures EnumPairs(EnumValue(map[0 := "A", 1 := "B", 2 := "C"], 1))
            == [JInt(0), JStr("A"), JInt(1), JStr("B"), JInt(2), JStr("C")]
  {
    var e := EnumValue(map[0 := "A", 1 := "B", 2 := "C"], 1);
    IndicesOfThree(e);
    assert Pairs([0, 1, 2], e.values) == [JInt(0), JStr("A"), JInt(1), JStr("B"), JInt(2), JStr("C")];
  }

  lemma IndicesOfThree(e: EnumValue)
    requires e.values.Keys == {0, 1, 2}
    ensures e.Indices() == [0, 1, 2]
  {
    SortedKeysOfThree();
  }

  lemma SortedKeysOfThree()
    ensures SortedKeys({0, 1, 2}) == [0, 1, 2]
  {
    assert MinIndex({0, 1, 2}) == 0;
    assert {0, 1, 2} - {0} == {1, 2};
    assert MinIndex({1, 2}) == 1;
    assert {1, 2} - {1} == {2};
    assert MinIndex({2}) == 2;
    assert {2} - {2} == {};
  }

  /** A construction with an odd element after the pairs is malformed. */
  lemma DanglingKeyIsMalformed(name: string, key: Int32)
    ensures DeserializeConstruction(EnumHandler, [JStr(name), JInt(key)]) == Fail(MalformedJson)
  {
  }
}
