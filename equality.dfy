/**
 * Equality and hashing of handled values: each handler's CompareValue and
 * ValueHash, and AnyValue::operator==, which re-enters the registry with
 * the held value's type.
 */
module Equality {
  import opened Outcomes
  import opened Numeric
  import opened Enums
  import opened Values
  import opened Handlers
  import opened Registry

  /**
   * CompareValue of handler `k`. The scalar and None handlers any_cast
   * both operands and throw on a mismatch; Enum and Any answer false
   * instead; Enum compares current labels only.
   */
  function CompareValue(k: HandlerKind, v1: Value, v2: Value, reg: TypeRegistry): (r: Outcome<bool>)
    reads reg
    requires reg.Valid()
    ensures k == EnumHandler ==> r.Ok?
    ensures k != EnumHandler && k != AnyHandler
            ==> (r.Ok? <==> TypeOf(v1) == HandledType(k) && TypeOf(v2) == HandledType(k))
    ensures r.Ok? && k != EnumHandler && k != AnyHandler ==> (r.value <==> v1 == v2)
    ensures k == EnumHandler ==> (r.value <==> v1.VEnum? && v2.VEnum? && v1.e.CurrentValue() == v2.e.CurrentValue())
    ensures k == AnyHandler && !(v1.VAny? && v2.VAny?) ==> r == Ok(false)
    ensures k == AnyHandler && v1.VAny? && v2.VAny? ==> r == AnyEquals(v1.held, v2.held, reg)
    ensures k == AnyHandler && r == Ok(true) ==> v1.VAny? && v2.VAny? && TypeOf(v1.held) == TypeOf(v2.held)
    decreases v1, 0
  {
    match k
    case EnumHandler =>
      if v1.VEnum? && v2.VEnum? then Ok(v1.e.Equals(v2.e)) else Ok(false)
    case AnyHandler =>
      if v1.VAny? && v2.VAny? then AnyEquals(v1.held, v2.held, reg) else Ok(false)
    case _ =>
      if TypeOf(v1) == HandledType(k) && TypeOf(v2) == HandledType(k) then Ok(v1 == v2) else Fail(BadAnyCast)
  }

  /**
   * AnyValue::operator== on the held values `a` and `b`: false when their
   * types differ or the type has no handler, else that handler's CompareValue.
   */
  function AnyEquals(a: Value, b: Value, reg: TypeRegistry): (r: Outcome<bool>)
    reads reg
    requires reg.Valid()
    ensures TypeHash(a) != TypeHash(b) || TypeHash(a) !in reg.hashes ==> r == Ok(false)
    ensures r == Ok(true) ==> TypeOf(a) == TypeOf(b)
    decreases a, 1
  {
    if TypeHash(a) != TypeHash(b) then Ok(false)
    else
      var handler := reg.GetTypeHandle(TypeHash(a));
      if handler == null then Ok(false) else CompareValue(handler.kind, a, b, reg)
  }

  /** Every handler's CompareValue, and so AnyValue::operator==, is symmetric, exceptions included. */
  lemma {:induction false} CompareSymmetric(k: HandlerKind, a: Value, b: Value, reg: TypeRegistry)
    requires reg.Valid()
    ensures CompareValue(k, a, b, reg) == CompareValue(k, b, a, reg)
    decreases a
  {
    if k == AnyHandler && a.VAny? && b.VAny? && TypeHash(a.held) == TypeHash(b.held) {
      var handler := reg.GetTypeHandle(TypeHash(a.held));
      if handler != null {
        CompareSymmetric(handler.kind, a.held, b.held, reg);
      }
    }
  }

  /**
   * The Enum handler's CompareValue is Enum::operator==, which is therefore
   * an equivalence: reflexive, symmetric and transitive.
   */
  lemma EnumCompareIsEquals(a: EnumValue, b: EnumValue, c: EnumValue, reg: TypeRegistry)
    requires reg.Valid()
    ensures CompareValue(EnumHandler, VEnum(a), VEnum(b), reg) == Ok(a.Equals(b))
    ensures a.Equals(a)
    ensures a.Equals(b) == b.Equals(a)
    ensures a.Equals(b) && b.Equals(c) ==> a.Equals(c)
  {
  }

  /** Every Any nested in `v` holds a value of a registered type. */
  ghost predicate Registered(v: Value, reg: TypeRegistry)
    reads reg
  {
    v.VAny? ==> TypeHash(v.held) in reg.hashes && Registered(v.held, reg)
  }

  /**
   * CompareValue is reflexive on values of the handled type, provided
   * every handler sits under its own type and every nested Any holds a
   * registered type.
   */
  lemma {:induction false} CompareReflexive(k: HandlerKind, v: Value, reg: TypeRegistry)
    requires reg.Valid() && reg.HandlersAgree()
    requires TypeOf(v) == HandledType(k) && Registered(v, reg)
    ensures CompareValue(k, v, v, reg) == Ok(true)
    decreases v
  {
    if k == AnyHandler {
      var handler := reg.GetTypeHandle(TypeHash(v.held));
      IdHashInjective(HandledType(handler.kind), TypeOf(v.held));
      CompareReflexive(handler.kind, v.held, reg);
    }
  }

  /** An Any holding a value whose type is not registered equals nothing, itself included. */
  lemma AnyUnregisteredNeverEqual(a: Value, b: Value, reg: TypeRegistry)
    requires reg.Valid()
    requires TypeHash(a) !in reg.hashes
    ensures CompareValue(AnyHandler, VAny(a), b, reg) == Ok(false)
  {
  }

  /**
   * CompareValue(InitValue(), InitValue()) holds for every built-in handler
   * but Any: its default is an AnyValue holding an empty std::any, whose
   * type (void) no handler of an agreeing registry handles.
   */
  lemma InitValueSelfEqual(k: HandlerKind, reg: TypeRegistry)
    requires reg.Valid() && reg.HandlersAgree()
    ensures k != AnyHandler ==> CompareValue(k, InitValue(k), InitValue(k), reg) == Ok(true)
    ensures k == AnyHandler ==> CompareValue(k, InitValue(k), InitValue(k), reg) == Ok(false)
  {
    if k == AnyHandler {
      if TypeHash(VEmpty) in reg.hashes {
        var handler := reg.hashesHandlers[TypeHash(VEmpty)];
        IdHashInjective(HandledType(handler.kind), TVoid);
        assert false;
      }
    }
  }

  /**
   * What each ValueHash feeds to its final std::hash (or the constant 0 it
   * returns): distinct keys may still collide after hashing, equal keys
   * never differ.
   */
  datatype HashKey = OfString(s: string) | OfBool(b: bool) | OfInt(i: Int32) | Zero

  /** The labels joined with ":", the separator being skipped while the text built so far is empty. */
  function Joined(labels: seq<string>): string {
    if labels == [] then ""
    else
      var prefix := Joined(labels[..|labels| - 1]);
      (if prefix == "" then prefix else prefix + ":") + labels[|labels| - 1]
  }

  /** The text EnumHandler::ValueHash hashes: the joined labels, ":", then the current index in decimal. */
  function EnumHashText(e: EnumValue): string {
    Joined(Labels(e)) + ":" + NatToString(e.currentIndex)
  }

  /** Appending one label to the joined text, as one turn of EnumHandler::ValueHash's loop does. */
  lemma JoinedStep(labels: seq<string>, j: nat)
    requires j < |labels|
    ensures Joined(labels[..j + 1])
            == (if Joined(labels[..j]) == "" then "" else Joined(labels[..j]) + ":") + labels[j]
  {
    assert labels[..j + 1][..j] == labels[..j];
  }

  /** EnumHandler::ValueHash's loop, which builds EnumHashText over Indices() and ValueAtIndex. */
  method EnumHashTextOf(e: EnumValue) returns (text: string)
    ensures text == EnumHashText(e)
  {
    var indices := e.Indices();
    ghost var labels := Labels(e);
    var str := "";
    for j := 0 to |indices|
      invariant str == Joined(labels[..j])
    {
      var entry := e.ValueAtIndex(indices[j]);
      IndexLabel(e, j);
      JoinedStep(labels, j);
      if str != "" {
        str := str + ":";
      }
      str := str + entry.value;
    }
    assert labels[..|indices|] == labels;
    text := str + ":" + NatToString(e.currentIndex);
  }

  /**
   * ValueHash of handler `k`: the scalars hash their payload, Enum its
   * hash text, None returns 0, and Any defers to the held type's handler
   * (0 when there is none). The casts throw on a value of another type.
   */
  function ValueHash(k: HandlerKind, v: Value, reg: TypeRegistry): (r: Outcome<HashKey>)
    reads reg
    requires reg.Valid()
    ensures k != NoneHandler && k != AnyHandler ==> (r.Ok? <==> TypeOf(v) == HandledType(k))
    ensures k == NoneHandler ==> r == Ok(Zero)
    ensures k == AnyHandler && !v.VAny? ==> r == Fail(BadAnyCast)
    ensures k == AnyHandler && v.VAny? && TypeHash(v.held) !in reg.hashes ==> r == Ok(Zero)
    decreases v
  {
    match k
    case StringHandler => if v.VString? then Ok(OfString(v.s)) else Fail(BadAnyCast)
    case BoolHandler => if v.VBool? then Ok(OfBool(v.b)) else Fail(BadAnyCast)
    case IntHandler => if v.VInt? then Ok(OfInt(v.i)) else Fail(BadAnyCast)
    case EnumHandler => if v.VEnum? then Ok(OfString(EnumHashText(v.e))) else Fail(BadAnyCast)
    case NoneHandler => Ok(Zero)
    case AnyHandler =>
      if !v.VAny? then Fail(BadAnyCast)
      else
        var handler := reg.GetTypeHandle(TypeHash(v.held));
        if handler == null then Ok(Zero) else ValueHash(handler.kind, v.held, reg)
  }

  /** For the scalar and None handlers, values CompareValue calls equal have equal hashes. */
  lemma HashConsistentWithCompare(k: HandlerKind, a: Value, b: Value, reg: TypeRegistry)
    requires reg.Valid()
    requires k != EnumHandler && k != AnyHandler
    requires CompareValue(k, a, b, reg) == Ok(true)
    ensures ValueHash(k, a, reg) == ValueHash(k, b, reg)
  {
  }

  /**
   * Enums with the same current label but different tables compare equal
   * yet hash differently: {0: "A"} and {0: "A", 1: "B"}, both at index 0.
   */
  lemma EnumEqualButHashesDiffer(reg: TypeRegistry)
    requires reg.Valid()
    ensures var a := VEnum(EnumValue(map[0 := "A"], 0));
            var b := VEnum(EnumValue(map[0 := "A", 1 := "B"], 0));
            CompareValue(EnumHandler, a, b, reg) == Ok(true)
            && ValueHash(EnumHandler, a, reg) != ValueHash(EnumHandler, b, reg)
  {
    HashTextOfA();
    HashTextOfAB();
  }

  lemma NatToStringZero()
    ensures NatToString(0) == "0"
  {
  }

  lemma HashTextOfA()
    ensures EnumHashText(EnumValue(map[0 := "A"], 0)) == "A:0"
  {
    LabelsOfOne("A", 0);
    NatToStringZero();
  }

  lemma HashTextOfAB()
    ensures EnumHashText(EnumValue(map[0 := "A", 1 := "B"], 0)) == "A:B:0"
  {
    LabelsOfTwo("A", "B", 0);
    JoinedOfTwo("A", "B");
    NatToStringZero();
  }

  lemma LabelsOfOne(a: string, i: UInt32)
    ensures Labels(EnumValue(map[0 := a], i)) == [a]
  {
    SortedKeysOfOne();
    assert map[0 := a].Keys == {0};
  }

  lemma LabelsOfTwo(a: string, b: string, i: UInt32)
    ensures Labels(EnumValue(map[0 := a, 1 := b], i)) == [a, b]
  {
    SortedKeysOfTwo();
    assert map[0 := a, 1 := b].Keys == {0, 1};
  }

  lemma JoinedOfTwo(a: string, b: string)
    ensures Joined([a, b]) == (if a == "" then "" else a + ":") + b
  {
    assert [a][..0] == [];
    assert Joined([a]) == a;
    assert [a, b][..1] == [a];
  }

  lemma SortedKeysOfOne()
    ensures SortedKeys({0}) == [0]
  {
    assert MinIndex({0}) == 0;
    assert {0} - {0} == {};
  }

  lemma SortedKeysOfTwo()
    ensures SortedKeys({0, 1}) == [0, 1]
  {
    assert MinIndex({0, 1}) == 0;
    assert {0, 1} - {0} == {1};
    assert MinIndex({1}) == 1;
    assert {1} - {1} == {};
  }

  /** The Enum hash text tells apart any two current indices over the same table. */
  lemma EnumHashTextDetectsIndex(e: EnumValue, i: UInt32, j: UInt32)
    requires i != j
    ensures EnumHashText(e.(currentIndex := i)) != EnumHashText(e.(currentIndex := j))
  {
    var prefix := Joined(Labels(e)) + ":";
    assert EnumHashText(e.(currentIndex := i)) == prefix + NatToString(i);
    assert EnumHashText(e.(currentIndex := j)) == prefix + NatToString(j);
    if prefix + NatToString(i) == prefix + NatToString(j) {
      assert (prefix + NatToString(i))[|prefix|..] == NatToString(i);
      assert (prefix + NatToString(j))[|prefix|..] == NatToString(j);
      NatToStringInjective(i, j);
    }
  }

  /**
   * The hash text does not determine the table: an empty first label
   * swallows the separator, so {0: "", 1: "B"} and {0: "B"} collide.
   */
  lemma EnumHashTextCollides()
    ensures EnumHashText(EnumValue(map[0 := "", 1 := "B"], 0)) == EnumHashText(EnumValue(map[0 := "B"], 0))
  {
    LabelsOfTwo("", "B", 0);
    JoinedOfTwo("", "B");
    LabelsOfOne("B", 0);
    assert Joined(["B"]) == "B" by {
      assert ["B"][..0] == [];
    }
  }
}
