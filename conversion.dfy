/**
 * The conversion engine: the converter objects of the core, the
 * AnyConverter that re-enters the registry with the wrapped value's type,
 * and TypeHandler::ConvertFrom, which dispatches on the source's type.
 */
module Conversion {
  import opened Outcomes
  import opened Numeric
  import opened Enums
  import opened Values
  import opened Handlers
  import opened Registry

  /**
   * TypeConverter::Convert for every converter except AnyConverter, on
   * source `from` and current value `to`. A failed std::any_cast is
   * Fail(BadAnyCast); StrToInt catches everything and yields 0 instead.
   * StrToBool is the corrected one (see StrToBoolAsWritten).
   */
  function Cast(c: ConverterKind, from: Value, to: Value): (r: Outcome<Value>)
    requires c != AnyConv
    ensures r.Ok? <==> (Accepts(c, TypeOf(from)) || c == StrToInt) && (NeedsCurrent(c) ==> TypeOf(to) == Target(c))
    ensures r.Ok? ==> TypeOf(r.value) == Target(c)
    ensures r.Ok? && Target(c) == TEnum ==> r.value.e.values == to.e.values
  {
    if NeedsCurrent(c) then CastWithCurrent(c, from, to) else CastFrom(c, from)
  }

  /** The converters that ignore the current value: static casts, string and Enum conversions. */
  function CastFrom(c: ConverterKind, from: Value): (r: Outcome<Value>)
    requires c != AnyConv && !NeedsCurrent(c)
    ensures r.Ok? <==> Accepts(c, TypeOf(from)) || c == StrToInt
    ensures r.Ok? ==> TypeOf(r.value) == Target(c)
  {
    if c == BoolToInt then (if from.VBool? then Ok(VInt(if from.b then 1 else 0)) else Fail(BadAnyCast))
    else if c == IntToBool then (if from.VInt? then Ok(VBool(from.i != 0)) else Fail(BadAnyCast))
    else if c == IntToStr then (if from.VInt? then Ok(VString(IntToString(from.i))) else Fail(BadAnyCast))
    else if c == EnumToStr then (if from.VEnum? then Ok(VString(from.e.CurrentValue())) else Fail(BadAnyCast))
    else if c == StrToBool then (if from.VString? then Ok(VBool(|from.s| != 0)) else Fail(BadAnyCast))
    else if c == EnumToBool then (if from.VEnum? then Ok(VBool(from.e.currentIndex != 0)) else Fail(BadAnyCast))
    else if c == StrToInt then
      var parsed := if from.VString? then ParseInt(from.s) else None;
      Ok(VInt(if parsed.Some? then parsed.value else 0))
    else if from.VEnum? then Ok(VInt(ToInt32(from.e.currentIndex))) else Fail(BadAnyCast)  // EnumToInt
  }

  /**
   * The converters that any_cast the current value to their target type:
   * the Enum ones select in the current Enum's table, ToAny wraps the source.
   */
  function CastWithCurrent(c: ConverterKind, from: Value, to: Value): (r: Outcome<Value>)
    requires NeedsCurrent(c)
    ensures r.Ok? <==> Accepts(c, TypeOf(from)) && TypeOf(to) == Target(c)
    ensures r.Ok? ==> TypeOf(r.value) == Target(c)
    ensures r.Ok? && Target(c) == TEnum ==> r.value.e.values == to.e.values
  {
    // both any_casts, of the current value and of the source, throw bad_any_cast on a mismatch
    if !(Accepts(c, TypeOf(from)) && TypeOf(to) == Target(c)) then Fail(BadAnyCast)
    else if c == BoolToEnum then Ok(VEnum(to.e.SelectIndex(if from.b then 1 else 0).1))
    else if c == IntToEnum then Ok(VEnum(to.e.SelectIndex(ToUInt32(from.i)).1))
    else if c == StrToEnum then Ok(VEnum(to.e.SelectLabel(from.s).1))
    else Ok(VAny(from))  // ToAny
  }

  /** StrToBool as written: yields whether the string is empty. */
  function StrToBoolAsWritten(from: Value): (r: Outcome<Value>)
    ensures r.Ok? <==> from.VString?
  {
    if from.VString? then Ok(VBool(|from.s| == 0)) else Fail(BadAnyCast)
  }

  /** As written, StrToBool inverts string truthiness: "" becomes true and "x" false. */
  lemma StrToBoolAsWrittenInverts()
    ensures StrToBoolAsWritten(VString("")) == Ok(VBool(true))
    ensures StrToBoolAsWritten(VString("x")) == Ok(VBool(false))
    ensures Cast(StrToBool, VString(""), VBool(true)) == Ok(VBool(false))
    ensures Cast(StrToBool, VString("x"), VBool(true)) == Ok(VBool(true))
  {
  }

  /** The corrected StrToBool: true iff the string is non-empty, the opposite of the code for every string. */
  lemma StrToBoolTruthiness(s: string, to: Value)
    ensures Cast(StrToBool, VString(s), to) == Ok(VBool(s != ""))
    ensures StrToBoolAsWritten(VString(s)).value == VBool(s == "")
  {
  }

  /** The converter `c`'s Convert(from, to); AnyConverter re-enters the registry. */
  function Apply(c: ConverterKind, from: Value, to: Value, reg: TypeRegistry): (r: Outcome<Value>)
    reads reg, reg.hashesHandlers.Values
    requires reg.Valid()
    ensures reg.HandlersAgree() && Accepts(c, TypeOf(from)) && (NeedsCurrent(c) ==> TypeOf(to) == Target(c))
            ==> r.Ok? && TypeOf(r.value) == (if c == AnyConv then TypeOf(to) else Target(c))
    decreases from, 0
  {
    if c != AnyConv then Cast(c, from, to)
    else if from.VAny? then AnyConvert(from.held, to, reg)
    else Fail(BadAnyCast)
  }

  /**
   * AnyConverter::Convert on an AnyValue holding `held`: the held value
   * when it already has the current value's type; otherwise the handler
   * of the current value's type converts it, and the current value is
   * kept when there is no such handler or it has no converter from the
   * held type. Corrected to ask about the held value (see AnyConvertAsWritten).
   */
  function AnyConvert(held: Value, to: Value, reg: TypeRegistry): (r: Outcome<Value>)
    reads reg, reg.hashesHandlers.Values
    requires reg.Valid()
    ensures TypeHash(held) == TypeHash(to) ==> r == Ok(held)
    ensures TypeHash(held) != TypeHash(to) && TypeHash(to) !in reg.hashes ==> r == Ok(to)
    ensures TypeHash(held) != TypeHash(to) && TypeHash(to) in reg.hashes
            && !reg.hashesHandlers[TypeHash(to)].CanConvertFrom(held)
            ==> r == Ok(to)
    ensures TypeHash(held) != TypeHash(to) && TypeHash(to) in reg.hashes
            && reg.hashesHandlers[TypeHash(to)].CanConvertFrom(held)
            ==> r == ConvertFrom(reg.hashesHandlers[TypeHash(to)], held, to, reg)
    ensures reg.HandlersAgree() ==> r.Ok? && TypeOf(r.value) == TypeOf(to)
    decreases held, 2
  {
    if TypeHash(held) == TypeHash(to) then Ok(held)
    else
      var handle := reg.GetTypeHandle(TypeHash(to));
      if handle == null then Ok(to)
      else if !handle.CanConvertFrom(held) then Ok(to)
      else
        IdHashInjective(HandledType(handle.kind), TypeOf(to));
        ConvertFrom(handle, held, to, reg)
  }

  /** Convert with StrToBool as written; every other converter is the one Cast models. */
  function CastAsWritten(c: ConverterKind, from: Value, to: Value): (r: Outcome<Value>)
    requires c != AnyConv
    ensures r.Ok? <==> Cast(c, from, to).Ok?
    ensures c != StrToBool ==> r == Cast(c, from, to)
  {
    if c == StrToBool then StrToBoolAsWritten(from) else Cast(c, from, to)
  }

  /** The converter `c`'s Convert as written: StrToBool and AnyConverter as the code has them. */
  function ApplyAsWritten(c: ConverterKind, from: Value, to: Value, reg: TypeRegistry): (r: Outcome<Value>)
    reads reg, reg.hashesHandlers.Values
    requires reg.Valid()
    ensures c != AnyConv ==> r == CastAsWritten(c, from, to)
    ensures c == AnyConv && !from.VAny? ==> r == Fail(BadAnyCast)
    decreases from, 0
  {
    if c != AnyConv then CastAsWritten(c, from, to)
    else if from.VAny? then AnyConvertAsWritten(from.held, to, reg)
    else Fail(BadAnyCast)
  }

  /**
   * AnyConverter::Convert as written: it asks the target handler whether
   * it converts from a std::any holding the size_t `anyval.Hash()`,
   * rather than from the held value.
   */
  function AnyConvertAsWritten(held: Value, to: Value, reg: TypeRegistry): (r: Outcome<Value>)
    reads reg, reg.hashesHandlers.Values
    requires reg.Valid()
    ensures TypeHash(held) == TypeHash(to) ==> r == Ok(held)
    ensures TypeHash(held) != TypeHash(to) && TypeHash(to) !in reg.hashes ==> r == Ok(to)
    decreases held, 2
  {
    if TypeHash(held) == TypeHash(to) then Ok(held)
    else
      var handle := reg.GetTypeHandle(TypeHash(to));
      if handle == null then Ok(to)
      else if !handle.CanConvertFrom(VSize(TypeHash(held))) then Ok(to)
      else ConvertFromAsWritten(handle, held, to, reg)
  }

  /**
   * TypeHandler::ConvertFrom over the converters as written. It differs
   * from ConvertFrom only where the converter found is StrToBool or
   * AnyConverter.
   */
  function ConvertFromAsWritten(h: TypeHandler, src: Value, cur: Value, reg: TypeRegistry): (r: Outcome<Value>)
    reads h, reg, reg.hashesHandlers.Values
    requires reg.Valid()
    ensures !h.CanConvertFrom(src) ==> r == Ok(cur)
    ensures h.CanConvertFrom(src) && h.converters[TypeHash(src)] != AnyConv && h.converters[TypeHash(src)] != StrToBool
            ==> r == ConvertFrom(h, src, cur, reg)
    decreases src, 1
  {
    if !h.CanConvertFrom(src) then Ok(cur)
    else ApplyAsWritten(h.converters[TypeHash(src)], src, cur, reg)
  }

  /**
   * As written, AnyConverter never converts a held value of another type
   * when the target handler has no converter from size_t, which holds for
   * every built-in handler: the current value comes back unchanged.
   */
  lemma AnyConvertAsWrittenNeverConverts(held: Value, to: Value, reg: TypeRegistry)
    requires reg.Valid()
    requires TypeHash(held) != TypeHash(to)
    requires TypeHash(to) in reg.hashes ==> IdHash(TSize) !in reg.hashesHandlers[TypeHash(to)].converters
    ensures AnyConvertAsWritten(held, to, reg) == Ok(to)
  {
  }

  /** No built-in handler has a converter from size_t. */
  lemma BuiltinHasNoSizeConverter(k: HandlerKind)
    ensures IdHash(TSize) !in BuiltinConverters(k)
  {
  }

  /**
   * TypeHandler::ConvertFrom: the current value when the handler has no
   * converter for the source's type, else that converter's result. On a
   * registry of agreeing handlers, a coherent handler given a current
   * value of its own type always yields a value of that type.
   */
  function ConvertFrom(h: TypeHandler, src: Value, cur: Value, reg: TypeRegistry): (r: Outcome<Value>)
    reads h, reg, reg.hashesHandlers.Values
    requires reg.Valid()
    ensures !h.CanConvertFrom(src) ==> r == Ok(cur)
    ensures h.Coherent() && reg.HandlersAgree() && TypeOf(cur) == HandledType(h.kind)
            ==> r.Ok? && TypeOf(r.value) == TypeOf(cur)
    decreases src, 1
  {
    if !h.CanConvertFrom(src) then Ok(cur)
    else Apply(h.converters[TypeHash(src)], src, cur, reg)
  }

  /** Wrapping a value in an Any and converting it back to a value of its own type returns it unchanged. */
  lemma ToAnyThenBack(v: Value, previous: Value, to: Value, reg: TypeRegistry)
    requires reg.Valid()
    requires TypeOf(to) == TypeOf(v)
    ensures Apply(ToAny, v, VAny(previous), reg) == Ok(VAny(v))
    ensures Apply(AnyConv, VAny(v), to, reg) == Ok(v)
  {
    assert Cast(ToAny, v, VAny(previous)) == CastWithCurrent(ToAny, v, VAny(previous));
    assert AnyConvert(v, to, reg) == Ok(v);
  }

  /** ConvertFrom through a converter other than AnyConverter is that converter's Convert. */
  lemma ViaConverter(h: TypeHandler, src: Value, cur: Value, reg: TypeRegistry)
    requires reg.Valid()
    requires TypeHash(src) in h.converters && h.converters[TypeHash(src)] != AnyConv
    ensures ConvertFrom(h, src, cur, reg) == Cast(h.converters[TypeHash(src)], src, cur)
  {
  }

  /** int -> std::string -> int is the identity (NumberToStr then StrToInt). */
  lemma IntStringRoundTrip(i: Int32, s0: Value, i0: Value)
    ensures Cast(IntToStr, VInt(i), s0) == Ok(VString(IntToString(i)))
    ensures Cast(StrToInt, VString(IntToString(i)), i0) == Ok(VInt(i))
  {
    IntToStringRoundTrip(i);
    StrToIntParses(IntToString(i), i0);
  }

  /** StrToInt on a string: the parsed number, or 0 when it does not parse. */
  lemma StrToIntParses(s: string, to: Value)
    ensures Cast(StrToInt, VString(s), to) == Ok(VInt(if ParseInt(s).Some? then ParseInt(s).value else 0))
  {
  }

  /** What the converters that ignore the current value yield, for every source of the type they accept. */
  lemma ScalarConverterValues(b: bool, i: Int32, e: EnumValue, to: Value)
    ensures Cast(BoolToInt, VBool(b), to) == Ok(VInt(if b then 1 else 0))
    ensures Cast(IntToBool, VInt(i), to) == Ok(VBool(i != 0))
    ensures Cast(IntToStr, VInt(i), to) == Ok(VString(IntToString(i)))
    ensures Cast(EnumToStr, VEnum(e), to) == Ok(VString(e.CurrentValue()))
    ensures Cast(EnumToBool, VEnum(e), to) == Ok(VBool(e.currentIndex != 0))
    ensures Cast(EnumToInt, VEnum(e), to) == Ok(VInt(ToInt32(e.currentIndex)))
  {
  }

  /**
   * Enum -> int -> Enum over the same table selects the same index again;
   * int -> Enum -> int gives the int back when it names a key.
   */
  lemma EnumIntRoundTrip(e: EnumValue, i: Int32, i0: Value)
    ensures e.currentIndex in e.values
            ==> Cast(IntToEnum, Cast(EnumToInt, VEnum(e), i0).value, VEnum(e)) == Ok(VEnum(e))
    ensures ToUInt32(i) in e.values
            ==> Cast(EnumToInt, Cast(IntToEnum, VInt(i), VEnum(e)).value, i0) == Ok(VInt(i))
  {
    ToInt32OfToUInt32(i);
  }

  /**
   * Enum -> string -> Enum over the same table selects an index with the
   * same label, the least one; the same index when no other key shares it.
   */
  lemma EnumStringRoundTrip(e: EnumValue, s0: Value)
    requires e.currentIndex in e.values
    ensures var r := Cast(StrToEnum, Cast(EnumToStr, VEnum(e), s0).value, VEnum(e));
            r.Ok? && r.value.e.values == e.values && r.value.e.Equals(e)
            && r.value.e.currentIndex <= e.currentIndex
    ensures (forall k :: k in e.values && e.values[k] == e.CurrentValue() ==> k == e.currentIndex)
            ==> Cast(StrToEnum, Cast(EnumToStr, VEnum(e), s0).value, VEnum(e)) == Ok(VEnum(e))
  {
    SelectLabelSpec(e, e.CurrentValue());
  }

  /** bool -> int -> bool is the identity (the two static casts). */
  lemma BoolIntRoundTrip(b: bool, i0: Value, b0: Value)
    ensures Cast(IntToBool, Cast(BoolToInt, VBool(b), i0).value, b0) == Ok(VBool(b))
  {
  }

  /** Numbers select an Enum index only when the current value's table has it; the table is kept either way. */
  lemma IntToEnumKeepsTable(i: Int32, e: EnumValue)
    ensures Cast(IntToEnum, VInt(i), VEnum(e)).Ok?
    ensures var r := Cast(IntToEnum, VInt(i), VEnum(e)).value.e;
            r.values == e.values
            && (ToUInt32(i) in e.values ==> r.currentIndex == ToUInt32(i) && r.CurrentValue() == e.values[ToUInt32(i)])
            && (ToUInt32(i) !in e.values ==> r == e)
  {
  }

  /** The built-in Int handler parses "42". */
  lemma IntFromStringExample(reg: TypeRegistry, intH: TypeHandler)
    requires reg.Valid()
    requires intH.converters == BuiltinConverters(IntHandler)
    ensures ConvertFrom(intH, VString("42"), VInt(0), reg) == Ok(VInt(42))
  {
    ViaConverter(intH, VString("42"), VInt(0), reg);
    StrToIntParses("42", VInt(0));
    assert ParseInt("42") == Some(42) by {
      assert AllDigits("42");
      assert "42"[..1] == "4";
      assert DigitsValue("42") == 42;
    }
  }

  /** The built-in Int handler turns a string that is not a number into 0. */
  lemma IntFromBadStringExample(reg: TypeRegistry, intH: TypeHandler)
    requires reg.Valid()
    requires intH.converters == BuiltinConverters(IntHandler)
    ensures ConvertFrom(intH, VString("not a number"), VInt(7), reg) == Ok(VInt(0))
  {
    ViaConverter(intH, VString("not a number"), VInt(7), reg);
    StrToIntParses("not a number", VInt(7));
    assert ParseInt("not a number") == None by {
      assert !IsDigit("not a number"[0]);
    }
  }

  /** The built-in String handler renders an Enum as its current label. */
  lemma StringFromEnumExample(reg: TypeRegistry, strH: TypeHandler)
    requires reg.Valid()
    requires strH.converters == BuiltinConverters(StringHandler)
    ensures ConvertFrom(strH, VEnum(EnumValue(map[0 := "A", 1 := "B"], 1)), VString(""), reg) == Ok(VString("B"))
  {
    ViaConverter(strH, VEnum(EnumValue(map[0 := "A", 1 := "B"], 1)), VString(""), reg);
  }

  /** The built-in Enum handler selects index 1 of the current Enum {0: "A", 1: "B"}, whose label is "B". */
  lemma EnumFromIntExample(reg: TypeRegistry, enumH: TypeHandler)
    requires reg.Valid()
    requires enumH.converters == BuiltinConverters(EnumHandler)
    ensures ConvertFrom(enumH, VInt(1), VEnum(EnumValue(map[0 := "A", 1 := "B"], 0)), reg)
            == Ok(VEnum(EnumValue(map[0 := "A", 1 := "B"], 1)))
  {
    ViaConverter(enumH, VInt(1), VEnum(EnumValue(map[0 := "A", 1 := "B"], 0)), reg);
  }
}
