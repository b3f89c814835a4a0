/**
 * TSys::AnyValue: a std::any the program can overwrite, convert to a
 * registered type by hash, and compare through the registry.
 */
module AnyValues {
  import opened Outcomes
  import opened Numeric
  import opened Enums
  import opened Values
  import opened Handlers
  import opened Registry
  import opened Conversion
  import opened Equality

  class AnyValue {
    /** The wrapped std::any. */
    var value: Value

    /** AnyValue(): an empty std::any. */
    constructor Empty()
      ensures value == VEmpty
    {
      value := VEmpty;
    }

    /** AnyValue(T v) and AnyValue(std::any v): wraps `v`. */
    constructor Of(v: Value)
      ensures value == v
    {
      value := v;
    }

    /** SetInput (and Set<T>, which wraps its argument the same way): replaces the held value. */
    method SetInput(v: Value)
      modifies this
      ensures value == v
    {
      value := v;
    }

    /** AnyValue::Hash: the hash of the held value's type. */
    function Hash(): (h: SizeT)
      reads this
      ensures h == IdHash(TypeOf(value))
      ensures h != 0 && h != SIZE_MAX
    {
      TypeHash(value)
    }

    /** AnyValue::InputValue: the held std::any. */
    function InputValue(): (r: Value)
      reads this
      ensures r == value && TypeHash(r) == Hash()
    {
      value
    }

    /**
     * Get<T>: the status says whether the held type is T, and the
     * any_cast throws bad_any_cast exactly when it is not.
     */
    function Get(t: TypeId): (r: (bool, Outcome<Value>))
      reads this
      ensures r.0 <==> TypeOf(value) == t
      ensures r.1.Ok? <==> r.0
      ensures r.1.Ok? ==> r.1.value == value && TypeHash(r.1.value) == IdHash(t)
      ensures !r.0 ==> r.1 == Fail(BadAnyCast)
    {
      if TypeOf(value) == t then (true, Ok(value)) else (false, Fail(BadAnyCast))
    }

    /**
     * AnyValue::ConvertTo, corrected: the held value when `hash` is its own
     * type; the InvalidAnyCast sentinel when no handler is registered under
     * `hash`; otherwise that handler converts the held value, starting from
     * the handler's InitValue as the current value (see ConvertToAsWritten).
     */
    function ConvertTo(hash: SizeT, reg: TypeRegistry): (r: Outcome<Value>)
      reads this, reg, reg.hashesHandlers.Values
      requires reg.Valid()
      ensures hash == Hash() ==> r == Ok(value)
      ensures hash != Hash() && hash !in reg.hashes ==> r == Ok(VInvalidCast)
      ensures hash != Hash() && hash !in reg.hashes ==> IsInvalid(r.value)
      ensures reg.HandlersAgree() && hash in reg.hashes ==> r.Ok? && TypeHash(r.value) == hash
      ensures hash != Hash() && hash in reg.hashes && !reg.hashesHandlers[hash].CanConvertFrom(value)
              ==> r == Ok(InitValue(reg.hashesHandlers[hash].kind))
      ensures hash != Hash() && hash in reg.hashes
              ==> r == ConvertFrom(reg.hashesHandlers[hash], value, InitValue(reg.hashesHandlers[hash].kind), reg)
    {
      if hash == Hash() then Ok(value)
      else
        var handler := reg.GetTypeHandle(hash);
        if handler == null then Ok(VInvalidCast)
        else ConvertFrom(handler, value, InitValue(handler.kind), reg)
    }

    /**
     * AnyValue::ConvertTo as written, over the converters as written: the
     * held value doubles as the current value, so a converter that
     * any_casts the current value to the target type (every Enum and Any
     * converter) throws, and StrToBool and AnyConverter behave as the code
     * has them.
     */
    function ConvertToAsWritten(hash: SizeT, reg: TypeRegistry): (r: Outcome<Value>)
      reads this, reg, reg.hashesHandlers.Values
      requires reg.Valid()
      ensures hash == Hash() ==> r == Ok(value)
      ensures hash != Hash() && hash !in reg.hashes ==> r == Ok(VInvalidCast)
      ensures hash != Hash() && hash in reg.hashes && !reg.hashesHandlers[hash].CanConvertFrom(value)
              ==> r == Ok(value)
      ensures hash != Hash() && hash in reg.hashes
              ==> r == ConvertFromAsWritten(reg.hashesHandlers[hash], value, value, reg)
    {
      if hash == Hash() then Ok(value)
      else
        var handler := reg.GetTypeHandle(hash);
        if handler == null then Ok(VInvalidCast)
        else ConvertFromAsWritten(handler, value, value, reg)
    }

    /** AnyValue::operator==(AnyValue&): false across types or for an unregistered type, else the handler's CompareValue. */
    function Equals(other: AnyValue, reg: TypeRegistry): (r: Outcome<bool>)
      reads this, other, reg
      requires reg.Valid()
      ensures Hash() != other.Hash() || Hash() !in reg.hashes ==> r == Ok(false)
      ensures r == Ok(true) ==> TypeOf(value) == TypeOf(other.value)
      ensures r == CompareValue(AnyHandler, VAny(value), VAny(other.value), reg)
    {
      AnyEquals(value, other.value, reg)
    }

    /** AnyValue::operator==(std::any&): the same comparison against a bare std::any. */
    function EqualsAny(other: Value, reg: TypeRegistry): (r: Outcome<bool>)
      reads this, reg
      requires reg.Valid()
      ensures Hash() != TypeHash(other) || Hash() !in reg.hashes ==> r == Ok(false)
      ensures r == Ok(true) ==> TypeOf(value) == TypeOf(other)
      ensures r == CompareValue(AnyHandler, VAny(value), VAny(other), reg)
    {
      AnyEquals(value, other, reg)
    }
  }

  /** AnyValue equality is symmetric, exceptions included. */
  lemma EqualsSymmetric(a: AnyValue, b: AnyValue, reg: TypeRegistry)
    requires reg.Valid()
    ensures a.Equals(b, reg) == b.Equals(a, reg)
  {
    CompareSymmetric(AnyHandler, VAny(a.value), VAny(b.value), reg);
  }

  /** An AnyValue holding a value of a registered type equals itself, given agreeing handlers. */
  lemma EqualsReflexive(a: AnyValue, reg: TypeRegistry)
    requires reg.Valid() && reg.HandlersAgree()
    requires Registered(VAny(a.value), reg)
    ensures a.Equals(a, reg) == Ok(true)
  {
    CompareReflexive(AnyHandler, VAny(a.value), reg);
  }

  /**
   * As written, converting an AnyValue holding an int to the Enum type
   * throws when the Enum handler is the built-in one; the corrected
   * ConvertTo yields the handler's default Enum instead, as index `i` is
   * not in its empty table.
   */
  lemma ConvertIntToEnumAsWrittenThrows(a: AnyValue, i: Int32, reg: TypeRegistry)
    requires reg.Valid()
    requires a.value == VInt(i)
    requires IdHash(TEnum) in reg.hashes
    requires reg.hashesHandlers[IdHash(TEnum)].kind == EnumHandler
    requires reg.hashesHandlers[IdHash(TEnum)].converters == BuiltinConverters(EnumHandler)
    ensures a.ConvertToAsWritten(IdHash(TEnum), reg) == Fail(BadAnyCast)
    ensures a.ConvertTo(IdHash(TEnum), reg) == Ok(VEnum(EnumValue(map[], 0)))
  {
    var h := reg.hashesHandlers[IdHash(TEnum)];
    IdHashInjective(TInt, TEnum);
    assert reg.GetTypeHandle(IdHash(TEnum)) == h;
    assert h.converters[IdHash(TInt)] == IntToEnum;
    assert ConvertFromAsWritten(h, VInt(i), VInt(i), reg) == Cast(IntToEnum, VInt(i), VInt(i));
    assert ConvertFrom(h, VInt(i), VEnum(EnumValue(map[], 0)), reg)
        == Cast(IntToEnum, VInt(i), VEnum(EnumValue(map[], 0)));
  }

  /**
   * An AnyValue holding the empty string converts to the built-in bool
   * handler as true in the code as written (the converter yields whether
   * the string is empty), and as false once corrected (whether it is not).
   */
  lemma ConvertEmptyStringToBool(a: AnyValue, reg: TypeRegistry)
    requires reg.Valid()
    requires a.value == VString("")
    requires IdHash(TBool) in reg.hashes
    requires reg.hashesHandlers[IdHash(TBool)].kind == BoolHandler
    requires reg.hashesHandlers[IdHash(TBool)].converters == BuiltinConverters(BoolHandler)
    ensures a.ConvertToAsWritten(IdHash(TBool), reg) == Ok(VBool(true))
    ensures a.ConvertTo(IdHash(TBool), reg) == Ok(VBool(false))
  {
    var h := reg.hashesHandlers[IdHash(TBool)];
    IdHashInjective(TString, TBool);
    assert reg.GetTypeHandle(IdHash(TBool)) == h;
    assert h.converters[IdHash(TString)] == StrToBool;
    assert ConvertFromAsWritten(h, VString(""), VString(""), reg) == StrToBoolAsWritten(VString(""));
    assert ConvertFrom(h, VString(""), VBool(true), reg) == Cast(StrToBool, VString(""), VBool(true));
  }

  /** An AnyValue holding an int converts to a registered std::string as its decimal text. */
  lemma ConvertIntToString(a: AnyValue, reg: TypeRegistry)
    requires reg.Valid()
    requires a.value == VInt(5)
    requires IdHash(TString) in reg.hashes
    requires reg.hashesHandlers[IdHash(TString)].kind == StringHandler
    requires reg.hashesHandlers[IdHash(TString)].converters == BuiltinConverters(StringHandler)
    ensures a.ConvertTo(IdHash(TString), reg) == Ok(VString("5"))
  {
    IntToStringExample();
    var h := reg.hashesHandlers[IdHash(TString)];
    IdHashInjective(TInt, TString);
    assert reg.GetTypeHandle(IdHash(TString)) == h;
    ViaConverter(h, VInt(5), VString(""), reg);
  }

  /** An AnyValue holding a non-zero int converts to a registered bool as true. */
  lemma ConvertIntToBool(a: AnyValue, reg: TypeRegistry)
    requires reg.Valid()
    requires a.value == VInt(5)
    requires IdHash(TBool) in reg.hashes
    requires reg.hashesHandlers[IdHash(TBool)].kind == BoolHandler
    requires reg.hashesHandlers[IdHash(TBool)].converters == BuiltinConverters(BoolHandler)
    ensures a.ConvertTo(IdHash(TBool), reg) == Ok(VBool(true))
  {
    var h := reg.hashesHandlers[IdHash(TBool)];
    IdHashInjective(TInt, TBool);
    assert reg.GetTypeHandle(IdHash(TBool)) == h;
    ViaConverter(h, VInt(5), VBool(true), reg);
  }

  /** Converting to a hash nobody registered yields the InvalidAnyCast sentinel. */
  lemma ConvertToUnregistered(a: AnyValue, reg: TypeRegistry)
    requires reg.Valid()
    requires a.value == VInt(5)
    requires IdHash(TNone) !in reg.hashes
    ensures a.ConvertTo(IdHash(TNone), reg) == Ok(VInvalidCast)
    ensures IsInvalid(a.ConvertTo(IdHash(TNone), reg).value)
  {
    IdHashInjective(TInt, TNone);
  }

  lemma IntToStringExample()
    ensures IntToString(5) == "5"
  {
    assert NatToString(5) == "5";
  }
}
